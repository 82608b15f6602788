# Purpose Guide questionnaire: navigation state machine

A Dafny model of the logic inside the `App` component of the Purpose Guide
single-page questionnaire. After an introductory essay the user answers one
chapter of open-ended prompts in order. Answers are committed as the user goes
and then a summary note is shown. Everything else in the component is markup,
styling and animation.

The model has five modules:

- `Text` (`text.dfy`): JavaScript's `trim()` and the "blank draft" test that
  is the component's only validation rule. `IsWhitespace` lists the
  ECMAScript WhiteSpace and LineTerminator code points.
- `AnswerStore` (`answer_store.dfy`): the answer object as a
  `map<(chapter, question), string>`, with upsert and the `|| ''` lookup.
  It also proves that the component's string key `ch{c}_q{q}` is injective,
  so keying the map by the pair loses nothing.
- `Navigation` (`navigation.dfy`): the six pieces of component state and one
  pure function per handler: `Begin`, `EditDraft`, `Advance`
  (`handleNextQuestion`), `Retreat` (`handlePreviousQuestion`) and `Refine`.
  `ViewOf` picks the screen from the two flags.
- `Session` (`session.dfy`): user intents. `Step` applies an intent only when
  the current screen offers it, and `Run` applies a sequence of them. The
  invariant `Inv` holds in every reachable state:
  - the index is in range and the chapter is 0;
  - the note is shown only after the intro;
  - every earlier question has a committed non-blank answer;
  - the committed keys form a prefix of the chapter.
- `Scenarios` (`scenarios.dfy`): the populated 12-question chapter, and walks
  through begin / answer / back, the last question, and "Continue Reflecting".

The question list is a parameter (`Chapter`). Only its length matters.
"Intents a screen does not offer" means these cases:

- the Back button is rendered only past the first question;
- the Next button is disabled while the draft trims to nothing;
- each screen's buttons exist only on that screen.

`Step` returns `None` for these cases. The handlers themselves still carry
their own guards, and their contracts cover those guards.

Notes on the code in `src/App.jsx`:

- Begin (line 206) only sets the intro flag. It does not reset the position
  or reload the draft. `Session.BeginStartsAtFirstQuestion` shows that this
  lands on question 0 with an empty draft anyway, because the intro screen
  only ever shows the initial state.
- Going forward and then back (lines 58-81) restores the draft that was just
  committed, not any earlier stored answer: the forward step overwrote that
  answer at line 63 (`Navigation.AdvanceThenRetreat`).
- `handleNextQuestion` rejects a draft when `trim()` leaves the empty string
  (line 59). `Navigation.Advance` states this test as `IsBlank`. The contract
  of `Text.Trim` proves that the two conditions are the same, and `Session.Step`
  keeps the literal `Trim` test of the disabled button (line 308).
- There is no phase variable. The screen is read from two flags (lines 107,
  214, 251), and one of the four flag combinations (note shown before the
  intro is completed) is unreachable (`Session.ReachableBounds`).

## Model

| member | source | states |
|---|---|---|
| Text.Trim | src/App.jsx:59 | `trim()` gives the empty string exactly when every character is whitespace; otherwise the result starts and ends with a non-whitespace character. Whitespace (`IsWhitespace`) is the ECMAScript WhiteSpace and LineTerminator set: U+0009, U+000B, U+000C, U+0020, U+00A0, U+1680, U+2000 to U+200A, U+202F, U+205F, U+3000, U+FEFF, U+000A, U+000D, U+2028 and U+2029 |
| Text.TrimStart | src/App.jsx:59 | the leading run of whitespace is removed and nothing else: the result is a suffix whose dropped prefix is all whitespace and which does not start with whitespace |
| Text.TrimEnd | src/App.jsx:59 | the trailing run of whitespace is removed: the result is a prefix whose dropped suffix is all whitespace and which does not end with whitespace |
| Text.TrimEmptyIffBlank | src/App.jsx:59 | trimming both ends leaves nothing if and only if the draft is blank (both directions) |
| AnswerStore.Upsert | src/App.jsx:61-65 | the spread-and-set writes exactly one key: the key set gains the current key, it maps to the draft, and every other key keeps its value |
| AnswerStore.Lookup | src/App.jsx:68-70 | the lookup with its empty-string fallback yields the stored text when the key is present and "" when it is absent |
| AnswerStore.UpsertIdempotent | src/App.jsx:61-65 | committing the same text twice at one key gives the same store as committing it once |
| AnswerStore.LookupAfterUpsert | src/App.jsx:61-70 | reading back after a write yields the written text at that key and the previous value at every other key |
| AnswerStore.Decimal | src/App.jsx:63 | a number inside the template literal prints as a non-empty string of decimal digits that reads back as that number, with no leading zero; 0 prints as "0" |
| AnswerStore.KeyString | src/App.jsx:63-80 | the key `ch${c}_q${q}` (built at lines 63, 70 and 80) starts with "ch"; the digits up to the first '_' read back as the chapter, and the digits after the following "_q" read back as the question |
| AnswerStore.DecimalInjective | src/App.jsx:63 | distinct indices print as distinct decimal strings inside the template literal |
| AnswerStore.KeyStringInjective | src/App.jsx:63 | distinct (chapter, question) pairs get distinct `ch{c}_q{q}` keys, so a pair-keyed map is equivalent to the string-keyed object |
| Navigation.Init | src/App.jsx:28-33 | a session starts on the intro at chapter 0, question 0, with no note, no answers and an empty draft |
| Navigation.Begin | src/App.jsx:206 | the begin button sets the intro flag and changes no other field |
| Navigation.EditDraft | src/App.jsx:277 | typing replaces the draft with the textarea's value and commits nothing |
| Navigation.Refine | src/App.jsx:241 | "Continue Reflecting" clears the note flag and changes no other field |
| Navigation.Advance | src/App.jsx:58-74 | a blank draft leaves the state unchanged. Otherwise exactly the current key is written with the draft. Below the last question the index becomes q+1 and the draft becomes the stored answer for q+1, or "" if there is none. At the last question the note is shown with index and draft unchanged. Chapter and intro flag never change |
| Navigation.Retreat | src/App.jsx:76-82 | at index 0 nothing changes. Otherwise the index becomes q-1 and the draft is reloaded from the committed answers, dropping an uncommitted edit. The answers and both flags are unchanged |
| Navigation.ViewOf | src/App.jsx:107-251 | the intro screen shows exactly when the intro flag is unset, the note exactly when both flags are set, and the question exactly when the intro is done and the note hidden |
| Navigation.AdvanceThenRetreat | src/App.jsx:58-82 | from below the last question with a non-blank draft, forward then back returns to the same question and draft; the only lasting effect is the draft committed at that question |
| Navigation.AdvanceRepeatedAtSamePosition | src/App.jsx:61-65 | an advance repeated at the same position with the same draft produces the same state, so the upsert is idempotent |
| Navigation.AdvanceAtLastIdempotent | src/App.jsx:67-73 | at the last question, pressing the button twice is the same as pressing it once |
| Session.Step | src/App.jsx:206-308 | each intent is offered exactly on its own screen: Begin on the intro, edit on the question screen, Next there only when the draft is not blank, Back there only past question 0, Continue and Proceed on the note. An offered intent runs its handler (`Begin`, `EditDraft`, `Advance`, `Retreat`, `Refine`), and Proceed changes nothing. As consequences, the chapter never changes, no key is removed, only Next changes the answers, and the intro never returns |
| Session.Run | src/App.jsx:28-82 | over any sequence of offered intents the chapter is fixed, the answer keys only grow, and the intro never returns |
| Session.InitInv | src/App.jsx:28-33 | the initial state satisfies the invariant for any non-empty chapter |
| Session.UpsertKeepsWellFormed | src/App.jsx:59-65 | committing a non-blank draft where every earlier question is answered keeps every stored key in chapter 0 and in range, every value non-blank, and the keys a prefix |
| Session.AdvancePreservesInv | src/App.jsx:58-74 | on the question screen, `handleNextQuestion` preserves the invariant: bounded index, answered prefix, well-formed store, note only with the last answer stored |
| Session.RetreatPreservesInv | src/App.jsx:76-82 | on the question screen, `handlePreviousQuestion` preserves the invariant |
| Session.BeginPreservesInv | src/App.jsx:206 | on the intro screen, begin preserves the invariant |
| Session.EditDraftPreservesInv | src/App.jsx:277 | editing the draft preserves the invariant |
| Session.RefinePreservesInv | src/App.jsx:241 | on the note screen, "Continue Reflecting" preserves the invariant |
| Session.StepPreservesInv | src/App.jsx:206-308 | every intent the current screen offers preserves the invariant |
| Session.RunPreservesInv | src/App.jsx:28-82 | every sequence of offered intents preserves the invariant |
| Session.ReachableInv | src/App.jsx:28-82 | every state a session can reach satisfies the invariant |
| Session.ReachableBounds | src/App.jsx:28-33 | in every reachable state the index is below the number of questions, the chapter is 0, and the note is never shown before the intro is complete |
| Session.RetreatFindsCommittedAnswer | src/App.jsx:76-81 | when the invariant holds and q > 0, a non-blank answer is stored for q-1 and Back loads exactly it, so the empty-string fallback is never taken |
| Session.NoteMeansAllAnswered | src/App.jsx:67-73 | while the summary note is visible, every question of the chapter has a committed non-blank answer |
| Session.BeginStartsAtFirstQuestion | src/App.jsx:205-210 | begin on the intro screen lands on the question screen at question 0, with the draft equal to the (absent) stored answer for (0, 0), i.e. "" |
| Session.RunAnswerOne | src/App.jsx:275-311 | a non-blank edit followed by "Next" runs exactly as committing that edit with `handleNextQuestion` |
| Session.AnswerOneStep | src/App.jsx:58-74 | from the question screen, a non-blank edit followed by `handleNextQuestion` moves to the next question screen below the last question, and shows the note at the last one |
| Session.AnsweringEndsOnNote | src/App.jsx:58-74 | from a question `n` places before the end of the chapter, `n` rounds of a non-blank edit followed by "Next" end on the summary note |
| Session.AnsweringReachesNote | src/App.jsx:58-74 | from any question, answering it and every later question with non-blank text reaches the summary note with the invariant intact |
| Scenarios.AttractionPullShape | src/App.jsx:39-52 | the populated chapter has twelve questions |
| Scenarios.FirstAnswerRoundTrip | src/App.jsx:58-82 | begin, then type "I love puzzles", then Next: this reaches question 1 with (0,0) stored. Back then returns to question 0 with that draft |
| Scenarios.LastQuestionShowsNote | src/App.jsx:67-73 | at question 11, typing "Design" and pressing the button shows the note at question 11 with "Design" stored |
| Scenarios.RefineReturnsToSameQuestion | src/App.jsx:241 | "Continue Reflecting" returns to the question screen at the same index with the same draft |
| Scenarios.BackAtFirstQuestion | src/App.jsx:76-77 | at question 0 the Back intent is not offered and the handler is a no-op |
| Scenarios.BlankDraftRejected | src/App.jsx:59 | the draft `" \n\t "` (space, newline, tab, space) cannot be committed on the populated chapter: Next is not offered and the handler leaves the state unchanged. The same fact for every draft is part of the contracts of `Session.Step` (session.dfy:47) and `Navigation.Advance` (navigation.dfy:76) |

## Left out

- Rendering, styling and icons are left out (src/App.jsx:1-24, 84-322). These cover the JSX, Tailwind classes, `framer-motion` animation and `lucide-react` icons. They are presentation only.
- The `alert("Proceeding...")` of "Correct, Proceed" is a browser side effect. It is modelled as the intent `ProceedPressed`, which changes no state.
- The static copy is left out. This covers the "Chapter N / 15" header, the canned "Pattern Identified" text and the "Supports Speech" label. None of it has logic.
- The prompt texts are left out. `Scenarios.AttractionPull` carries a short label per question instead, because navigation depends only on their number.
- React's asynchronous batching of state setters and re-render scheduling are left out. Each handler is one atomic transition over the values it closes over. `Advance` reads the freshly built answers and `Retreat` reads the committed ones, as the two handlers do.
- `IsWhitespace` uses the Unicode space separators as currently defined. The JavaScript engine's Unicode version may differ.
- JavaScript strings are UTF-16 code units. Dafny `char` is a Unicode scalar value. Every character `trim()` strips lies in the Basic Multilingual Plane, so the blank test is unaffected.
