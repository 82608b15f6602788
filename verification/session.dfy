/**
 A session as a sequence of user intents. Each screen offers only some of the
 handlers: the intro screen its begin button, the question screen the
 textarea, the "Next" button (disabled while the draft trims to nothing) and
 the "Back" button (rendered only past the first question), the note screen
 its two buttons. An intent the current screen does not offer cannot happen,
 and `Step` says so with `None`.

 The invariant proved here holds in every state a session can reach: the
 position stays in range, the chapter never changes, the note is only shown
 after the intro, every question before the current one has a committed
 non-blank answer, and the committed keys are always a prefix of the chapter.
 */
module Session {
  import opened Text
  import opened AnswerStore
  import opened Navigation

  datatype Option<T> = None | Some(value: T)

  datatype Intent =
    | BeginPressed           // "Begin Your Journey"
    | DraftEdited(text: string)  // typing in the textarea
    | NextPressed            // "Next Step" / "Identify Patterns"
    | BackPressed            // "Back"
    | ContinuePressed        // "Continue Reflecting"
    | ProceedPressed         // "Correct, Proceed": an alert, no state change

  /** The next state after intent `e`, or `None` when the screen showing in
      `s` does not offer `e`. */
  function Step(ch: Chapter, s: State, e: Intent): (r: Option<State>)
    // the chapter setter is never called and nothing is ever deleted
    ensures r.Some? ==> r.value.chapter == s.chapter
    ensures r.Some? ==> s.answers.Keys <= r.value.answers.Keys
    // only the question screen commits, and only "Next" does
    ensures r.Some? && r.value.answers != s.answers ==> e == NextPressed && ViewOf(s) == QuestionView
    // the intro is never shown again once left
    ensures r.Some? && s.introComplete ==> r.value.introComplete
    // no intent is offered by two screens
    ensures r.Some? && e == BeginPressed ==> ViewOf(s) == IntroView
    ensures r.Some? && (e == ContinuePressed || e == ProceedPressed) ==> ViewOf(s) == NoteView
    ensures r.Some? && e == ProceedPressed ==> r.value == s
    // when each intent is offered: its screen, plus the Next button's
    // `disabled` test and the Back button's render condition
    ensures e == BeginPressed ==> (r.Some? <==> ViewOf(s) == IntroView)
    ensures e.DraftEdited? ==> (r.Some? <==> ViewOf(s) == QuestionView)
    ensures e == NextPressed ==> (r.Some? <==> ViewOf(s) == QuestionView && !IsBlank(s.draft))
    ensures e == BackPressed ==> (r.Some? <==> ViewOf(s) == QuestionView && s.question > 0)
    ensures e == ContinuePressed || e == ProceedPressed ==> (r.Some? <==> ViewOf(s) == NoteView)
    // and the handler an offered intent runs
    ensures r.Some? && e == BeginPressed ==> r.value == Begin(s)
    ensures r.Some? && e.DraftEdited? ==> r.value == EditDraft(s, e.text)
    ensures r.Some? && e == NextPressed ==> r.value == Advance(ch, s)
    ensures r.Some? && e == BackPressed ==> r.value == Retreat(s)
    ensures r.Some? && e == ContinuePressed ==> r.value == Refine(s)
  {
    match (ViewOf(s), e)
    case (IntroView, BeginPressed) => Some(Begin(s))
    case (QuestionView, DraftEdited(text)) => Some(EditDraft(s, text))
    case (QuestionView, NextPressed) =>
      if Trim(s.draft) != "" then Some(Advance(ch, s)) else None
    case (QuestionView, BackPressed) =>
      if s.question > 0 then Some(Retreat(s)) else None
    case (NoteView, ContinuePressed) => Some(Refine(s))
    case (NoteView, ProceedPressed) => Some(s)
    case _ => None
  }

  /** Applies the intents in order; `None` as soon as one is not offered. */
  function Run(ch: Chapter, s: State, es: seq<Intent>): (r: Option<State>)
    ensures r.Some? ==> r.value.chapter == s.chapter
    ensures r.Some? ==> s.answers.Keys <= r.value.answers.Keys
    ensures r.Some? && s.introComplete ==> r.value.introComplete
    decreases |es|
  {
    if es == [] then Some(s)
    else
      match Step(ch, s, es[0])
      case None => None
      case Some(t) => Run(ch, t, es[1..])
  }

  ghost predicate Reachable(ch: Chapter, s: State) {
    exists es :: Run(ch, Init(), es) == Some(s)
  }

  /** Every question before the current one has a committed answer. */
  ghost predicate AnsweredBefore(s: State) {
    forall j: nat :: j < s.question ==> (0, j) in s.answers
  }

  /** Committed keys lie in chapter 0, below the chapter's length, hold
      non-blank text, and form a prefix: a key's predecessors are present. */
  ghost predicate WellFormedStore(ch: Chapter, m: Store) {
    && (forall k :: k in m ==> k.0 == 0 && k.1 < |ch.questions| && !IsBlank(m[k]))
    && (forall i: nat, j: nat :: i < j && (0, j) in m ==> (0, i) in m)
  }

  ghost predicate Inv(ch: Chapter, s: State) {
    && s.chapter == 0
    && s.question < |ch.questions|
    && (s.noteVisible ==> s.introComplete)
    && (!s.introComplete ==> s == Init())
    && (s.noteVisible ==> (0, |ch.questions| - 1) in s.answers)
    && AnsweredBefore(s)
    && WellFormedStore(ch, s.answers)
  }

  lemma InitInv(ch: Chapter)
    requires ValidChapter(ch)
    ensures Inv(ch, Init())
  {
  }

  /** Committing a non-blank draft at the current position of a state whose
      earlier questions are all answered keeps the store well formed. */
  lemma UpsertKeepsWellFormed(ch: Chapter, s: State)
    requires Inv(ch, s)
    requires !IsBlank(s.draft)
    ensures WellFormedStore(ch, Upsert(s.answers, CurrentKey(s), s.draft))
  {
  }

  /** Every earlier question answered, and the current one now committed:
      every question up to and including the current one is answered. */
  lemma CommitExtendsAnswered(ch: Chapter, s: State)
    requires Inv(ch, s)
    requires !IsBlank(s.draft)
    ensures forall j: nat :: j <= s.question ==> (0, j) in Upsert(s.answers, CurrentKey(s), s.draft)
  {
    var m := Upsert(s.answers, CurrentKey(s), s.draft);
    forall j: nat | j <= s.question
      ensures (0, j) in m
    {
      if j < s.question {
        assert (0, j) in s.answers;
      }
    }
  }

  lemma AdvanceMovingOnPreservesInv(ch: Chapter, s: State)
    requires Inv(ch, s)
    requires ViewOf(s) == QuestionView
    requires !IsBlank(s.draft) && s.question + 1 < |ch.questions|
    ensures Inv(ch, Advance(ch, s))
  {
    var t := Advance(ch, s);
    var m := Upsert(s.answers, CurrentKey(s), s.draft);
    assert t.answers == m;
    UpsertKeepsWellFormed(ch, s);
    CommitExtendsAnswered(ch, s);
    assert t.chapter == 0 && t.question == s.question + 1;
    assert t.introComplete && !t.noteVisible;
    assert AnsweredBefore(t);
  }

  lemma AdvanceAtLastPreservesInv(ch: Chapter, s: State)
    requires Inv(ch, s)
    requires ViewOf(s) == QuestionView
    requires !IsBlank(s.draft) && s.question + 1 >= |ch.questions|
    ensures Inv(ch, Advance(ch, s))
  {
    var t := Advance(ch, s);
    var m := Upsert(s.answers, CurrentKey(s), s.draft);
    assert t.answers == m;
    UpsertKeepsWellFormed(ch, s);
    CommitExtendsAnswered(ch, s);
    assert t.chapter == 0 && t.question == s.question == |ch.questions| - 1;
    assert t.introComplete && t.noteVisible;
    assert (0, |ch.questions| - 1) in t.answers;
    assert AnsweredBefore(t);
  }

  lemma AdvancePreservesInv(ch: Chapter, s: State)
    requires Inv(ch, s)
    requires ViewOf(s) == QuestionView
    ensures Inv(ch, Advance(ch, s))
  {
    if IsBlank(s.draft) {
    } else if s.question + 1 < |ch.questions| {
      AdvanceMovingOnPreservesInv(ch, s);
    } else {
      AdvanceAtLastPreservesInv(ch, s);
    }
  }

  lemma RetreatPreservesInv(ch: Chapter, s: State)
    requires Inv(ch, s)
    requires ViewOf(s) == QuestionView
    ensures Inv(ch, Retreat(s))
  {
  }

  lemma BeginPreservesInv(ch: Chapter, s: State)
    requires Inv(ch, s)
    requires ViewOf(s) == IntroView
    ensures Inv(ch, Begin(s))
  {
  }

  lemma EditDraftPreservesInv(ch: Chapter, s: State, text: string)
    requires Inv(ch, s)
    requires ViewOf(s) == QuestionView
    ensures Inv(ch, EditDraft(s, text))
  {
  }

  lemma RefinePreservesInv(ch: Chapter, s: State)
    requires Inv(ch, s)
    requires ViewOf(s) == NoteView
    ensures Inv(ch, Refine(s))
  {
  }

  lemma StepPreservesInv(ch: Chapter, s: State, e: Intent)
    requires Inv(ch, s)
    requires Step(ch, s, e).Some?
    ensures Inv(ch, Step(ch, s, e).value)
  {
    match e
    case BeginPressed => BeginPreservesInv(ch, s);
    case DraftEdited(text) => EditDraftPreservesInv(ch, s, text);
    case NextPressed => AdvancePreservesInv(ch, s);
    case BackPressed => RetreatPreservesInv(ch, s);
    case ContinuePressed => RefinePreservesInv(ch, s);
    case ProceedPressed =>
  }

  lemma {:induction false} RunPreservesInv(ch: Chapter, s: State, es: seq<Intent>)
    requires Inv(ch, s)
    requires Run(ch, s, es).Some?
    ensures Inv(ch, Run(ch, s, es).value)
    decreases |es|
  {
    if es != [] {
      StepPreservesInv(ch, s, es[0]);
      RunPreservesInv(ch, Step(ch, s, es[0]).value, es[1..]);
    }
  }

  /** The invariant holds in every state a session can reach. */
  lemma ReachableInv(ch: Chapter, s: State)
    requires ValidChapter(ch)
    requires Reachable(ch, s)
    ensures Inv(ch, s)
  {
    var es :| Run(ch, Init(), es) == Some(s);
    InitInv(ch);
    RunPreservesInv(ch, Init(), es);
  }

  /** Position and flags in every reachable state: the index stays within the
      chapter, the chapter is the first, and the note is only ever shown
      after the intro, so the three screens are exactly the three reachable
      flag combinations. */
  lemma ReachableBounds(ch: Chapter, s: State)
    requires ValidChapter(ch)
    requires Reachable(ch, s)
    ensures s.chapter == 0
    ensures s.question < |ch.questions|
    ensures !(s.noteVisible && !s.introComplete)
  {
    ReachableInv(ch, s);
  }

  /** "Back" always finds a committed non-blank answer for the previous
      question, so the `|| ''` fallback is never taken. */
  lemma RetreatFindsCommittedAnswer(ch: Chapter, s: State)
    requires Inv(ch, s)
    requires s.question > 0
    ensures (0, s.question - 1) in s.answers
    ensures Retreat(s).draft == s.answers[(0, s.question - 1)]
    ensures !IsBlank(Retreat(s).draft)
  {
  }

  /** When the summary note is showing, every question of the chapter has a
      committed non-blank answer. */
  lemma NoteMeansAllAnswered(ch: Chapter, s: State)
    requires Inv(ch, s)
    requires s.noteVisible
    ensures forall j: nat :: j < |ch.questions| ==> (0, j) in s.answers && !IsBlank(s.answers[(0, j)])
  {
  }

  /** Pressing "Begin" from the intro lands on the first question with an
      empty draft: the intro screen only ever shows the initial state, so
      setting the flag alone has the effect of resetting position and draft. */
  lemma BeginStartsAtFirstQuestion(ch: Chapter, s: State)
    requires Inv(ch, s)
    requires ViewOf(s) == IntroView
    ensures Step(ch, s, BeginPressed) == Some(Begin(s))
    ensures ViewOf(Begin(s)) == QuestionView
    ensures Begin(s).question == 0
    ensures Begin(s).draft == Lookup(Begin(s).answers, (0, 0)) == ""
  {
  }

  /** Typing `d` and pressing "Next", `n` times over. */
  function AnswerAll(d: string, n: nat): (es: seq<Intent>)
    ensures |es| == 2 * n
  {
    if n == 0 then [] else [DraftEdited(d), NextPressed] + AnswerAll(d, n - 1)
  }

  /** Answering one question: a non-blank edit followed by "Next" is the
      same as committing that edit. */
  lemma RunAnswerOne(ch: Chapter, s: State, d: string, rest: seq<Intent>)
    requires ViewOf(s) == QuestionView
    requires !IsBlank(d)
    ensures Run(ch, s, [DraftEdited(d), NextPressed] + rest)
         == Run(ch, Advance(ch, EditDraft(s, d)), rest)
  {
    var es := [DraftEdited(d), NextPressed] + rest;
    var s1 := EditDraft(s, d);
    assert es[0] == DraftEdited(d) && es[1..] == [NextPressed] + rest;
    assert Step(ch, s, DraftEdited(d)) == Some(s1);
    assert ([NextPressed] + rest)[1..] == rest;
    assert Step(ch, s1, NextPressed) == Some(Advance(ch, s1));
  }

  /** One round of answering from a question screen: the edit and "Next"
      either move to the next question or, at the last one, show the note. */
  lemma AnswerOneStep(ch: Chapter, s: State, d: string)
    requires ViewOf(s) == QuestionView
    requires !IsBlank(d)
    ensures var t := Advance(ch, EditDraft(s, d));
      && (s.question + 1 < |ch.questions| ==> ViewOf(t) == QuestionView && t.question == s.question + 1)
      && (s.question + 1 >= |ch.questions| ==> ViewOf(t) == NoteView)
  {
  }

  /** Running `n` rounds of answering is one round followed by `n - 1`. */
  lemma RunAnswerAllUnfold(ch: Chapter, s: State, d: string, n: nat)
    requires n > 0
    requires ViewOf(s) == QuestionView
    requires !IsBlank(d)
    ensures Run(ch, s, AnswerAll(d, n)) == Run(ch, Advance(ch, EditDraft(s, d)), AnswerAll(d, n - 1))
  {
    assert AnswerAll(d, n) == [DraftEdited(d), NextPressed] + AnswerAll(d, n - 1);
    RunAnswerOne(ch, s, d, AnswerAll(d, n - 1));
  }

  /** At the last question one round of answering shows the note. */
  lemma LastRoundShowsNote(ch: Chapter, s: State, d: string)
    requires s.question + 1 == |ch.questions|
    requires ViewOf(s) == QuestionView
    requires !IsBlank(d)
    ensures var t := Run(ch, s, AnswerAll(d, 1));
      t.Some? && ViewOf(t.value) == NoteView
  {
    var s2 := Advance(ch, EditDraft(s, d));
    RunAnswerAllUnfold(ch, s, d, 1);
    AnswerOneStep(ch, s, d);
    assert AnswerAll(d, 0) == [];
    assert Run(ch, s2, []) == Some(s2);
  }

  /** From a question `n` places before the end of the chapter, `n` rounds
      of answering with `d` end on the summary note. */
  lemma {:induction false} AnsweringEndsOnNote(ch: Chapter, s: State, d: string, n: nat)
    requires n > 0 && s.question + n == |ch.questions|
    requires ViewOf(s) == QuestionView
    requires !IsBlank(d)
    ensures var t := Run(ch, s, AnswerAll(d, n));
      t.Some? && ViewOf(t.value) == NoteView
    decreases n
  {
    if n == 1 {
      LastRoundShowsNote(ch, s, d);
    } else {
      var s2 := Advance(ch, EditDraft(s, d));
      RunAnswerAllUnfold(ch, s, d, n);
      AnswerOneStep(ch, s, d);
      AnsweringEndsOnNote(ch, s2, d, n - 1);
    }
  }

  /** The questionnaire can always be finished: from any question, answering
      it and each later one with a non-blank text reaches the summary note,
      with the invariant intact (so every question of the chapter answered). */
  lemma AnsweringReachesNote(ch: Chapter, s: State, d: string)
    requires Inv(ch, s)
    requires ViewOf(s) == QuestionView
    requires !IsBlank(d)
    ensures var t := Run(ch, s, AnswerAll(d, |ch.questions| - s.question));
      t.Some? && ViewOf(t.value) == NoteView && Inv(ch, t.value)
  {
    var es := AnswerAll(d, |ch.questions| - s.question);
    AnsweringEndsOnNote(ch, s, d, |ch.questions| - s.question);
    assert Run(ch, s, es).Some?;
    RunPreservesInv(ch, s, es);
  }
}
