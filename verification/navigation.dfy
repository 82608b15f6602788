/**
 The questionnaire's navigation state and the handlers that change it. Each
 handler is one atomic transition over the values it closes over; React's
 batching of the individual setters is not modelled.
 */
module Navigation {
  import opened Text
  import opened AnswerStore

  /** A chapter of prompts. Only the number of questions matters here. */
  datatype Chapter = Chapter(title: string, questions: seq<string>)

  predicate ValidChapter(ch: Chapter) {
    |ch.questions| > 0
  }

  /** The six pieces of component state: chapter and question position, the
      two view flags, the committed answers and the textarea's draft. */
  datatype State = State(
    chapter: nat,
    question: nat,
    introComplete: bool,
    noteVisible: bool,
    answers: Store,
    draft: string)

  /** The state a session starts in. */
  function Init(): (s: State)
    ensures s.chapter == 0 && s.question == 0
    ensures !s.introComplete && !s.noteVisible
    ensures s.answers == map[] && s.draft == ""
  {
    State(0, 0, false, false, map[], "")
  }

  function CurrentKey(s: State): Key {
    (s.chapter, s.question)
  }

  /** "Begin Your Journey": raises the intro flag and nothing else. */
  function Begin(s: State): (r: State)
    ensures r.introComplete
    ensures r.(introComplete := s.introComplete) == s
  {
    s.(introComplete := true)
  }

  /** The textarea's change handler: the draft becomes the edited text,
      nothing is committed. */
  function EditDraft(s: State, text: string): (r: State)
    ensures r.draft == text
    ensures r.(draft := s.draft) == s
  {
    s.(draft := text)
  }

  /** "Continue Reflecting": hides the summary note and nothing else, so the
      questions reappear at the position they were left at. */
  function Refine(s: State): (r: State)
    ensures !r.noteVisible
    ensures r.(noteVisible := s.noteVisible) == s
  {
    s.(noteVisible := false)
  }

  /** The "Next Step" / "Identify Patterns" handler. A blank draft is
      rejected with no effect. Otherwise the draft is committed under the
      current position; below the last question the position moves on and the
      draft is reloaded from the freshly updated answers, at the last question
      the summary note is shown instead. The comparison is made on integers,
      as in JavaScript, so an empty chapter simply shows the note. The
      handler's test `draft.trim() === ''` is written as `IsBlank`, which
      `Trim`'s contract shows to be the same condition. */
  function Advance(ch: Chapter, s: State): (r: State)
    // blank rejection
    ensures IsBlank(s.draft) ==> r == s
    // an accepted advance writes exactly one key
    ensures !IsBlank(s.draft) ==>
      && r.answers.Keys == s.answers.Keys + {CurrentKey(s)}
      && r.answers[CurrentKey(s)] == s.draft
      && (forall k :: k in s.answers && k != CurrentKey(s) ==> r.answers[k] == s.answers[k])
    // moving on: the new draft is whatever was stored for the next question
    ensures !IsBlank(s.draft) && s.question + 1 < |ch.questions| ==>
      && r.question == s.question + 1
      && r.draft == Lookup(s.answers, (s.chapter, s.question + 1))
      && r.noteVisible == s.noteVisible
    // at the last question: the note, with position and draft kept
    ensures !IsBlank(s.draft) && s.question + 1 >= |ch.questions| ==>
      && r.noteVisible
      && r.question == s.question
      && r.draft == s.draft
    ensures r.chapter == s.chapter && r.introComplete == s.introComplete
  {
    if IsBlank(s.draft) then s
    else
      var updated := Upsert(s.answers, CurrentKey(s), s.draft);
      if s.question < |ch.questions| - 1 then
        var next := s.question + 1;
        LookupAfterUpsert(s.answers, CurrentKey(s), s.draft, (s.chapter, next));
        s.(answers := updated, question := next, draft := Lookup(updated, (s.chapter, next)))
      else
        s.(answers := updated, noteVisible := true)
  }

  /** The "Back" handler. At the first question it does nothing; otherwise it
      steps back and reloads the draft from the committed answers, so an
      uncommitted edit of the current draft is dropped. */
  function Retreat(s: State): (r: State)
    ensures s.question == 0 ==> r == s
    ensures s.question > 0 ==>
      && r.question == s.question - 1
      && r.draft == Lookup(s.answers, (s.chapter, s.question - 1))
    ensures r.answers == s.answers
    ensures r.chapter == s.chapter
    ensures r.introComplete == s.introComplete && r.noteVisible == s.noteVisible
  {
    if s.question > 0 then
      var prev := s.question - 1;
      s.(question := prev, draft := Lookup(s.answers, (s.chapter, prev)))
    else
      s
  }

  /** The three screens, chosen by the two flags: the intro until it is
      completed, then the summary note while it is visible, else the current
      question. */
  datatype View = IntroView | NoteView | QuestionView

  function ViewOf(s: State): (v: View)
    ensures v == IntroView <==> !s.introComplete
    ensures v == NoteView <==> s.introComplete && s.noteVisible
    ensures v == QuestionView <==> s.introComplete && !s.noteVisible
  {
    if !s.introComplete then IntroView
    else if s.noteVisible then NoteView
    else QuestionView
  }

  /** Advance followed by Retreat, from below the last question with a
      non-blank draft, comes back to the same question with the same draft;
      its only lasting effect is that the draft is now committed there. */
  lemma AdvanceThenRetreat(ch: Chapter, s: State)
    requires s.question + 1 < |ch.questions|
    requires !IsBlank(s.draft)
    ensures Retreat(Advance(ch, s)) == s.(answers := Upsert(s.answers, CurrentKey(s), s.draft))
    ensures Retreat(Advance(ch, s)).answers[CurrentKey(s)] == s.draft
  {
  }

  /** Repeating an accepted advance from the same position with the same
      draft commits nothing new: the store it produces is the one it is
      given. */
  lemma AdvanceRepeatedAtSamePosition(ch: Chapter, s: State)
    ensures var t := Advance(ch, s);
      Advance(ch, s.(answers := t.answers)) == t
  {
    if !IsBlank(s.draft) {
      if s.question + 1 < |ch.questions| {
        RepeatedMovingOn(ch, s);
      } else {
        RepeatedAtLast(ch, s);
      }
    }
  }

  /** The state an accepted advance below the last question produces. */
  lemma MovingOnResult(ch: Chapter, s: State)
    requires !IsBlank(s.draft) && s.question + 1 < |ch.questions|
    ensures Advance(ch, s) == s.(answers := Upsert(s.answers, CurrentKey(s), s.draft),
                                 question := s.question + 1,
                                 draft := Lookup(s.answers, (s.chapter, s.question + 1)))
  {
  }

  lemma RepeatedMovingOn(ch: Chapter, s: State)
    requires !IsBlank(s.draft) && s.question + 1 < |ch.questions|
    ensures var t := Advance(ch, s);
      Advance(ch, s.(answers := t.answers)) == t
  {
    var k, next := CurrentKey(s), (s.chapter, s.question + 1);
    var m := Upsert(s.answers, k, s.draft);
    var s' := s.(answers := m);
    MovingOnResult(ch, s);
    MovingOnResult(ch, s');
    assert CurrentKey(s') == k && (s'.chapter, s'.question + 1) == next;
    UpsertIdempotent(s.answers, k, s.draft);
    assert Upsert(s'.answers, k, s'.draft) == m;
    LookupAfterUpsert(s.answers, k, s.draft, next);
    assert Lookup(s'.answers, next) == Lookup(s.answers, next);
  }

  lemma RepeatedAtLast(ch: Chapter, s: State)
    requires !IsBlank(s.draft) && s.question + 1 >= |ch.questions|
    ensures var t := Advance(ch, s);
      Advance(ch, s.(answers := t.answers)) == t
  {
    var m := Upsert(s.answers, CurrentKey(s), s.draft);
    assert Advance(ch, s) == s.(answers := m, noteVisible := true);
    UpsertIdempotent(s.answers, CurrentKey(s), s.draft);
  }

  /** At the last question position and draft stay put, so pressing the
      button twice in a row is the same as pressing it once. */
  lemma AdvanceAtLastIdempotent(ch: Chapter, s: State)
    requires s.question + 1 >= |ch.questions|
    ensures Advance(ch, Advance(ch, s)) == Advance(ch, s)
  {
    if !IsBlank(s.draft) {
      var t := Advance(ch, s);
      UpsertIdempotent(s.answers, CurrentKey(s), s.draft);
      assert CurrentKey(t) == CurrentKey(s) && t.draft == s.draft;
    }
  }
}
