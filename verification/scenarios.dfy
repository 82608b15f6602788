/**
 The one populated chapter, "Attraction + Pull", and walks through it. The
 prompts themselves are not reproduced; each entry is a short label for the
 question at that position, since only their number matters to navigation.
 */
module Scenarios {
  import opened Text
  import opened Navigation
  import opened Session

  const AttractionPull: Chapter := Chapter("Attraction + Pull", [
    "a lasting pull", "subjects that attract", "what you do unobserved",
    "part of who you are", "hobbies", "strongest themes",
    "career or side pursuit", "mastery or uplifting others", "an ideal day",
    "longest-lasting pulls", "one pull for a career", "energising and draining pulls"
  ])

  /** Twelve questions, so the last position is 11. */
  lemma AttractionPullShape()
    ensures ValidChapter(AttractionPull)
    ensures |AttractionPull.questions| == 12
  {
  }

  /** Begin, type an answer, go on, come back: the answer is committed under
      (0, 0) and reloaded as the draft of the first question. */
  lemma FirstAnswerRoundTrip()
    ensures var s1 := Step(AttractionPull, Init(), BeginPressed);
      && s1 == Some(State(0, 0, true, false, map[], ""))
      && var s2 := Step(AttractionPull, s1.value, DraftEdited("I love puzzles"));
      && var s3 := Step(AttractionPull, s2.value, NextPressed);
      && s3.Some? && s3.value.question == 1 && ViewOf(s3.value) == QuestionView
      && s3.value.answers == map[(0, 0) := "I love puzzles"]
      && s3.value.draft == ""
      && var s4 := Step(AttractionPull, s3.value, BackPressed);
      && s4 == Some(State(0, 0, true, false, map[(0, 0) := "I love puzzles"], "I love puzzles"))
  {
    var d := "I love puzzles";
    assert !IsWhitespace(d[0]);
  }

  /** At the twelfth question, typing "Design" and pressing the button shows
      the summary note without moving the position. */
  lemma LastQuestionShowsNote(s: State)
    requires Inv(AttractionPull, s)
    requires ViewOf(s) == QuestionView && s.question == 11
    ensures var t := Run(AttractionPull, s, [DraftEdited("Design"), NextPressed]);
      && t.Some?
      && ViewOf(t.value) == NoteView
      && t.value.question == 11
      && t.value.answers[(0, 11)] == "Design"
  {
    var d := "Design";
    assert !IsWhitespace(d[0]);
    var s2 := EditDraft(s, d);
    assert Step(AttractionPull, s, DraftEdited(d)) == Some(s2);
    assert Step(AttractionPull, s2, NextPressed) == Some(Advance(AttractionPull, s2));
    assert [DraftEdited(d), NextPressed][1..] == [NextPressed];
  }

  /** "Continue Reflecting" from the note returns to the question that was
      showing before it, with the draft as it was. */
  lemma RefineReturnsToSameQuestion(s: State)
    requires ViewOf(s) == NoteView
    ensures var t := Step(AttractionPull, s, ContinuePressed);
      && t.Some?
      && ViewOf(t.value) == QuestionView
      && t.value.question == s.question
      && t.value.draft == s.draft
  {
  }

  /** "Back" at the first question is not offered; the handler itself
      ignores it too. */
  lemma BackAtFirstQuestion(s: State)
    requires s.question == 0
    ensures Step(AttractionPull, s, BackPressed) == None
    ensures Retreat(s) == s
  {
  }

  /** A whitespace-only draft cannot be committed: the button is disabled and
      the handler leaves everything as it was. */
  lemma BlankDraftRejected(s: State)
    requires ViewOf(s) == QuestionView
    requires s.draft == " \n\t "
    ensures Step(AttractionPull, s, NextPressed) == None
    ensures Advance(AttractionPull, s) == s
  {
  }
}
