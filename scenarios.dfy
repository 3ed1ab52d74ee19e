/**
 * Two concrete runs with fixed collaborators, one per way the loop can end.
 * The first shows what the orchestrator returns after a pass on the second
 * attempt: the final content the validator left, here the empty string,
 * and not the second draft.
 */
module PipelineScenarios {
  import opened ContentStates
  import opened Nodes
  import opened ContentPipeline
  import opened PipelineProperties

  /** Collaborators whose validator rejects the first draft and approves once a retry was recorded. */
  function PassOnRetry(): Collaborators {
    Collaborators(
      topic => [SearchResult("https://example.org", topic, "notes")],
      hits => "- notes",
      (voice, feedback, notes) => voice + ": " + notes + feedback,
      (s: ContentState) => s.(validationPassed := s.retryCount == 1, validationFeedback := " (shorter)"))
  }

  /** The same collaborators with a validator that never approves. */
  function NeverPass(): Collaborators {
    PassOnRetry().(validate := (s: ContentState) => s.(validationPassed := false, validationFeedback := " (shorter)"))
  }

  /**
   * Fail, then pass: two validations, two drafts, retry count 1, and the
   * run returns "" although the second draft is not empty.
   */
  lemma PassOnSecondAttemptReturnsEmpty()
    ensures var r := Pipeline(PassOnRetry(), "AI", "professional");
      && r.verdict == Passed(1)
      && CallsTo(r.trace, ValidatorStage) == 2
      && CallsTo(r.trace, WriterStage) == 2
      && r.state.retryCount == 1
      && r.state.draftContent == "professional: - notes (shorter)"
      && r.state.finalContent == ""
  {
    var c := PassOnRetry();
    var drafted := LinearPipeline(c, InitialState("AI", "professional"));
    var judged := c.validate(drafted);
    assert !judged.validationPassed;
    var redrafted := WriterNode(c.write, judged.(retryCount := 1));
    assert redrafted.draftContent == "professional: - notes (shorter)";
    var last := ValidationLoop(c, MaxRetries, 1, redrafted);
    assert last.verdict == Passed(1) && last.state == c.validate(redrafted);
    assert Pipeline(c, "AI", "professional").state == last.state;
    CallBounds(c, "AI", "professional");
  }

  /** Fail, then fail again: the run returns the second draft with retry count 1. */
  lemma ExhaustionReturnsSecondDraft()
    ensures var r := Pipeline(NeverPass(), "AI", "professional");
      && r.verdict == Exhausted
      && CallsTo(r.trace, ValidatorStage) == 2
      && CallsTo(r.trace, WriterStage) == 2
      && r.state.retryCount == 1
      && r.state.finalContent == "professional: - notes (shorter)"
  {
    var c := NeverPass();
    var drafted := LinearPipeline(c, InitialState("AI", "professional"));
    var judged := c.validate(drafted);
    var redrafted := WriterNode(c.write, judged.(retryCount := 1));
    assert redrafted.draftContent == "professional: - notes (shorter)";
    var last := ValidationLoop(c, MaxRetries, 1, redrafted);
    assert last.verdict == Exhausted && last.state.finalContent == redrafted.draftContent;
    assert Pipeline(c, "AI", "professional").state == last.state;
    assert Preserves(c.validate, RetryCount);
    CallBounds(c, "AI", "professional");
    FinalRetryCount(c, "AI", "professional");
  }
}
