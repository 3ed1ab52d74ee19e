/**
 * What a run of the orchestrator guarantees: the order and number of stage
 * calls, where the loop stops, which retry counts it writes, and what it
 * returns. The loop lemmas hold for any retry bound; the `Pipeline` lemmas
 * are the orchestrator's, with MaxRetries.
 *
 * A lemma that needs the validator to leave a field alone says so with a
 * `Preserves` requires: the validator is otherwise unconstrained.
 */
module PipelineProperties {
  import opened ContentStates
  import opened Nodes
  import opened ContentPipeline

  /** Stage calls of the loop: no search or synthesis, one to max validations, one redraft fewer. */
  lemma {:induction false} LoopCalls(c: Collaborators, maxRetries: nat, attempt: nat, s: ContentState)
    requires attempt <= maxRetries
    decreases maxRetries - attempt
    ensures var r := ValidationLoop(c, maxRetries, attempt, s);
      && CallsTo(r.trace, SearchStage) == 0
      && CallsTo(r.trace, SynthesizeStage) == 0
      && 1 <= CallsTo(r.trace, ValidatorStage) <= maxRetries + 1 - attempt
      && CallsTo(r.trace, WriterStage) == CallsTo(r.trace, ValidatorStage) - 1
      && (r.verdict.Passed? ==>
            attempt <= r.verdict.attempt <= maxRetries
            && CallsTo(r.trace, ValidatorStage) == r.verdict.attempt - attempt + 1)
      && (r.verdict.Exhausted? ==> CallsTo(r.trace, ValidatorStage) == maxRetries + 1 - attempt)
      && (r.verdict == Passed(attempt) ==> r.trace == [Validated(true)])
  {
    var judged := c.validate(s);
    if !judged.validationPassed && attempt < maxRetries {
      var redrafted := WriterNode(c.write, judged.(retryCount := attempt + 1));
      LoopCalls(c, maxRetries, attempt + 1, redrafted);
    }
  }

  /**
   * The loop stops at the first passing validation: a passing validation is
   * the loop's last step, and the loop ends with one exactly when it passed.
   * Otherwise its last step accepts the draft.
   */
  lemma {:induction false} LoopStopsAtFirstPass(c: Collaborators, maxRetries: nat, attempt: nat, s: ContentState)
    requires attempt <= maxRetries
    decreases maxRetries - attempt
    ensures var t := ValidationLoop(c, maxRetries, attempt, s).trace;
      && t != []
      && (forall i :: 0 <= i < |t| && t[i] == Validated(true) ==> i == |t| - 1)
      && (ValidationLoop(c, maxRetries, attempt, s).verdict.Passed? <==> t[|t| - 1] == Validated(true))
      && (ValidationLoop(c, maxRetries, attempt, s).verdict.Exhausted? <==> t[|t| - 1] == DraftAccepted)
  {
    var judged := c.validate(s);
    if !judged.validationPassed && attempt < maxRetries {
      var redrafted := WriterNode(c.write, judged.(retryCount := attempt + 1));
      LoopStopsAtFirstPass(c, maxRetries, attempt + 1, redrafted);
      var done := [Validated(false), RetryCountSet(attempt + 1), Drafted(redrafted.draftContent)];
      var rest := ValidationLoop(c, maxRetries, attempt + 1, redrafted).trace;
      assert ValidationLoop(c, maxRetries, attempt, s).trace == done + rest;
      forall i | 0 <= i < |done + rest| && (done + rest)[i] == Validated(true)
        ensures i == |done + rest| - 1
      {
        assert rest[i - 3] == (done + rest)[i];
      }
    }
  }

  /**
   * The orchestrator's own writes inside the loop: it sets the retry count
   * only to a value above `attempt` and at most the bound, right after a
   * failed validation and right before a redraft; and every redraft follows
   * such a write. It accepts the draft only on exhaustion.
   */
  lemma {:induction false} LoopBookkeeping(c: Collaborators, maxRetries: nat, attempt: nat, s: ContentState)
    requires attempt <= maxRetries
    decreases maxRetries - attempt
    ensures var r := ValidationLoop(c, maxRetries, attempt, s);
      && (forall i :: 0 <= i < |r.trace| && r.trace[i].RetryCountSet? ==>
            && attempt < r.trace[i].count <= maxRetries
            && 1 <= i < |r.trace| - 1
            && r.trace[i - 1] == Validated(false)
            && r.trace[i + 1].Drafted?)
      && (forall i :: 0 <= i < |r.trace| && r.trace[i].Drafted? ==> 1 <= i && r.trace[i - 1].RetryCountSet?)
      && (DraftAccepted in r.trace <==> r.verdict.Exhausted?)
  {
    var judged := c.validate(s);
    if !judged.validationPassed && attempt < maxRetries {
      var redrafted := WriterNode(c.write, judged.(retryCount := attempt + 1));
      LoopBookkeeping(c, maxRetries, attempt + 1, redrafted);
      var done := [Validated(false), RetryCountSet(attempt + 1), Drafted(redrafted.draftContent)];
      var rest := ValidationLoop(c, maxRetries, attempt + 1, redrafted).trace;
      assert ValidationLoop(c, maxRetries, attempt, s).trace == done + rest;
      forall i | 3 <= i < |done + rest|
        ensures (done + rest)[i] == rest[i - 3]
      {
      }
    }
  }

  /** When the loop runs out of attempts, the final content is the draft as it stood at the last attempt. */
  lemma {:induction false} LoopExhaustedAcceptsDraft(c: Collaborators, maxRetries: nat, attempt: nat, s: ContentState)
    requires attempt <= maxRetries
    decreases maxRetries - attempt
    ensures var r := ValidationLoop(c, maxRetries, attempt, s);
      r.verdict.Exhausted? ==> r.state.finalContent == r.state.draftContent
    ensures var r := ValidationLoop(c, maxRetries, attempt, s);
      r.verdict.Exhausted? && Preserves(c.validate, DraftContent) ==>
        r.state.finalContent == LatestDraft(r.trace, s.draftContent)
  {
    var judged := c.validate(s);
    if !judged.validationPassed && attempt < maxRetries {
      var redrafted := WriterNode(c.write, judged.(retryCount := attempt + 1));
      LoopExhaustedAcceptsDraft(c, maxRetries, attempt + 1, redrafted);
      var done := [Validated(false), RetryCountSet(attempt + 1), Drafted(redrafted.draftContent)];
      ThreeSteps(Validated(false), RetryCountSet(attempt + 1), Drafted(redrafted.draftContent), s.draftContent);
      LatestDraftAppend(done, ValidationLoop(c, maxRetries, attempt + 1, redrafted).trace, s.draftContent);
    } else if !judged.validationPassed && Preserves(c.validate, DraftContent) {
      assert Agree(s, judged, DraftContent);
      assert LatestDraft([Validated(false), DraftAccepted], s.draftContent)
          == LatestDraft([DraftAccepted], s.draftContent)
          == s.draftContent;
    }
  }

  /** On a pass the loop leaves the final content as it found it, if the validator does. */
  lemma {:induction false} LoopPassKeepsFinalContent(c: Collaborators, maxRetries: nat, attempt: nat, s: ContentState)
    requires attempt <= maxRetries
    decreases maxRetries - attempt
    requires Preserves(c.validate, FinalContent)
    ensures var r := ValidationLoop(c, maxRetries, attempt, s);
      r.verdict.Passed? ==> r.state.finalContent == s.finalContent
  {
    var judged := c.validate(s);
    assert Agree(s, judged, FinalContent);
    if !judged.validationPassed && attempt < maxRetries {
      var redrafted := WriterNode(c.write, judged.(retryCount := attempt + 1));
      assert Agree(judged.(retryCount := attempt + 1), redrafted, FinalContent);
      LoopPassKeepsFinalContent(c, maxRetries, attempt + 1, redrafted);
    }
  }

  /**
   * Entered with the retry count equal to the attempt number, the loop ends
   * with it equal to the passing attempt, or to the bound on exhaustion,
   * if the validator leaves the count alone.
   */
  lemma {:induction false} LoopRetryCount(c: Collaborators, maxRetries: nat, attempt: nat, s: ContentState)
    requires attempt <= maxRetries
    decreases maxRetries - attempt
    requires s.retryCount == attempt
    requires Preserves(c.validate, RetryCount)
    ensures var r := ValidationLoop(c, maxRetries, attempt, s);
      r.state.retryCount == (if r.verdict.Passed? then r.verdict.attempt else maxRetries)
  {
    var judged := c.validate(s);
    assert Agree(s, judged, RetryCount);
    if !judged.validationPassed && attempt < maxRetries {
      var redrafted := WriterNode(c.write, judged.(retryCount := attempt + 1));
      assert Agree(judged.(retryCount := attempt + 1), redrafted, RetryCount);
      LoopRetryCount(c, maxRetries, attempt + 1, redrafted);
    }
  }

  /**
   * The loop itself writes only the retry count and the final content, and
   * the writer only the draft: any other field the validator leaves alone
   * comes out of the loop as it went in.
   */
  lemma {:induction false} LoopFrame(c: Collaborators, maxRetries: nat, attempt: nat, s: ContentState, f: Field)
    requires attempt <= maxRetries
    decreases maxRetries - attempt
    requires f != RetryCount && f != FinalContent && f != DraftContent
    requires Preserves(c.validate, f)
    ensures Agree(s, ValidationLoop(c, maxRetries, attempt, s).state, f)
  {
    var judged := c.validate(s);
    assert Agree(s, judged, f);
    if !judged.validationPassed && attempt < maxRetries {
      var redrafted := WriterNode(c.write, judged.(retryCount := attempt + 1));
      assert Agree(judged.(retryCount := attempt + 1), redrafted, f);
      LoopFrame(c, maxRetries, attempt + 1, redrafted, f);
    }
  }

  /** Search, synthesize and writer run first, in that order; search and synthesize run once only. */
  lemma LinearPhaseFirst(c: Collaborators, topic: string, brandVoice: string)
    ensures var t := Pipeline(c, topic, brandVoice).trace;
      && |t| > 3
      && t[0] == Searched && t[1] == Synthesized && t[2].Drafted?
      && CallsTo(t, SearchStage) == 1
      && CallsTo(t, SynthesizeStage) == 1
      && (forall i :: 0 <= i < |t| && t[i].Validated? ==> 3 <= i)
  {
    var drafted := LinearPipeline(c, InitialState(topic, brandVoice));
    var loop := ValidationLoop(c, MaxRetries, 0, drafted);
    LoopCalls(c, MaxRetries, 0, drafted);
    LoopStopsAtFirstPass(c, MaxRetries, 0, drafted);
    var done := [Searched, Synthesized, Drafted(drafted.draftContent)];
    assert Pipeline(c, topic, brandVoice).trace == done + loop.trace;
    ThreeSteps(Searched, Synthesized, Drafted(drafted.draftContent), "");
    CallsToAppend(done, loop.trace, SearchStage);
    CallsToAppend(done, loop.trace, SynthesizeStage);
  }

  /**
   * The validator runs at least once and at most MaxRetries + 1 times; the
   * writer, counting the linear phase, exactly as often as the validator.
   * A pass at attempt k means k + 1 validations.
   */
  lemma CallBounds(c: Collaborators, topic: string, brandVoice: string)
    ensures var r := Pipeline(c, topic, brandVoice);
      && 1 <= CallsTo(r.trace, ValidatorStage) <= MaxRetries + 1
      && CallsTo(r.trace, WriterStage) == CallsTo(r.trace, ValidatorStage)
      && (r.verdict.Passed? ==> CallsTo(r.trace, ValidatorStage) == r.verdict.attempt + 1)
      && (r.verdict.Exhausted? ==> CallsTo(r.trace, ValidatorStage) == MaxRetries + 1)
  {
    var drafted := LinearPipeline(c, InitialState(topic, brandVoice));
    var loop := ValidationLoop(c, MaxRetries, 0, drafted);
    LoopCalls(c, MaxRetries, 0, drafted);
    var done := [Searched, Synthesized, Drafted(drafted.draftContent)];
    assert Pipeline(c, topic, brandVoice).trace == done + loop.trace;
    ThreeSteps(Searched, Synthesized, Drafted(drafted.draftContent), "");
    CallsToAppend(done, loop.trace, WriterStage);
    CallsToAppend(done, loop.trace, ValidatorStage);
  }

  /**
   * The run stops at the first passing validation: no step follows a pass,
   * and the run ends with a pass exactly when its verdict is Passed.
   */
  lemma StopsAtFirstPass(c: Collaborators, topic: string, brandVoice: string)
    ensures var r := Pipeline(c, topic, brandVoice);
      && (forall i :: 0 <= i < |r.trace| && r.trace[i] == Validated(true) ==> i == |r.trace| - 1)
      && (r.verdict.Passed? <==> r.trace[|r.trace| - 1] == Validated(true))
  {
    var drafted := LinearPipeline(c, InitialState(topic, brandVoice));
    var loop := ValidationLoop(c, MaxRetries, 0, drafted);
    LoopStopsAtFirstPass(c, MaxRetries, 0, drafted);
    var done := [Searched, Synthesized, Drafted(drafted.draftContent)];
    assert Pipeline(c, topic, brandVoice).trace == done + loop.trace;
    forall i | 0 <= i < |done + loop.trace| && (done + loop.trace)[i] == Validated(true)
      ensures i == |done + loop.trace| - 1
    {
      assert loop.trace[i - 3] == (done + loop.trace)[i];
    }
  }

  /**
   * Every retry count the orchestrator writes lies in 1 .. MaxRetries and
   * follows a failed validation; every redraft follows such a write. A pass
   * on the first attempt means no retry count was written and the writer
   * ran once.
   */
  lemma RetryCountWrites(c: Collaborators, topic: string, brandVoice: string)
    ensures var r := Pipeline(c, topic, brandVoice);
      && (forall i :: 0 <= i < |r.trace| && r.trace[i].RetryCountSet? ==>
            1 <= r.trace[i].count <= MaxRetries && r.trace[i - 1] == Validated(false))
      && (forall i :: 3 <= i < |r.trace| && r.trace[i].Drafted? ==> r.trace[i - 1].RetryCountSet?)
      && (r.verdict == Passed(0) ==>
            (forall i :: 0 <= i < |r.trace| ==> !r.trace[i].RetryCountSet?)
            && CallsTo(r.trace, WriterStage) == 1)
  {
    var drafted := LinearPipeline(c, InitialState(topic, brandVoice));
    var loop := ValidationLoop(c, MaxRetries, 0, drafted);
    LoopBookkeeping(c, MaxRetries, 0, drafted);
    CallBounds(c, topic, brandVoice);
    var done := [Searched, Synthesized, Drafted(drafted.draftContent)];
    assert Pipeline(c, topic, brandVoice).trace == done + loop.trace;
    forall i | 3 <= i < |done + loop.trace|
      ensures (done + loop.trace)[i] == loop.trace[i - 3]
    {
    }
    LoopCalls(c, MaxRetries, 0, drafted);
  }

  /**
   * The writer is sent the validator's feedback: the first draft is written
   * with empty feedback, and after a failed first validation the redraft is
   * written from the brand voice, feedback and notes the validator left.
   */
  lemma WriterGetsFeedback(c: Collaborators, topic: string, brandVoice: string)
    ensures var t := Pipeline(c, topic, brandVoice).trace;
      t[2] == Drafted(c.write(brandVoice, "", c.synthesize(c.search(topic))))
    ensures var t := Pipeline(c, topic, brandVoice).trace;
      var judged := c.validate(LinearPipeline(c, InitialState(topic, brandVoice)));
      !judged.validationPassed ==>
        |t| > 5 && t[5] == Drafted(c.write(judged.brandVoice, judged.validationFeedback, judged.synthesizedContent))
  {
  }

  /**
   * If the validator leaves the retry count alone, the run ends with it
   * equal to the passing attempt, or to MaxRetries on exhaustion: never
   * above MaxRetries, and still 0 after a first-attempt pass.
   */
  lemma FinalRetryCount(c: Collaborators, topic: string, brandVoice: string)
    requires Preserves(c.validate, RetryCount)
    ensures var r := Pipeline(c, topic, brandVoice);
      && 0 <= r.state.retryCount <= MaxRetries
      && r.state.retryCount == (if r.verdict.Passed? then r.verdict.attempt else MaxRetries)
  {
    var drafted := LinearPipeline(c, InitialState(topic, brandVoice));
    assert Agree(InitialState(topic, brandVoice), drafted, RetryCount);
    LoopRetryCount(c, MaxRetries, 0, drafted);
    LoopCalls(c, MaxRetries, 0, drafted);
  }

  /**
   * When every validation fails, the orchestrator returns the draft as it
   * stood at the final attempt, and accepting it is the run's last step; if
   * the validator leaves drafts alone, that is the last writer output.
   */
  lemma ExhaustedReturnsLatestDraft(c: Collaborators, topic: string, brandVoice: string)
    ensures var r := Pipeline(c, topic, brandVoice);
      r.verdict.Exhausted? ==>
        r.state.finalContent == r.state.draftContent && r.trace[|r.trace| - 1] == DraftAccepted
    ensures var r := Pipeline(c, topic, brandVoice);
      r.verdict.Exhausted? && Preserves(c.validate, DraftContent) ==>
        r.state.finalContent == LatestDraft(r.trace, "")
  {
    var drafted := LinearPipeline(c, InitialState(topic, brandVoice));
    var loop := ValidationLoop(c, MaxRetries, 0, drafted);
    LoopExhaustedAcceptsDraft(c, MaxRetries, 0, drafted);
    LoopStopsAtFirstPass(c, MaxRetries, 0, drafted);
    var done := [Searched, Synthesized, Drafted(drafted.draftContent)];
    assert Pipeline(c, topic, brandVoice).trace == done + loop.trace;
    ThreeSteps(Searched, Synthesized, Drafted(drafted.draftContent), "");
    LatestDraftAppend(done, loop.trace, "");
  }

  /**
   * On a pass the orchestrator never writes the final content: no
   * draft-accepting step occurs, and if the validator leaves the field
   * alone the run returns the empty string it started with, not the draft.
   */
  lemma PassReturnsUnsetFinalContent(c: Collaborators, topic: string, brandVoice: string)
    ensures var r := Pipeline(c, topic, brandVoice);
      r.verdict.Passed? ==> DraftAccepted !in r.trace
    ensures var r := Pipeline(c, topic, brandVoice);
      r.verdict.Passed? && Preserves(c.validate, FinalContent) ==> r.state.finalContent == ""
  {
    var drafted := LinearPipeline(c, InitialState(topic, brandVoice));
    var loop := ValidationLoop(c, MaxRetries, 0, drafted);
    LoopBookkeeping(c, MaxRetries, 0, drafted);
    var done := [Searched, Synthesized, Drafted(drafted.draftContent)];
    assert Pipeline(c, topic, brandVoice).trace == done + loop.trace;
    if Preserves(c.validate, FinalContent) {
      assert Agree(InitialState(topic, brandVoice), drafted, FinalContent);
      LoopPassKeepsFinalContent(c, MaxRetries, 0, drafted);
    }
  }

  /**
   * The inputs and the search and synthesis results survive to the end of
   * the run, for each field the validator leaves alone.
   */
  lemma EarlyFieldsSurvive(c: Collaborators, topic: string, brandVoice: string)
    ensures var r := Pipeline(c, topic, brandVoice);
      Preserves(c.validate, Topic) ==> r.state.topic == topic
    ensures var r := Pipeline(c, topic, brandVoice);
      Preserves(c.validate, BrandVoice) ==> r.state.brandVoice == brandVoice
    ensures var r := Pipeline(c, topic, brandVoice);
      Preserves(c.validate, SearchResults) ==> r.state.searchResult == c.search(topic)
    ensures var r := Pipeline(c, topic, brandVoice);
      Preserves(c.validate, SynthesizedContent) ==> r.state.synthesizedContent == c.synthesize(c.search(topic))
  {
    var drafted := LinearPipeline(c, InitialState(topic, brandVoice));
    assert Agree(InitialState(topic, brandVoice), drafted, Topic);
    assert Agree(InitialState(topic, brandVoice), drafted, BrandVoice);
    if Preserves(c.validate, Topic) { LoopFrame(c, MaxRetries, 0, drafted, Topic); }
    if Preserves(c.validate, BrandVoice) { LoopFrame(c, MaxRetries, 0, drafted, BrandVoice); }
    if Preserves(c.validate, SearchResults) { LoopFrame(c, MaxRetries, 0, drafted, SearchResults); }
    if Preserves(c.validate, SynthesizedContent) { LoopFrame(c, MaxRetries, 0, drafted, SynthesizedContent); }
  }

  /** Counting calls distributes over concatenation. */
  lemma {:induction false} CallsToAppend(a: seq<Step>, b: seq<Step>, stage: Stage)
    ensures CallsTo(a + b, stage) == CallsTo(a, stage) + CallsTo(b, stage)
  {
    if a == [] {
      assert a + b == b;
    } else {
      assert (a + b)[0] == a[0];
      assert (a + b)[1..] == a[1..] + b;
      CallsToAppend(a[1..], b, stage);
    }
  }

  /** The latest draft of a + b is b's, starting from a's. */
  lemma {:induction false} LatestDraftAppend(a: seq<Step>, b: seq<Step>, otherwise: string)
    ensures LatestDraft(a + b, otherwise) == LatestDraft(b, LatestDraft(a, otherwise))
  {
    if a == [] {
      assert a + b == b;
    } else {
      assert (a + b)[0] == a[0];
      assert (a + b)[1..] == a[1..] + b;
      LatestDraftAppend(a[1..], b, if a[0].Drafted? then a[0].draft else otherwise);
    }
  }

  /** The calls and the latest draft of a three-step trace. */
  lemma ThreeSteps(x: Step, y: Step, z: Step, otherwise: string)
    ensures forall stage :: (CallsTo([x, y, z], stage) ==
      (if x.Invokes(stage) then 1 else 0) + (if y.Invokes(stage) then 1 else 0) + (if z.Invokes(stage) then 1 else 0))
    ensures z.Drafted? ==> LatestDraft([x, y, z], otherwise) == z.draft
  {
    var t := [x, y, z];
    assert t[1..] == [y, z];
    assert t[1..][1..] == [z];
    assert t[1..][1..][1..] == [];
    forall stage
      ensures CallsTo(t, stage)
        == (if x.Invokes(stage) then 1 else 0) + (if y.Invokes(stage) then 1 else 0) + (if z.Invokes(stage) then 1 else 0)
    {
      assert CallsTo(t[1..][1..], stage) == (if z.Invokes(stage) then 1 else 0);
    }
    if z.Drafted? {
      var afterX := if x.Drafted? then x.draft else otherwise;
      var afterY := if y.Drafted? then y.draft else afterX;
      assert LatestDraft(t, otherwise) == LatestDraft(t[1..], afterX)
          == LatestDraft(t[1..][1..], afterY) == LatestDraft([], z.draft);
    }
  }
}
