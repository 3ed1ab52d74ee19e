/**
 * The orchestrator: a fresh state, the linear phase search, synthesize,
 * writer, then a bounded loop of validation and redrafting.
 *
 * `ValidationLoop` and `Pipeline` say, as functions, which run the
 * orchestrator makes; `RunPipeline` is the orchestrator itself, a loop
 * proved to make that run.
 */
module ContentPipeline {
  import opened ContentStates
  import opened Nodes

  /** How many times the writer may be sent back after a failed validation. */
  const MaxRetries: nat := 1

  /** The state a run starts from: the caller's topic and brand voice, every other field zeroed. */
  function InitialState(topic: string, brandVoice: string): (s: ContentState)
    ensures s.topic == topic && s.brandVoice == brandVoice
    ensures s.searchResult == [] && s.synthesizedContent == "" && s.draftContent == ""
    ensures !s.validationPassed && s.validationFeedback == ""
    ensures s.retryCount == 0 && s.finalContent == ""
  {
    ContentState(topic, brandVoice, [], "", "", false, "", 0, "")
  }

  /** Search, then synthesize, then write, each on the previous stage's output. */
  function LinearPipeline(c: Collaborators, s: ContentState): (r: ContentState)
    ensures r.searchResult == c.search(s.topic)
    ensures r.synthesizedContent == c.synthesize(c.search(s.topic))
    ensures r.draftContent == c.write(s.brandVoice, s.validationFeedback, c.synthesize(c.search(s.topic)))
    ensures WritesOnly(s, r, {SearchResults, SynthesizedContent, DraftContent})
  {
    WriterNode(c.write, SynthesizeNode(c.synthesize, SearchNode(c.search, s)))
  }

  datatype Stage = SearchStage | SynthesizeStage | WriterStage | ValidatorStage

  /** One thing a run does: a stage call (with what it returned) or a write of the orchestrator's own. */
  datatype Step =
    | Searched
    | Synthesized
    | Drafted(draft: string)
    | Validated(passed: bool)
    | RetryCountSet(count: int)
    | DraftAccepted
  {
    /** This step is a call of the given stage. */
    predicate Invokes(stage: Stage) {
      match this
      case Searched => stage == SearchStage
      case Synthesized => stage == SynthesizeStage
      case Drafted(_) => stage == WriterStage
      case Validated(_) => stage == ValidatorStage
      case RetryCountSet(_) => false
      case DraftAccepted => false
    }
  }

  /** How the loop ended: a validation passed at `attempt`, or every attempt failed. */
  datatype Verdict = Passed(attempt: nat) | Exhausted

  /** A run: the last state, every step in order, and how the loop ended. */
  datatype Run = Run(state: ContentState, trace: seq<Step>, verdict: Verdict)

  /** The run r with the steps `done` taken before it. */
  function Resume(done: seq<Step>, r: Run): Run {
    Run(r.state, done + r.trace, r.verdict)
  }

  /** The number of calls of `stage` in `trace`. */
  function CallsTo(trace: seq<Step>, stage: Stage): nat {
    if trace == [] then 0
    else (if trace[0].Invokes(stage) then 1 else 0) + CallsTo(trace[1..], stage)
  }

  /** The draft of the last writer call in `trace`, or `otherwise` when the writer was not called. */
  function LatestDraft(trace: seq<Step>, otherwise: string): string {
    if trace == [] then otherwise
    else LatestDraft(trace[1..], if trace[0].Drafted? then trace[0].draft else otherwise)
  }

  /**
   * The validation loop from attempt `attempt` on, entered with state s:
   * validate; stop on a pass; otherwise, while attempts remain, set the
   * retry count and redraft, else accept the latest draft as final.
   */
  function ValidationLoop(c: Collaborators, maxRetries: nat, attempt: nat, s: ContentState): (r: Run)
    requires attempt <= maxRetries
    decreases maxRetries - attempt
    // every attempt starts with a validation
    ensures |r.trace| > 0 && r.trace[0] == Validated(c.validate(s).validationPassed)
    // on a pass the loop stops and writes nothing: the state is the validator's
    ensures c.validate(s).validationPassed ==> r.state == c.validate(s) && r.verdict == Passed(attempt)
    // on a failure with attempts left: record the retry, redraft from the validator's feedback, go on
    ensures !c.validate(s).validationPassed && attempt < maxRetries ==>
      && |r.trace| > 3
      && r.trace[1] == RetryCountSet(attempt + 1)
      && r.trace[2] == Drafted(c.write(c.validate(s).brandVoice, c.validate(s).validationFeedback,
                                       c.validate(s).synthesizedContent))
    // on a failure at the last attempt: the latest draft becomes the final content
    ensures !c.validate(s).validationPassed && attempt == maxRetries ==>
      && r.state == c.validate(s).(finalContent := c.validate(s).draftContent)
      && r.trace == [Validated(false), DraftAccepted]
      && r.verdict == Exhausted
  {
    var judged := c.validate(s);
    if judged.validationPassed then
      Run(judged, [Validated(true)], Passed(attempt))
    else if attempt < maxRetries then
      var redrafted := WriterNode(c.write, judged.(retryCount := attempt + 1));
      Resume([Validated(false), RetryCountSet(attempt + 1), Drafted(redrafted.draftContent)],
             ValidationLoop(c, maxRetries, attempt + 1, redrafted))
    else
      Run(judged.(finalContent := judged.draftContent), [Validated(false), DraftAccepted], Exhausted)
  }

  /**
   * The whole run for a topic and brand voice: the linear phase, whose
   * writer sees empty feedback, then the loop from attempt 0, whose first
   * validation sees the linear phase's state.
   */
  function Pipeline(c: Collaborators, topic: string, brandVoice: string): (r: Run)
    ensures |r.trace| > 3
    ensures r.trace[..3] == [Searched, Synthesized, Drafted(c.write(brandVoice, "", c.synthesize(c.search(topic))))]
    ensures r.trace[3] == Validated(c.validate(LinearPipeline(c, InitialState(topic, brandVoice))).validationPassed)
  {
    var drafted := LinearPipeline(c, InitialState(topic, brandVoice));
    Resume([Searched, Synthesized, Drafted(drafted.draftContent)],
           ValidationLoop(c, MaxRetries, 0, drafted))
  }

  /**
   * The orchestrator. Returns the state's final content; `trace` records
   * the stage calls and the orchestrator's own writes, in order.
   */
  method RunPipeline(c: Collaborators, topic: string, brandVoice: string := "professional")
    returns (output: string, ghost trace: seq<Step>)
    ensures output == Pipeline(c, topic, brandVoice).state.finalContent
    ensures trace == Pipeline(c, topic, brandVoice).trace
  {
    var state := LinearPipeline(c, InitialState(topic, brandVoice));
    trace := [Searched, Synthesized, Drafted(state.draftContent)];
    ghost var whole := Pipeline(c, topic, brandVoice);
    for attempt := 0 to MaxRetries + 1
      invariant attempt <= MaxRetries ==> whole == Resume(trace, ValidationLoop(c, MaxRetries, attempt, state))
      invariant attempt == MaxRetries + 1 ==> state == whole.state && trace == whole.trace
    {
      state := c.validate(state);
      trace := trace + [Validated(state.validationPassed)];
      if state.validationPassed {
        break;
      } else if attempt < MaxRetries {
        state := state.(retryCount := attempt + 1);
        trace := trace + [RetryCountSet(attempt + 1)];
        state := WriterNode(c.write, state);
        trace := trace + [Drafted(state.draftContent)];
      } else {
        state := state.(finalContent := state.draftContent);
        trace := trace + [DraftAccepted];
      }
    }
    output := state.finalContent;
  }
}
