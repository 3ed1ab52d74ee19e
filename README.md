# Content pipeline orchestrator, modelled in Dafny

The repository is a small content engine. It searches the web for a topic,
has a language model condense the hits into bullet points, drafts marketing
copy in a brand voice, and then validates the draft. After a failed
validation it sends the writer back once. `run_pipeline` is the orchestrator
that does all this. Its control flow is the core modelled here:

- a fresh `ContentState`;
- the linear phase search → synthesize → writer;
- a `for attempt in range(MAX_RETRIES + 1)` loop of validation and redrafting, with `MAX_RETRIES = 1`.

Files:

- `state.dfy` (module `ContentStates`): `SearchResult` and `ContentState` as datatypes. It also names the fields (`Field`), so that what a step writes can be stated (`WritesOnly`).
- `nodes.dfy` (module `Nodes`): the four stages. The search API and the language-model chains are function parameters, grouped in `Collaborators`. Each oracle receives only the fields its stage reads. Each node writes back only the field its stage writes, so the stage frames hold by construction. The validator's module is not part of this model. It is an unconstrained `ContentState -> ContentState`. Where a property needs it to leave a field alone, the lemma says so through the named assumption `Preserves(validate, f)`.
- `pipeline.dfy` (module `ContentPipeline`): `MaxRetries`, `InitialState`, `LinearPipeline`, and the specification functions `ValidationLoop` and `Pipeline`. These give the run as a final state, the ordered trace of steps (stage calls with their results, and the orchestrator's own writes) and a verdict (`Passed(attempt)` or `Exhausted`). The file also holds `RunPipeline`, the orchestrator as a method with the source's loop and `break`, proved to make exactly that run.
- `pipeline_properties.dfy` (module `PipelineProperties`): the lemmas. The loop lemmas hold for any retry bound; the `Pipeline` lemmas use `MaxRetries`.
- `scenarios.dfy` (module `PipelineScenarios`): two concrete runs, one for each way the loop ends.

Two places in the code deserve a note. The model follows the code as written in both:

- A caller would expect the validated draft: the exhaustion branch copies the draft into `final_content` (pipeline.py:85). On a pass, though, the loop breaks without assigning `final_content` (pipeline.py:73-75), and the function returns `state["final_content"]` (pipeline.py:87). The result is then whatever the validator left in `final_content`, which starts as `""`. `PassReturnsUnsetFinalContent` and `PassOnSecondAttemptReturnsEmpty` show this. So a caller cannot rely on getting non-empty content: that depends on the validator, which is not part of this model.
- `run_pipeline` is annotated `-> ContentState` but returns the string `state["final_content"]`. The model returns the string.

## Model

| member | source | states |
|---|---|---|
| `ContentPipeline.InitialState` | langchain_project_learning/pipeline.py:54-64 | the starting state holds the caller's topic and brand voice; every other field is zeroed: empty list, empty strings, `false`, `0` |
| `Nodes.SearchNode` | langchain_project_learning/nodes/search_node.py:16-20 | the search stage stores the search API's hits for the state's topic and changes no other field |
| `Nodes.SynthesizeNode` | langchain_project_learning/nodes/synthesize_nodes.py:28-32 | the synthesize stage stores the model's text for the stored hits and changes no other field |
| `Nodes.WriterNode` | langchain_project_learning/nodes/writer_node.py:28-32 | the writer stage overwrites the draft with the model's text for (brand voice, feedback, synthesized notes) and changes no other field |
| `Nodes.WriterReadsOnly` | langchain_project_learning/nodes/writer_node.py:18-22 | two states that agree on brand voice, feedback and synthesized content get the same draft |
| `ContentPipeline.LinearPipeline` | langchain_project_learning/pipeline.py:36 | search, then synthesize on the search output, then write on the synthesized output; only those three fields change |
| `ContentPipeline.ValidationLoop` | langchain_project_learning/pipeline.py:70-85 | each attempt starts by validating; on a pass the loop stops with the validator's state and the orchestrator writes nothing; on a failure below the bound it sets the retry count to attempt + 1 and redrafts from the brand voice, feedback and notes the validator left, then goes on; on a failure at the bound it copies the draft into the final content and stops, exhausted |
| `ContentPipeline.Pipeline` | langchain_project_learning/pipeline.py:44-87 | a run is search, synthesize, then a draft written with empty feedback, followed by a first validation of the state the linear phase produced |
| `ContentPipeline.RunPipeline` | langchain_project_learning/pipeline.py:44-87 | the orchestrator's loop returns the final content of the run `Pipeline` describes, and its ghost trace is that run's steps in order |
| `PipelineProperties.LoopCalls` | langchain_project_learning/pipeline.py:70-82 | the loop never searches or synthesizes; it validates between 1 and (bound − attempt + 1) times and redrafts one time fewer; a pass at attempt k means k − attempt + 1 validations |
| `PipelineProperties.LoopStopsAtFirstPass` | langchain_project_learning/pipeline.py:70-75 | a passing validation is always the loop's last step; the loop ends on a pass exactly when its verdict is `Passed`, and ends by accepting the draft exactly when it is `Exhausted` |
| `PipelineProperties.LoopBookkeeping` | langchain_project_learning/pipeline.py:76-85 | every retry count the loop writes is above the current attempt and at most the bound, sits between a failed validation and a redraft, and every redraft follows one; the draft is accepted iff the loop is exhausted |
| `PipelineProperties.LoopExhaustedAcceptsDraft` | langchain_project_learning/pipeline.py:83-85 | on exhaustion the final content equals the draft held at the last attempt; if the validator leaves drafts alone, that is the latest writer output |
| `PipelineProperties.LoopPassKeepsFinalContent` | langchain_project_learning/pipeline.py:73-75 | on a pass the loop leaves the final content as it found it, given a validator that leaves it alone |
| `PipelineProperties.LoopRetryCount` | langchain_project_learning/pipeline.py:78-80 | entered with retry count = attempt, the loop ends with it equal to the passing attempt, or to the bound on exhaustion, given a validator that leaves it alone |
| `PipelineProperties.LoopFrame` | langchain_project_learning/pipeline.py:70-85 | the loop writes only retry count and final content (the writer only the draft): any other field the validator leaves alone is unchanged by the loop |
| `PipelineProperties.LinearPhaseFirst` | langchain_project_learning/pipeline.py:66-71 | the run starts search, synthesize, writer; search and synthesize are called exactly once; no validation comes before the fourth step |
| `PipelineProperties.CallBounds` | langchain_project_learning/pipeline.py:67-82 | the validator runs 1 to `MaxRetries + 1` times; the writer, counting the linear phase, exactly as often; a pass at attempt k means k + 1 validations; exhaustion means `MaxRetries + 1` |
| `PipelineProperties.StopsAtFirstPass` | langchain_project_learning/pipeline.py:70-75 | no step follows a passing validation; the run ends with a pass iff its verdict is `Passed` |
| `PipelineProperties.RetryCountWrites` | langchain_project_learning/pipeline.py:76-82 | every retry count written lies in 1..`MaxRetries` and follows a failed validation; every redraft follows such a write; a first-attempt pass writes no retry count and calls the writer once |
| `PipelineProperties.WriterGetsFeedback` | langchain_project_learning/pipeline.py:76-82 | the first draft is written with empty feedback; after a failed first validation, the redraft is written from the brand voice, feedback and synthesized notes the validator left |
| `PipelineProperties.FinalRetryCount` | langchain_project_learning/pipeline.py:62-80 | given a validator that leaves the retry count alone, the run ends with it equal to the passing attempt (0 on a first pass) or `MaxRetries` on exhaustion, so never above `MaxRetries` |
| `PipelineProperties.ExhaustedReturnsLatestDraft` | langchain_project_learning/pipeline.py:83-87 | when every validation fails, the result is the draft at the final attempt and accepting it is the last step; given a validator that leaves drafts alone, the result is the last writer output |
| `PipelineProperties.PassReturnsUnsetFinalContent` | langchain_project_learning/pipeline.py:73-87 | on a pass the orchestrator never writes the final content; given a validator that leaves it alone, the run returns `""` |
| `PipelineProperties.EarlyFieldsSurvive` | langchain_project_learning/pipeline.py:67-85 | topic, brand voice, search results and synthesized content reach the end of the run unchanged from what the linear phase produced, for each field the validator leaves alone |
| `PipelineScenarios.PassOnSecondAttemptReturnsEmpty` | langchain_project_learning/pipeline.py:70-87 | fail then pass: two validations, two drafts, retry count 1, and the result `""` although the second draft is non-empty |
| `PipelineScenarios.ExhaustionReturnsSecondDraft` | langchain_project_learning/pipeline.py:76-87 | fail twice: two validations, two drafts, retry count 1, and the result is the second draft |

## Left out

- Search, synthesize and writer bodies: these are network calls to the Tavily search API and to Groq language models through LangChain prompt, model and parser chains. Each is an oracle parameter that sees only the fields its stage reads.
- Determinism of the stages: each oracle is a total, deterministic function of the fields it reads. The source's writer (`nodes/writer_node.py:15`) calls a language model with no fixed temperature, so identical inputs may get different drafts. `WriterReadsOnly` is therefore a statement about which fields the writer reads, under this abstraction. The validator is likewise a function of the state.
- Prompt texts, model identifiers, temperature, `max_results=2` and `search_depth`: configuration passed to external services. They are folded into the oracles.
- The search query: the two search modules build it differently (`topic + "Language: English"` in `nodes/search_node.py`, `topic` alone in `nodes/search_nodes.py`). The oracle takes the topic and builds its own query.
- The validator's behaviour: its module is not part of this model, so it is an arbitrary function of the state. Any frame it is given is a named assumption (`Preserves`) in the lemma that needs it.
- `nodes/synthesize_node.py`, from which the orchestrator imports `synthesize_data`, is not part of this model. `SynthesizeNode` follows `nodes/synthesize_nodes.py`, which defines a function of that name.
- Exceptions raised by a collaborator: they propagate out of `run_pipeline` and abort the run. The oracles here are total, so the aborted-run path is not modelled.
- In-place mutation of the state dictionary: each stage mutates the dictionary it is given and returns it. The model passes values instead. This cannot be told apart, because the orchestrator always rebinds `state` to the returned dictionary and never reads the old one.
- LangChain's `RunnableLambda` and `|` composition become plain function composition.
- The `print` logging in the loop, `.env` and API-key loading, the `__main__` entry point and the FastAPI stub in `main.py`: I/O and web plumbing with no logic.
- The ghost trace that `RunPipeline` also returns is instrumentation for the proofs. The source returns only the final content string.
