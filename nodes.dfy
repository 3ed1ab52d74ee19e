/**
 * The four stages the orchestrator calls. Their collaborators (the search
 * API and the language model) are parameters. Each oracle is given only
 * the fields its stage reads, and each node writes back only the field its
 * stage writes, so the stage frames hold by construction.
 */
module Nodes {
  import opened ContentStates

  /** The search API: topic in, ordered hits out. */
  type SearchApi = string -> seq<SearchResult>

  /** The language-model chain that turns the hits into bullet points. */
  type SynthesizeLlm = seq<SearchResult> -> string

  /** The language-model chain that drafts copy from (brand voice, feedback, synthesized notes). */
  type WriterLlm = (string, string, string) -> string

  /** The validator, whose module is not part of this model: it may return any state. */
  type ValidatorOracle = ContentState -> ContentState

  datatype Collaborators = Collaborators(
    search: SearchApi,
    synthesize: SynthesizeLlm,
    write: WriterLlm,
    validate: ValidatorOracle)

  /** The search stage: stores the hits for the state's topic. */
  function SearchNode(search: SearchApi, s: ContentState): (r: ContentState)
    ensures r.searchResult == search(s.topic)
    ensures WritesOnly(s, r, {SearchResults})
  {
    s.(searchResult := search(s.topic))
  }

  /** The synthesize stage: stores the model's summary of the stored hits. */
  function SynthesizeNode(synthesize: SynthesizeLlm, s: ContentState): (r: ContentState)
    ensures r.synthesizedContent == synthesize(s.searchResult)
    ensures WritesOnly(s, r, {SynthesizedContent})
  {
    s.(synthesizedContent := synthesize(s.searchResult))
  }

  /** The writer stage: stores a fresh draft, overwriting any earlier one. */
  function WriterNode(write: WriterLlm, s: ContentState): (r: ContentState)
    ensures r.draftContent == write(s.brandVoice, s.validationFeedback, s.synthesizedContent)
    ensures WritesOnly(s, r, {DraftContent})
  {
    s.(draftContent := write(s.brandVoice, s.validationFeedback, s.synthesizedContent))
  }

  /** The draft depends on nothing but the brand voice, the feedback and the synthesized notes. */
  lemma WriterReadsOnly(write: WriterLlm, s: ContentState, t: ContentState)
    requires s.brandVoice == t.brandVoice
    requires s.validationFeedback == t.validationFeedback
    requires s.synthesizedContent == t.synthesizedContent
    ensures WriterNode(write, s).draftContent == WriterNode(write, t).draftContent
  {
  }

  /** Named assumption: the validator never changes field f. */
  ghost predicate Preserves(validate: ValidatorOracle, f: Field) {
    forall s :: Agree(s, validate(s), f)
  }
}
