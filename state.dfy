/** The record that every stage of the content pipeline reads and writes. */
module ContentStates {

  /** One hit returned by the web search. */
  datatype SearchResult = SearchResult(url: string, title: string, content: string)

  /** The pipeline's state: the caller's inputs, then what each stage produced. */
  datatype ContentState = ContentState(
    topic: string,
    brandVoice: string,
    searchResult: seq<SearchResult>,
    synthesizedContent: string,
    draftContent: string,
    validationPassed: bool,       // did the validator approve the draft?
    validationFeedback: string,   // the validator's feedback when it did not
    retryCount: int,
    finalContent: string)

  /** Names for the fields of a ContentState, so that a step's write frame can be stated. */
  datatype Field =
    | Topic
    | BrandVoice
    | SearchResults
    | SynthesizedContent
    | DraftContent
    | ValidationPassed
    | ValidationFeedback
    | RetryCount
    | FinalContent

  /** s and t hold the same value in field f. */
  predicate Agree(s: ContentState, t: ContentState, f: Field) {
    match f
    case Topic => s.topic == t.topic
    case BrandVoice => s.brandVoice == t.brandVoice
    case SearchResults => s.searchResult == t.searchResult
    case SynthesizedContent => s.synthesizedContent == t.synthesizedContent
    case DraftContent => s.draftContent == t.draftContent
    case ValidationPassed => s.validationPassed == t.validationPassed
    case ValidationFeedback => s.validationFeedback == t.validationFeedback
    case RetryCount => s.retryCount == t.retryCount
    case FinalContent => s.finalContent == t.finalContent
  }

  /** Going from s to t changed no field outside `written`. */
  predicate WritesOnly(s: ContentState, t: ContentState, written: set<Field>) {
    forall f :: f !in written ==> Agree(s, t, f)
  }
}
