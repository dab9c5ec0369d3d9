/** The knowledge store: question/answer documents and the fetch that reads them all. */
module Knowledge {
  import opened Text

  /** One stored document. The store itself imposes nothing on its fields. */
  datatype Entry = Entry(question: string, answer: string)

  /** The outcome of fetching every document of the collection. */
  datatype Fetch = Fetched(documents: seq<Entry>) | StoreUnavailable

  /** `load_knowledge_base`: the fetched documents in store order, or none when the fetch failed. */
  function LoadKnowledgeBase(fetch: Fetch): (kb: seq<Entry>)
    ensures fetch.StoreUnavailable? ==> kb == []
    ensures fetch.Fetched? ==> kb == fetch.documents
  {
    match fetch
    case Fetched(documents) => documents
    case StoreUnavailable => []
  }

  /** What an accepted upload guarantees of the entry it writes. */
  predicate WellFormed(e: Entry) {
    e.question != [] && e.answer != [] && IsStripped(e.question) && IsStripped(e.answer)
  }

  predicate AllWellFormed(kb: seq<Entry>) {
    forall j :: 0 <= j < |kb| ==> WellFormed(kb[j])
  }

  /** Appending a well-formed entry keeps every entry well formed. */
  lemma AppendWellFormed(kb: seq<Entry>, e: Entry)
    requires AllWellFormed(kb) && WellFormed(e)
    ensures AllWellFormed(kb + [e])
  {
  }
}
