/**
 * The adapter around the remote chat-completion call (`query_llm`). The remote
 * service itself is an oracle: a function from the user's text to what came back.
 */
module Llm {
  import opened Text

  /** What one chat-completion call produced: the text of its first choice, or an exception of any kind. */
  datatype Completion = Completed(content: string) | Failed

  /** The fixed reply that stands in for every failed call. */
  const Apology: string := "I'm sorry, but I couldn't generate an answer at this time."

  /**
   * Ask the model about `userQuery`. The adapter never fails outward: a failed call
   * yields exactly the apology, and a successful one yields the generated text
   * with the whitespace around it stripped and nothing else changed.
   */
  function QueryLlm(userQuery: string, llm: string -> Completion): (r: string)
    ensures llm(userQuery).Failed? ==> r == Apology
    ensures llm(userQuery).Completed? ==>
              IsStripped(r) && exists i :: StrippedAt(llm(userQuery).content, r, i)
  {
    match llm(userQuery)
    case Completed(text) => Strip(text)
    case Failed => Apology
  }
}
