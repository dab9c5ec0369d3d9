/**
 * The request handlers that change the two collections: `ask` (resolve, then log
 * one interaction) and `admin/upload` (trim, validate, append one entry). The
 * database collections are the two sequence fields of one object.
 */
module Service {
  import opened Wrappers
  import opened Text
  import opened Llm
  import opened Knowledge
  import opened Resolver

  /** A reading of the wall clock, supplied by the caller of `Ask`. */
  type Timestamp = nat

  /** One interaction-log record: the raw query, the answer given and when it was logged. */
  datatype LogEntry = LogEntry(question: string, answer: string, time: Timestamp)

  /** The two replies of `admin/upload`. */
  datatype UploadResponse = Updated | MissingField {

    /** The HTTP status of the reply: 200 for an accepted upload, 400 for a rejected one. */
    function StatusCode(): (code: int)
      ensures code == 200 <==> Updated?
      ensures code == 400 <==> MissingField?
    {
      if Updated? then 200 else 400
    }

    /** The reply's message; the two replies never share one. */
    function Message(): (m: string)
      ensures Updated? <==> m == "Knowledge base updated successfully."
      ensures MissingField? <==> m == "Both 'question' and 'answer' fields are required."
    {
      if Updated? then "Knowledge base updated successfully."
      else "Both 'question' and 'answer' fields are required."
    }
  }

  /** The knowledge-base and log collections of the database. */
  class Assistant {
    var knowledgeBase: seq<Entry>
    var logs: seq<LogEntry>

    constructor (documents: seq<Entry>, history: seq<LogEntry>)
      ensures knowledgeBase == documents && logs == history
    {
      knowledgeBase := documents;
      logs := history;
    }

    /** `log_interaction`: append one record and touch nothing else. */
    method LogInteraction(userQuery: string, response: string, now: Timestamp)
      modifies this
      ensures logs == old(logs) + [LogEntry(userQuery, response, now)]
      ensures knowledgeBase == old(knowledgeBase)
    {
      logs := logs + [LogEntry(userQuery, response, now)];
    }

    /**
     * `ask`: the query field defaults to the empty string; the knowledge base is
     * fetched afresh (`storeUp` is false when that fetch fails), the answer is
     * resolved, and exactly one log record of the raw query and that answer is
     * appended. The knowledge base is not changed.
     */
    method Ask(query: Option<string>, storeUp: bool, llm: string -> Completion, now: Timestamp)
      returns (answer: string)
      modifies this
      ensures answer == Resolve(query.GetOr(""), if storeUp then old(knowledgeBase) else [], llm)
      ensures logs == old(logs) + [LogEntry(query.GetOr(""), answer, now)]
      ensures knowledgeBase == old(knowledgeBase)
    {
      var userQuery := query.GetOr("");
      var fetch := if storeUp then Fetched(knowledgeBase) else StoreUnavailable;
      answer := FindAnswer(userQuery, fetch, llm);
      LogInteraction(userQuery, answer, now);
    }

    /**
     * `upload_knowledge`: both fields default to the empty string and are stripped;
     * if either is then empty the upload is rejected with 400 and nothing changes,
     * otherwise exactly the stripped pair is appended after the existing entries.
     */
    method UploadKnowledge(question: Option<string>, answer: Option<string>)
      returns (response: UploadResponse)
      modifies this
      ensures response.MissingField? <==>
                question.None? || answer.None? || AllSpace(question.value) || AllSpace(answer.value)
      ensures response.MissingField? ==> knowledgeBase == old(knowledgeBase)
      ensures response.Updated? ==>
                knowledgeBase == old(knowledgeBase) + [Entry(Strip(question.GetOr("")), Strip(answer.GetOr("")))]
      ensures logs == old(logs)
      ensures AllWellFormed(old(knowledgeBase)) ==> AllWellFormed(knowledgeBase)
    {
      var q := Strip(question.GetOr(""));
      var a := Strip(answer.GetOr(""));
      if q == [] || a == [] {
        response := MissingField;
      } else {
        if AllWellFormed(knowledgeBase) {
          UploadKeepsWellFormed(knowledgeBase, question.value, answer.value);
        }
        knowledgeBase := knowledgeBase + [Entry(q, a)];
        response := Updated;
      }
    }
  }

  /**
   * Every entry an accepted upload writes is well formed, so uploads keep a
   * well-formed store well formed; `UploadKnowledge` uses it for its new state.
   */
  lemma UploadKeepsWellFormed(kb: seq<Entry>, question: string, answer: string)
    requires AllWellFormed(kb)
    requires !AllSpace(question) && !AllSpace(answer)
    ensures AllWellFormed(kb + [Entry(Strip(question), Strip(answer))])
  {
    AppendWellFormed(kb, Entry(Strip(question), Strip(answer)));
  }

  /**
   * A client of the two handlers: after an accepted upload whose question contains
   * the query (ignoring case), to a store where nothing matched the query before,
   * asking that query returns the uploaded answer as stored.
   */
  method UploadThenAsk(documents: seq<Entry>, question: string, answer: string, query: string,
                       llm: string -> Completion, now: Timestamp)
    returns (response: UploadResponse, reply: string)
    requires NoMatch(query, documents)
    requires Strip(question) != [] && Strip(answer) != []
    requires Matches(query, Entry(Strip(question), Strip(answer)))
    ensures response == Updated
    ensures reply == Strip(answer)
  {
    var assistant := new Assistant(documents, []);
    response := assistant.UploadKnowledge(Some(question), Some(answer));
    LookupNoMatch(query, documents);
    LookupAppend(query, documents, Entry(Strip(question), Strip(answer)));
    reply := assistant.Ask(Some(query), true, llm, now);
  }
}
