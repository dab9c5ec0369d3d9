/**
 * The fallback mechanism (`find_answer`): scan the knowledge base in store order
 * for the first entry whose lowercased question contains the lowercased query,
 * and otherwise ask the language model about the query as the user typed it.
 */
module Resolver {
  import opened Wrappers
  import opened Text
  import opened Llm
  import opened Knowledge

  /** The containment test of the scan: `query.lower() in entry.question.lower()`. */
  predicate Matches(query: string, e: Entry): (b: bool)
    ensures b <==> exists k :: OccursAt(Lower(query), Lower(e.question), k)
  {
    LoweredContainsIff(query, e.question);
    Contains(Lower(e.question), Lower(query))
  }

  /** `ContainsIff` for the lowercased question and query of one containment test. */
  lemma LoweredContainsIff(query: string, question: string)
    ensures Contains(Lower(question), Lower(query)) <==> exists k :: OccursAt(Lower(query), Lower(question), k)
  {
    ContainsIff(Lower(question), Lower(query));
  }

  predicate NoMatch(query: string, kb: seq<Entry>) {
    forall j :: 0 <= j < |kb| ==> !Matches(query, kb[j])
  }

  /** Entry `i` matches and no entry before it does. */
  predicate IsFirstMatch(query: string, kb: seq<Entry>, i: int) {
    0 <= i < |kb| && Matches(query, kb[i]) && forall j :: 0 <= j < i ==> !Matches(query, kb[j])
  }

  /** The knowledge-base half of the rule: the answer of the first matching entry, if any. */
  function Lookup(query: string, kb: seq<Entry>): (r: Option<string>)
    ensures r.None? ==> NoMatch(query, kb)
    ensures r.Some? ==> exists i :: IsFirstMatch(query, kb, i) && r.value == kb[i].answer
  {
    if kb == [] then None
    else if Matches(query, kb[0]) then
      assert IsFirstMatch(query, kb, 0);
      Some(kb[0].answer)
    else
      var rest := Lookup(query, kb[1..]);
      LookupShift(query, kb, rest);
      rest
  }

  /** What the lookup promises of the tail of `kb` it also promises of `kb` when `kb[0]` does not match. */
  lemma LookupShift(query: string, kb: seq<Entry>, rest: Option<string>)
    requires kb != [] && !Matches(query, kb[0])
    requires rest.None? ==> NoMatch(query, kb[1..])
    requires rest.Some? ==> exists i :: IsFirstMatch(query, kb[1..], i) && rest.value == kb[1..][i].answer
    ensures rest.None? ==> NoMatch(query, kb)
    ensures rest.Some? ==> exists i :: IsFirstMatch(query, kb, i) && rest.value == kb[i].answer
  {
    if rest.None? {
      forall j | 0 < j < |kb| ensures !Matches(query, kb[j]) {
        assert kb[j] == kb[1..][j - 1];
      }
    } else {
      var i :| IsFirstMatch(query, kb[1..], i) && rest.value == kb[1..][i].answer;
      forall j | 0 < j < i + 1 ensures !Matches(query, kb[j]) {
        assert kb[j] == kb[1..][j - 1];
      }
      assert IsFirstMatch(query, kb, i + 1);
    }
  }

  /** The whole answer-resolution rule over an already loaded knowledge base. */
  function Resolve(query: string, kb: seq<Entry>, llm: string -> Completion): (r: string)
    ensures NoMatch(query, kb) ==> r == QueryLlm(query, llm)
    ensures !NoMatch(query, kb) ==> exists i :: IsFirstMatch(query, kb, i) && r == kb[i].answer
  {
    match Lookup(query, kb)
    case Some(answer) => answer
    case None => QueryLlm(query, llm)
  }

  /** The lookup yields the answer of the lowest-index matching entry. */
  lemma {:induction false} LookupFirstMatch(query: string, kb: seq<Entry>, i: int)
    requires IsFirstMatch(query, kb, i)
    ensures Lookup(query, kb) == Some(kb[i].answer)
  {
    if i > 0 {
      assert !Matches(query, kb[0]);
      assert IsFirstMatch(query, kb[1..], i - 1);
      LookupFirstMatch(query, kb[1..], i - 1);
    }
  }

  /** The lookup finds nothing exactly when no entry matches. */
  lemma {:induction false} LookupNoMatch(query: string, kb: seq<Entry>)
    ensures Lookup(query, kb) == None <==> NoMatch(query, kb)
  {
    if kb != [] {
      LookupNoMatch(query, kb[1..]);
      if !Matches(query, kb[0]) {
        assert NoMatch(query, kb[1..]) ==> NoMatch(query, kb) by {
          if NoMatch(query, kb[1..]) {
            forall j | 0 < j < |kb| ensures !Matches(query, kb[j]) {
              assert kb[j] == kb[1..][j - 1];
            }
          }
        }
      }
    }
  }

  /**
   * When some entry matches, there is a lowest-index one: the standalone fact that
   * makes "the first matching entry" well defined, proved by induction on `kb`
   * independently of `Lookup`.
   */
  lemma {:induction false} FirstMatchExists(query: string, kb: seq<Entry>)
    requires !NoMatch(query, kb)
    ensures exists i :: IsFirstMatch(query, kb, i)
  {
    if Matches(query, kb[0]) {
      assert IsFirstMatch(query, kb, 0);
    } else {
      var j :| 0 <= j < |kb| && Matches(query, kb[j]);
      assert kb[1..][j - 1] == kb[j];
      FirstMatchExists(query, kb[1..]);
      var i :| IsFirstMatch(query, kb[1..], i);
      assert IsFirstMatch(query, kb, i + 1) by {
        forall j' | 0 < j' < i + 1 ensures !Matches(query, kb[j']) {
          assert kb[j'] == kb[1..][j' - 1];
        }
      }
    }
  }

  /**
   * Appending an entry (an accepted upload) changes no answer the knowledge base
   * already gave; a query it did not answer now gets the new entry's answer when
   * that entry matches.
   */
  lemma {:induction false} LookupAppend(query: string, kb: seq<Entry>, e: Entry)
    ensures Lookup(query, kb + [e]) ==
              if Lookup(query, kb).Some? then Lookup(query, kb)
              else if Matches(query, e) then Some(e.answer)
              else None
  {
    if kb == [] {
      assert kb + [e] == [e];
    } else {
      assert (kb + [e])[0] == kb[0];
      assert (kb + [e])[1..] == kb[1..] + [e];
      LookupAppend(query, kb[1..], e);
    }
  }

  /** Queries with the same lowercase form look up the same answer. */
  lemma {:induction false} LookupQueryCase(q1: string, q2: string, kb: seq<Entry>)
    requires Lower(q1) == Lower(q2)
    ensures Lookup(q1, kb) == Lookup(q2, kb)
  {
    if kb != [] {
      LookupQueryCase(q1, q2, kb[1..]);
    }
  }

  /** Replacing a stored question by one with the same lowercase form changes no lookup. */
  lemma {:induction false} LookupQuestionCase(query: string, kb: seq<Entry>, k: int, question: string)
    requires 0 <= k < |kb| && Lower(question) == Lower(kb[k].question)
    ensures Lookup(query, kb[k := Entry(question, kb[k].answer)]) == Lookup(query, kb)
  {
    var kb' := kb[k := Entry(question, kb[k].answer)];
    if k == 0 {
      assert kb'[1..] == kb[1..];
    } else {
      assert kb'[1..] == kb[1..][k - 1 := Entry(question, kb[k].answer)];
      LookupQuestionCase(query, kb[1..], k - 1, question);
    }
  }

  /** A match in the knowledge base wins: the answer is the first matching entry's, never the model's. */
  lemma ResolveFirstMatch(query: string, kb: seq<Entry>, llm: string -> Completion, i: int)
    requires IsFirstMatch(query, kb, i)
    ensures Resolve(query, kb, llm) == kb[i].answer
  {
    LookupFirstMatch(query, kb, i);
  }

  /** Without a match the model answers, and it is asked about the original, not lowercased, query. */
  lemma ResolveFallsThrough(query: string, kb: seq<Entry>, llm: string -> Completion)
    requires NoMatch(query, kb)
    ensures Resolve(query, kb, llm) == QueryLlm(query, llm)
  {
    LookupNoMatch(query, kb);
  }

  /** The empty query is contained in every question, so the first entry always answers it. */
  lemma ResolveEmptyQuery(kb: seq<Entry>, llm: string -> Completion)
    requires |kb| > 0
    ensures Resolve("", kb, llm) == kb[0].answer
  {
    EmptyContained(Lower(kb[0].question));
  }

  /** An empty knowledge base, a failed fetch included, always falls through to the model. */
  lemma ResolveEmptyKnowledgeBase(query: string, llm: string -> Completion)
    ensures Resolve(query, LoadKnowledgeBase(StoreUnavailable), llm) == QueryLlm(query, llm)
    ensures Resolve(query, LoadKnowledgeBase(Fetched([])), llm) == QueryLlm(query, llm)
  {
  }

  /**
   * Matching ignores the query's case: two queries with the same lowercase form
   * match the same entries and get the same knowledge-base answer; only the
   * model, when nothing matches, sees each query as typed.
   */
  lemma ResolveQueryCaseInsensitive(q1: string, q2: string, kb: seq<Entry>, llm: string -> Completion)
    requires Lower(q1) == Lower(q2)
    ensures NoMatch(q1, kb) <==> NoMatch(q2, kb)
    ensures !NoMatch(q1, kb) ==> Resolve(q1, kb, llm) == Resolve(q2, kb, llm)
    ensures NoMatch(q1, kb) ==> Resolve(q2, kb, llm) == QueryLlm(q2, llm)
  {
    LookupQueryCase(q1, q2, kb);
    LookupNoMatch(q2, kb);
  }

  /** Matching ignores the stored question's case. */
  lemma ResolveQuestionCaseInsensitive(query: string, kb: seq<Entry>, llm: string -> Completion, k: int, question: string)
    requires 0 <= k < |kb| && Lower(question) == Lower(kb[k].question)
    ensures Resolve(query, kb[k := Entry(question, kb[k].answer)], llm) == Resolve(query, kb, llm)
  {
    LookupQuestionCase(query, kb, k, question);
  }

  /**
   * `find_answer`: load the knowledge base, scan it in order and return on the
   * first match; after the scan, delegate to the model.
   */
  method FindAnswer(userQuery: string, fetch: Fetch, llm: string -> Completion) returns (answer: string)
    ensures answer == Resolve(userQuery, LoadKnowledgeBase(fetch), llm)
  {
    var knowledgeBase := LoadKnowledgeBase(fetch);
    for i := 0 to |knowledgeBase|
      invariant forall j :: 0 <= j < i ==> !Matches(userQuery, knowledgeBase[j])
    {
      var entry := knowledgeBase[i];
      if Contains(Lower(entry.question), Lower(userQuery)) {
        LookupFirstMatch(userQuery, knowledgeBase, i);
        return entry.answer;
      }
    }
    LookupNoMatch(userQuery, knowledgeBase);
    answer := QueryLlm(userQuery, llm);
  }
}
