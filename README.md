# FAQ assistant: answer resolution and knowledge-base upload

A Dafny model of the answer-resolution core of a small question-answering web service (`main.py`). The service keeps a knowledge base of question/answer documents and an interaction log, both in a document database. A query is answered by the first stored entry whose lowercased question contains the lowercased query as a substring. When no entry matches, the query as typed goes to a language model. Every answered query is logged. An admin endpoint strips and validates a question/answer pair and appends it to the knowledge base.

Modules, one per component of `main.py`:

- `Wrappers` (`wrappers.dfy`): `Option`, with `GetOr` standing for Python's `dict.get(key, default)`.
- `Text` (`text.dfy`): the string built-ins the service uses. `Strip` is `str.strip()` over Python's `str.isspace()` characters. `Lower` models `str.lower()` character by character, for the ASCII and Latin-1 capitals only (see "## Left out"). `Contains` is the substring test `p in s`.
- `Llm` (`llm.dfy`): `query_llm`. The remote chat-completion call is an oracle parameter `llm: string -> Completion`, where `Completion` is either `Completed(content)` or `Failed`.
- `Knowledge` (`knowledge.dfy`): a stored `Entry` and the outcome of one full fetch, `Fetched(documents)` or `StoreUnavailable`. `load_knowledge_base` maps that outcome to a sequence of entries.
- `Resolver` (`resolver.dfy`): the resolution rule as specification functions `Lookup` and `Resolve`, with lemmas about them. `FindAnswer` is the scanning loop of `find_answer`, proved equal to `Resolve`.
- `Service` (`service.dfy`): class `Assistant`. Its `knowledgeBase` and `logs` sequence fields stand for the two database collections. `Ask`, `UploadKnowledge` and `LogInteraction` are the handlers that append to them.

To verify the whole project, run from this directory:

```
dafny verify --resource-limit 2000000 --verification-time-limit 0 --warn-contradictory-assumptions *.dfy
```

Plain `dafny verify *.dfy` also verifies it.

Inputs from outside the program are parameters:

- `llm`: the language model's reply to a given text.
- `storeUp`: whether the knowledge-base fetch succeeds.
- `now`: the clock reading stored in a log record.
- `Option<string>` request fields: absent keys in the JSON body.

## Model

| member | source | states |
|---|---|---|
| `Text.Strip` | main.py:97-98 | the result has no whitespace at either end, sits inside the input with only whitespace around it, and is empty exactly when the input is all whitespace |
| `Text.StripCharacterised` | main.py:97-98 | any infix with non-whitespace ends and only whitespace around it equals the stripped string, so `Strip` is uniquely determined |
| `Text.StripIdempotent` | main.py:97-98 | stripping an already stripped string changes nothing |
| `Text.Lower` | main.py:63 | lowercasing keeps the length and maps every character through the per-character lowering |
| `Text.Contains` | main.py:63 | the substring test can hold only when the needle is no longer than the haystack, and always holds for the empty needle |
| `Text.ContainsIff` | main.py:63 | the substring test holds exactly when the needle occurs at some offset of the haystack |
| `Knowledge.LoadKnowledgeBase` | main.py:24-34 | a failed fetch yields the empty list; a successful one yields the fetched documents, unchanged and in the order the store returned them |
| `Llm.QueryLlm` | main.py:39-53 | a failed call yields exactly the fixed apology; a successful one yields the generated text with its surrounding whitespace stripped |
| `Resolver.Matches` | main.py:63 | an entry matches exactly when the lowercased query occurs at some offset of the lowercased question |
| `Resolver.Lookup` | main.py:61-64 | finding nothing means no entry matches; finding an answer means it is the answer of a first matching entry (the converse is `LookupFirstMatch`) |
| `Resolver.Resolve` | main.py:58-66 | with no matching entry the result is the model adapter's output for the query as typed; otherwise it is the answer of the first matching entry |
| `Resolver.LookupFirstMatch` | main.py:61-64 | when entry i matches and no earlier entry does, the lookup yields entry i's answer |
| `Resolver.LookupNoMatch` | main.py:61-66 | the lookup finds nothing if and only if no entry's lowercased question contains the lowercased query |
| `Resolver.FirstMatchExists` | main.py:61-64 | whenever some entry matches, there is a lowest-index matching entry |
| `Resolver.LookupAppend` | main.py:61-64 | appending an entry keeps every answer the knowledge base already gave; an unanswered query is answered by the new entry exactly when that entry matches |
| `Resolver.LookupQueryCase` | main.py:63 | two queries with the same lowercase form look up the same answer |
| `Resolver.LookupQuestionCase` | main.py:63 | replacing a stored question by one with the same lowercase form changes no lookup |
| `Resolver.ResolveFirstMatch` | main.py:58-64 | when a match exists, the answer is the first matching entry's answer and never the model's |
| `Resolver.ResolveFallsThrough` | main.py:58-66 | when nothing matches, the answer is the adapter's output for the original, not lowercased, query |
| `Resolver.ResolveEmptyQuery` | main.py:63-64 | the empty query against a non-empty knowledge base always gets the first entry's answer |
| `Resolver.ResolveEmptyKnowledgeBase` | main.py:24-34 | an empty knowledge base, including the empty list a failed fetch yields, always falls through to the model |
| `Resolver.ResolveQueryCaseInsensitive` | main.py:63-66 | queries with the same lowercase form match the same entries and get the same stored answer; when nothing matches, each query goes to the model as typed |
| `Resolver.ResolveQuestionCaseInsensitive` | main.py:63 | changing the case of a stored question does not change the resolved answer |
| `Resolver.FindAnswer` | main.py:58-66 | the scan over the loaded knowledge base, with return on the first match and fallback to the model, computes exactly `Resolve` on the loaded entries |
| `Service.UploadResponse.StatusCode` | main.py:100-104 | the status is 200 exactly for an accepted upload and 400 exactly for a rejected one |
| `Service.UploadResponse.Message` | main.py:100-104 | each reply carries its own fixed message, and the two replies never share one |
| `Service.Assistant.constructor` | main.py:11-14 | the two collections start with the given contents |
| `Service.Assistant.LogInteraction` | main.py:72-73 | exactly one record of the query, the response and the clock reading is appended to the log; the knowledge base is unchanged |
| `Service.Assistant.Ask` | main.py:83-91 | an absent query defaults to the empty string; the answer is `Resolve` over the stored entries, or over none when the fetch fails; exactly one log record of the raw query and that answer is appended; the knowledge base is unchanged |
| `Service.Assistant.UploadKnowledge` | main.py:94-104 | rejected (400) if and only if a field is absent or all whitespace, and then nothing changes; otherwise exactly the stripped pair is appended after the existing entries; the log is unchanged; a store whose entries are all non-empty and stripped stays so |
| `Service.UploadKeepsWellFormed` | main.py:97-103 | an accepted upload keeps every stored entry non-empty and stripped |
| `Service.UploadThenAsk` | main.py:83-104 | after an accepted upload whose stripped question contains the query, to a store where nothing matched that query, asking it returns the stripped uploaded answer |

## Left out

- Flask routing, `render_template`, JSON marshalling and `jsonify` (main.py:79-91, 104) are framework glue. Only the 200/400 outcome of the upload and its two message strings are modelled (`UploadResponse`).
- The MongoDB client and its `find` and `insert_one` calls (main.py:11-14, 27, 73, 103) are external I/O. The collections are the two sequence fields of `Assistant`, and a fetch is reduced to succeed-or-fail.
- Store order: `find({})` (main.py:27) is taken to return documents in insertion order, with an accepted upload at the end. MongoDB does not guarantee any order without a sort. So when several entries match, the source may answer with a different one than `Ask` and `Resolve` do. `LookupAppend` depends on this assumption; `UploadThenAsk` does not, because only the new entry matches.
- Failing inserts: both `insert_one` calls (main.py:73, 103) are assumed to succeed. They are outside any `try`, so in the source a failing insert makes the handler fail with HTTP 500: no answer is sent, after an ask nothing is logged, and no upload is confirmed. A store that is down usually fails the fetch (main.py:32-34) and then the log write too. `Ask` with `storeUp` false therefore describes only a fetch that fails while inserts still work.
- The OpenAI call itself (model name, system prompt, token limit, API key, main.py:18-19, 44-49) is a foreign call. It is the oracle `llm`, and any exception it raises, including a malformed response, is `Failed`.
- `datetime.now()` (main.py:73) is wall-clock time. It is the `now` parameter, so the model says nothing about timestamps beyond storing the one supplied.
- The `print` diagnostics (main.py:30, 33, 52, 87) have no observable effect on results.
- The read-only admin views `get_logs` and `view_db` (main.py:107-116) return a collection unchanged and have no logic.
- `Text.Lower`: lowers only the ASCII capitals and the Latin-1 capitals U+00C0..U+00DE except U+00D7. Python's `str.lower()` also lowers the rest of Unicode, where some characters change length (U+0130 becomes two characters); those mappings are not modelled.
- Ill-typed and incomplete data are not modelled: request fields here are strings or absent, and stored entries always have both fields. In the source these cases behave as follows:
  - A non-string `query` raises at `.lower()` (main.py:63) only once the scan reaches an entry. With an empty knowledge base or a failed fetch it goes straight to `query_llm`, whose exceptions are caught (main.py:51-53), and it is logged (main.py:73) with a 200 reply.
  - A non-string `question` or `answer` in an upload raises at `.strip()` (main.py:97-98).
  - A stored document without `question` raises when the scan reaches it. One without `answer` raises only when it is the first match.
  - A missing or non-JSON request body is rejected inside `request.json` or by `data.get` (main.py:85, 96). The status code depends on the Flask version.
- Concurrent requests are not modelled. The source does nothing to coordinate them, and each handler here runs as one atomic step on the two collections.
