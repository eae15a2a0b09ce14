# MemoryGraph policy core in Dafny

MemoryGraph is a conversational agent with long-term memory. Each user turn
runs through a small workflow:

1. record the input;
2. retrieve related memories from a vector index;
3. build the prompt and ask the model;
4. scan the user's message for things worth remembering;
5. store those;
6. finish.

A registry keeps users and their chat sessions. Each (user, session) pair
gets its own index collection.

This project models the deterministic policy layer between the model, the
embedding service and the vector database:

- `VectorStore` (`vector_store.dfy`) covers the adapter around the index:
  - which collection a store uses;
  - the id and timestamp defaults of `add_memory`;
  - distance → similarity and the threshold filter in `search_memories`;
  - the return conventions of get/delete/clear.

  The index is a map from id to (text, metadata) for add/get/delete. For a
  query it is a ranked hit list.
- `LongTerm` (`long_term.dfy`) covers the long-term memory manager:
  - how `store_memory` flattens a record into index metadata;
  - the three typed store wrappers;
  - the two-phase `retrieve_memories` with its client-side filters,
    truncation and access-count bump;
  - `get_memory_by_id` and `get_memories_by_type`.
- `MemoryAgent` (`memory_agent.dfy`) covers the agent:
  - the keyword rule table that proposes memories;
  - `_prepare_context`, which assembles the message list;
  - the mapping from a suggestion to a store request;
  - the success and error shapes of `process_message`.
- `SessionManager` (`session_manager.dfy`) covers the user and session
  registry. Each dictionary is modelled as a map plus the insertion order
  of its keys, because the source's first-match search and stable sort
  observe that order. The invariant `Valid` says every session belongs to
  a known user.
- `GraphBuilder` (`graph_builder.dfy`) covers the turn workflow:
  - the six nodes and their edges, with the one conditional edge after
    the analysis;
  - the per-node error handling, which fills in defaults instead of
    aborting;
  - `run`.
- `Embeddings` (`embeddings.dfy`) covers the sliding-window chunker
  `chunk_text` and the 100-item batching of `embed_texts`.
- The helper modules are `Common` (Option/Result and metadata values),
  `Seqs` (sequence helpers) and `Text` (Python string operations:
  lower-casing, `in`, `rfind`, `strip`, join/split).

Everything outside the program becomes a parameter:

- the clock (`now`);
- fresh uuid digits (`hex`, `freshId`);
- the model's reply (a `Result`);
- the index's ranking for a query text;
- a `fails` flag wherever the index or the embedding service can raise.

Python's truthiness is written out explicitly: `TruthyStr`, `TruthyNum`,
and `0` standing for `None` in the optional counts.

## Model

| member | source | states |
|---|---|---|
| VectorStore.CollectionName | memory/vector_store.py:33-38 | Both ids truthy gives `user_<u>_session_<s>`. Only the user truthy gives `user_<u>_global`. Otherwise the caller's non-empty collection name is used, else the configured default. |
| VectorStore.AddMemory | memory/vector_store.py:61-104 | Fails exactly when the embedding or the index write raises, and the error propagates. The id is the caller's id when given, else a fresh one. The entry holds the text. `timestamp` is added only when absent, and an existing one is kept. Every caller field is kept, and every other entry is unchanged. |
| VectorStore.FoundOf | memory/vector_store.py:139-151 | A hit's similarity is 1 − distance. Text, metadata and id pass through. |
| VectorStore.KeepSimilar | memory/vector_store.py:139-151 | The scored hits that survive the threshold, in rank order. Every kept hit passes. Every passing hit is kept, including one exactly at the threshold. With no threshold, all hits are kept. |
| VectorStore.KeepSimilarIsFilter | memory/vector_store.py:139-151 | The result loop equals the order-preserving filter of the scored hits by the threshold, so a hit that occurs twice and passes is kept twice. |
| VectorStore.SearchMemories | memory/vector_store.py:106-158 | Fails exactly when the query raises. Otherwise it returns exactly the top `n_results` scored hits that pass the threshold, in rank order, so at most `n_results`. A hit at the threshold is kept. With no threshold it returns all of the top `n_results`. |
| VectorStore.GetMemoryById | memory/vector_store.py:160-187 | Returns a record exactly when the lookup succeeds, the id is present and its document is non-empty. The record holds that id, text and metadata. |
| VectorStore.DeleteMemory | memory/vector_store.py:189-206 | Returns false only when the index raises, and then nothing changes. Otherwise exactly that id is gone (a missing id is not an error) and the other entries are unchanged. |
| VectorStore.ClearAllMemories | memory/vector_store.py:227-247 | Returns true exactly when both the drop and the recreate succeed. A failing drop leaves the collection as it was. Once the drop has succeeded the collection is empty, even when the recreate then raises and the call returns false. |
| VectorStore.AddThenGet | memory/vector_store.py:61-187 | Adding and then fetching by the returned id gives back the text and the stored metadata, except that an empty text reads back as missing. |
| VectorStore.DeleteThenGet | memory/vector_store.py:160-206 | After a delete the id reads back as missing, and every other id reads back as before. |
| VectorStore.ClearThenGet | memory/vector_store.py:160-247 | After a successful clear no id reads back. |
| LongTerm.Clamp | memory/long_term.py:87 | The stored importance lies in [0, 1]. It equals the input inside that range and the nearer bound outside it. |
| LongTerm.NewMemory | memory/long_term.py:84-95 | A new record carries the clamped importance, access count 0, and creation and access times equal to now. Every other argument is carried unchanged. |
| LongTerm.ToMetadata | memory/long_term.py:97-114 | The flattened metadata never has `content`. It has exactly the six fixed keys, plus `context`/`source` only when those are not None. Tags are the comma-join of the list, and every field holds the record's value. |
| LongTerm.MetadataRoundTrip | memory/long_term.py:97-114 | Flattening loses nothing but the content: reading the metadata back returns the same record, provided each tag is non-empty and comma-free. |
| LongTerm.StoreMemory | memory/long_term.py:65-127 | A failure of the index propagates and is not swallowed. On success the fresh id holds the content with `StoredMetadata`, and nothing else in the index changes. |
| LongTerm.StoredMetadata | memory/long_term.py:86-120 | The metadata left in the index has exactly the six record keys, `timestamp`, and `context`/`source` when given. It has no `content` or `id`. Importance is clamped, the access count is 0, tags are comma-joined, and `created_at`, `last_accessed` and the adapter's `timestamp` are all now. |
| LongTerm.StoreConversationSummary | memory/long_term.py:198-218 | Stores an `experience` with the clamped importance, tags `conversation,summary`, the given context and source `conversation_summary`. The importance defaults to 0.7. Failure propagates. |
| LongTerm.SummaryDefaultImportance | memory/long_term.py:198-199 | A summary stored without an importance is stored at importance 0.7. |
| LongTerm.StoreUserPreference | memory/long_term.py:220-238 | Always stores a `preference` of importance 0.8 with tags `preference,user` and source `user_preference`. `context` is present exactly when given. |
| LongTerm.StoreFact | memory/long_term.py:240-260 | Stores a `fact` with the clamped importance, tags `fact,information` and source `factual_information`. `context` is present exactly when given. The importance defaults to 0.6. |
| LongTerm.FactDefaultImportance | memory/long_term.py:240-241 | A fact stored without an importance is stored at importance 0.6. |
| LongTerm.EffectiveMax | memory/long_term.py:145 | `max_results or self.max_memories`: a 0 or None limit becomes the configured maximum. |
| LongTerm.BumpedFields | memory/long_term.py:175-184 | A returned copy has the stored keys plus id, content, similarity, last_accessed and access_count. The count is the stored one plus 1, and the access time is now. Every other stored field wins over the added id/content/similarity. |
| LongTerm.Examine | memory/long_term.py:166-184 | A result is kept only if it passes the type filter and the importance floor, and then it is returned bumped. A skipped result fails one of the filters. Comparing or adding to a string raises. |
| LongTerm.Collect | memory/long_term.py:163-189 | The result loop returns at most `max` items, none more than its input. Every item has the requested type (when one is given) and an importance at or above a truthy floor. |
| LongTerm.CollectIsExpected | memory/long_term.py:163-189 | On well-typed metadata the loop never raises. It returns exactly the admitted results, in index order, bumped, cut to `max`. |
| LongTerm.ExamineWellTyped | memory/long_term.py:166-176 | On well-typed metadata a result is kept, bumped, exactly when both filters admit it, and skipped otherwise. |
| LongTerm.RetrieveMemories | memory/long_term.py:129-196 | Phase one asks for 2×max results above the configured threshold. A second call, for max results with no threshold, is made exactly when phase one succeeded with no results. Results number at most max and satisfy both filters. Every exception yields []: a failing first search, a failing fallback search, and an error inside the result loop. Without an exception the results are the loop's output over the phase that ran. |
| LongTerm.RetrieveIsExpected | memory/long_term.py:148-189 | With well-typed metadata and no index errors, retrieval returns the admitted candidates of the phase that ran, bumped, in index order, at most max. |
| LongTerm.FallbackRecall | memory/long_term.py:148-160 | With no client filters and a non-empty index ranking, retrieval returns something even when nothing clears the threshold. |
| LongTerm.GetMemoriesByType | memory/long_term.py:290-306 | A retrieval whose query text is the type name, filtered to that type, with `limit` (default 10) as the maximum. It returns at most `limit` records when the limit is positive, and at most the configured maximum when it is 0. Each record is of the requested type when that is non-empty. |
| LongTerm.ByTypeIsExpected | memory/long_term.py:290-306 | With no index errors and well-typed metadata, the listing is the candidates of that type, bumped, in index order, cut to the limit. The default call returns at most 10. |
| LongTerm.GetMemoryById | memory/long_term.py:262-284 | A missing, empty or unreadable entry gives None. A found entry with a numeric (or absent) count is always returned, with its id and content, its count one more than stored, its access time now, and every other stored field kept. A found entry with a non-numeric count raises. |
| LongTerm.StoreThenGet | memory/long_term.py:65-127 | Storing non-empty content and fetching it by the returned id gives back the content, the id and every stored field, with access count 1. |
| LongTerm.EmptyContentReadsAsMissing | memory/long_term.py:262-284 | Empty content is stored but reads back as missing, because the adapter tests the document's truthiness. |
| MemoryAgent.AnalyzeSelects | agents/memory_agent.py:229-276 | A preference/0.8, fact/0.9 or fact/0.8 suggestion is present exactly when one of its rule's markers occurs in the lower-cased message. There are at most three, in rule order, each holding the message as written. |
| MemoryAgent.AnalyzeThreeChecks | agents/memory_agent.py:242-276 | The analyzer is the three independent keyword checks in source order. The reply and the retrieved memories have no influence. |
| MemoryAgent.AnyOccurs | agents/memory_agent.py:248 | `any(k in text for k in markers)`: true exactly when some marker occurs. |
| MemoryAgent.FiresAt | agents/memory_agent.py:247-248 | A rule fires whenever some slice of the message lower-cases to one of its markers. |
| MemoryAgent.PreferenceBeforePersonal | agents/memory_agent.py:247-264 | When both the preference and the personal rule fire, their suggestions come first, in that order. |
| MemoryAgent.PreferenceAndNameExample | agents/memory_agent.py:247-264 | "I love tea. I am Sam" yields the preference suggestion and then the personal one. |
| MemoryAgent.StoreRequestOf | agents/memory_agent.py:278-293 | The store request carries content, type and importance unchanged, with context "Stored from conversation - " + reason, and no tags or source. |
| MemoryAgent.StoreSuggestion | agents/memory_agent.py:278-293 | Storing a suggestion returns the fresh id. That id then holds the suggestion's content, type, clamped importance and reason context, and every earlier key stays. Failure propagates. |
| MemoryAgent.SuggestionImportanceKept | agents/memory_agent.py:247-293 | The analyzer's importances lie in [0, 1], so the clamp keeps a stored suggestion's importance unchanged. |
| MemoryAgent.DropEcho | agents/memory_agent.py:187-191 | The history loses its last entry exactly when that entry is the current user message. |
| MemoryAgent.PrepareContext | agents/memory_agent.py:152-198 | Fails exactly when some memory cannot be displayed (a non-string type, no content, a non-numeric similarity). Otherwise the first message is the system prompt, with the memory block appended exactly when there are memories. Then comes the history without an echo, and last the current user message. |
| MemoryAgent.CurrentMessageOnce | agents/memory_agent.py:187-196 | A just-recorded message is not repeated: the message before the final user message is not a copy of it. |
| MemoryAgent.ContextAfterRecording | agents/memory_agent.py:182-196 | After the message is recorded, the context is the system message followed by the prior history and the message once. |
| MemoryAgent.RetrievedRenderable | memory/long_term.py:175-184 | Everything the result loop returns can be displayed in the memory block, provided every stored record carries a string type and has no `similarity` field of its own (which would override the computed one). |
| MemoryAgent.ProcessMessage | agents/memory_agent.py:100-150 | The turn apologizes exactly when context assembly or the model raises, with the fixed apology text. Otherwise it returns the reply, the memories retrieved for the message, the analyzer's suggestions and the buffer's conversation. |
| SessionManager.Assign | utils/session_manager.py:123 | `d[k] = v` on an ordered dict: the key maps to the value, a new key goes last, an existing key keeps its place, and other entries are unchanged. |
| SessionManager.Retain | utils/session_manager.py:202-206 | Deleting the keys that fail a test keeps exactly the others, with their values and relative order. |
| SessionManager.UserIdFormat | utils/session_manager.py:111 | A generated user id is `user_` followed by 8 hex digits exactly when the uuid digits are 8 hex digits. |
| SessionManager.SessionIdFormat | utils/session_manager.py:145 | A generated session id is `session_` followed by 12 hex digits exactly when the uuid digits are 12 hex digits. |
| SessionManager.GenerateCollectionName | utils/session_manager.py:226-228 | The name is the vector store's per-session collection name for the pair. |
| SessionManager.NamespaceInjective | utils/session_manager.py:226-228 | Distinct pairs of generated user ids and session ids get distinct collection names. |
| SessionManager.SessionNamespaceNotGlobal | memory/vector_store.py:33-38 | A session collection of a generated user never coincides with a generated user's global collection. |
| SessionManager.CreateUser | utils/session_manager.py:109-127 | Stores the user under `user_<hex>` with the given name and metadata, times equal to now, and 0 sessions. The invariant is kept, a new id goes last in the order, other users are unchanged and sessions are untouched. No collision check is made. |
| SessionManager.CreateUserCounts | utils/session_manager.py:109-127 | A user created under a new id adds exactly one user. |
| SessionManager.FindUserByUsername | utils/session_manager.py:133-138 | Returns a registered user with that name, or None exactly when no user has it. |
| SessionManager.FirstNamedAt | utils/session_manager.py:135-137 | The earliest-inserted user with the name is the one found. |
| SessionManager.UsernamesNotUnique | utils/session_manager.py:109-138 | Registering a name twice gives two distinct users, and the search finds the first. |
| SessionManager.CreateSession | utils/session_manager.py:140-167 | Fails exactly for an unknown user. Otherwise it adds one session for that user under `session_<hex>`, raises the user's session count by exactly one and sets last login to now. Nothing else changes, and the invariant is kept. |
| SessionManager.AddSession | utils/session_manager.py:156 | Adding a session of a known user keeps the invariant and changes only that entry. |
| SessionManager.CountSession | utils/session_manager.py:159-161 | The user's session count goes up by one and last login becomes now. Every other field and user is unchanged. |
| SessionManager.UpdateSessionActivity | utils/session_manager.py:173-177 | Only the named session's activity time changes, and only if it exists. |
| SessionManager.EndSession | utils/session_manager.py:179-186 | Returns true exactly when the session existed. Only that session is removed, users are unchanged, and the invariant is kept. |
| SessionManager.InsertPermutes | utils/session_manager.py:197 | One insertion step of the sort adds exactly one occurrence of the element. |
| SessionManager.InsertDescending | utils/session_manager.py:197 | Inserting into a list ordered by descending activity keeps it ordered. |
| SessionManager.InsertStable | utils/session_manager.py:197 | Inserting keeps the relative order of entries with equal activity times. |
| SessionManager.SortByActivity | utils/session_manager.py:197 | `sorted(..., reverse=True)` by activity: a permutation of its input, in descending activity order. |
| SessionManager.SortStable | utils/session_manager.py:197 | The sort is stable: entries with equal activity times keep their original order. |
| SessionManager.GetUserSessions | utils/session_manager.py:188-197 | Exactly the user's sessions (only those active in the last hour when asked; all by default), most recent first, ties in dictionary order. There is one result per matching session id. |
| SessionManager.CleanupOldSessions | utils/session_manager.py:199-212 | Removes exactly the sessions idle since before now − 3600·hours (24 hours by default), returns how many, keeps the others unchanged, and keeps the invariant. |
| SessionManager.GetStats | utils/session_manager.py:214-224 | Counts users and sessions, and the sessions active within the last hour. The active count never exceeds the total. |
| SessionManager.DeleteUser | utils/session_manager.py:234-252 | An unknown id returns false and changes nothing. Otherwise it removes the user and exactly that user's sessions, leaving every other entry and the invariant intact. |
| SessionManager.DeleteUserEndsSessions | utils/session_manager.py:140-167 | A session created for a user disappears when that user is deleted. |
| SessionManager.CreateThenEndSession | utils/session_manager.py:140-186 | Ending a session just created under a new id restores the sessions exactly. The user keeps the raised session count. |
| GraphBuilder.Successor | agents/graph_builder.py:66-83 | Every edge moves forward in the fixed order. After the analysis the next node is store exactly when the router says so, and finalize otherwise. |
| GraphBuilder.StoreRouteAfterAnalysis | agents/graph_builder.py:155-182 | The router sends the run to the store node exactly when the analysis ran without error and the rule table proposed something, and to finalize otherwise. |
| GraphBuilder.ProcessInputNode | agents/graph_builder.py:87-103 | Records only the buffer's error, if any, and changes nothing else. |
| GraphBuilder.RetrieveMemoriesNode | agents/graph_builder.py:105-125 | Sets the retrieved memories, or on failure no memories and the error. Nothing else changes. |
| GraphBuilder.RetrieveNodeNeverFails | agents/graph_builder.py:105-125 | With the long-term manager's retrieval, which swallows its own errors, the node never takes its failure branch: it sets the retrieved memories, at most the configured maximum, and leaves the error unchanged. |
| GraphBuilder.GenerateResponseNode | agents/graph_builder.py:127-153 | Sets the model's reply, or the apology and an error when the context assembly, the model or the recording of the reply in the buffer raises. Nothing else changes. |
| GraphBuilder.GenerateWithAgentContext | agents/graph_builder.py:127-153 | With the agent's context assembly, generation fails exactly when a memory cannot be displayed, the model raises or recording the reply raises. Otherwise the reply answers a context that opens with the system message and ends with the user's input. |
| GraphBuilder.AnalyzeMemoryNode | agents/graph_builder.py:155-178 | Sets the rule table's suggestions, or none on failure, and the store flag exactly when there are suggestions. Nothing else changes. |
| GraphBuilder.AgentStoreContract | agents/memory_agent.py:278-293 | The agent's store call succeeds exactly as its flag says, returns its fresh id, and keeps every earlier key. |
| GraphBuilder.StoreAllIds | agents/graph_builder.py:189-199 | The store loop collects the ids of exactly the calls that succeeded, in suggestion order, and skips failures. Each id is in the index, along with every earlier key. |
| GraphBuilder.StoreMemoryNode | agents/graph_builder.py:184-208 | Only `stored_memory_ids` changes, and it is never longer than the suggestion list. |
| GraphBuilder.StoreNodeIds | agents/graph_builder.py:184-199 | The node records the ids of the successful stores in order, each in the index. When every store succeeds there is one id per suggestion. |
| GraphBuilder.Execute | agents/graph_builder.py:66-83 | A run from a node visits that node first, and from END visits nothing. |
| GraphBuilder.RunOrder | agents/graph_builder.py:66-83 | The trace is process_input, retrieve, generate, analyze, then store exactly when there are suggestions, then finalize. Without the store the final state is the analysis state. |
| GraphBuilder.Run | agents/graph_builder.py:215-260 | An outer failure gives the apology with empty lists and the error. The index is unchanged when that failure came before the graph ran, and keeps the store node's writes when it came after. Otherwise `run` reports the final state's response, memories, suggestions and error, and the buffer's conversation. The stored ids are empty when nothing was suggested, and are otherwise the successful stores' ids, each in the index. |
| GraphBuilder.DegradedDefaults | agents/graph_builder.py:105-178 | The error field is clear exactly when every stage succeeded. A failed retrieval leaves no memories, a failed generation leaves the apology, and a failed analysis leaves no suggestions and no store. |
| Embeddings.OrDefault | utils/embeddings.py:107-108 | A 0/None chunk size or overlap becomes the configured default. |
| Embeddings.WindowEnd | utils/embeddings.py:116-125 | A window ends after its start and at most one chunk size later. |
| Embeddings.WindowEndCuts | utils/embeddings.py:121-125 | A window reaching the text end is never cut. A cut window ends on a space past 80% of the window, with no later space in it. An uncut inner window has no space past 80%. |
| Embeddings.ChunkOf | utils/embeddings.py:127 | A chunk is the stripped window slice, no longer than the window. |
| Embeddings.WindowAdvances | utils/embeddings.py:121-128 | When 5·overlap < 4·chunk size, the next start lies strictly after the current one. |
| Embeddings.WalkStartsIncrease | utils/embeddings.py:113-131 | Window starts strictly increase along the walk. |
| Embeddings.CutWindow | utils/embeddings.py:117-125 | One loop body: the slice up to the window end, cut back at the last space past 80% when the window lies inside the text. |
| Embeddings.ChunkText | utils/embeddings.py:94-134 | A text no longer than the chunk size gives exactly `[text]`. Otherwise windows start at 0 and each next start is the previous end minus the overlap. The walk stops at the first next start at or past the text end. Each chunk is its window's stripped slice and at most the chunk size long. |
| Embeddings.Walk | utils/embeddings.py:113-131 | The loop over a text longer than a window produces a complete walk, one chunk per window, each at most the chunk size long. |
| Embeddings.NextStartAsWritten | utils/embeddings.py:128 | The unguarded next start `end - overlap` is at most one window minus the overlap past the current start, and may not pass it. |
| Embeddings.OverlapStalls | utils/embeddings.py:116-131 | With eleven letters, windows of 10 and an overlap of 10, the next start equals the current one, so the loop as written never ends. |
| Embeddings.SliceBatches | utils/embeddings.py:70-72 | Batches are consecutive slices of at most 100 (none empty), and their concatenation is the input. |
| Embeddings.EmbedTexts | utils/embeddings.py:58-92 | One embedding per text, in input order. |
| Text.LastIndexOf | utils/embeddings.py:122 | `str.rfind`: −1 exactly when the character is absent; otherwise the position of its last occurrence. |
| Text.Strip | utils/embeddings.py:127 | `str.strip`: a slice of the input with no whitespace at either end, where whitespace is the full set `str.isspace()` accepts (ASCII controls, NEL, no-break space and the Unicode spaces and separators). |

## Left out

- Model and embedding requests, and the vector database's internals: the
  model reply, the index ranking and the failure of either are inputs.
  The similarity ordering of the index is not modelled.
- Async execution and logging. Time (`time.time()`) and uuid digits are
  explicit parameters.
- JSON persistence of the registry (`_load_*`, `_save_*`). Saves are
  taken to succeed.
- The short-term conversation buffer (`memory/short_term.py` is not part
  of this model). Its conversation is an input sequence.
- `main.py` (the interactive loop) and `config.py`. The configuration
  values are a `Config` parameter.
- The system prompt text and the formatting of a memory line (upper-casing
  the type, the `.2f` similarity). The line renderer is a parameter, and
  `Renderable` states which fields rendering needs.
- `embed_text`, `embed_document` and `embed_single_text`: single
  embedding requests, outside this model.
- `get_user`, `get_session` and `list_users`: plain dictionary reads.
- `get_collection_stats`, `LongTermMemoryManager.get_stats`,
  `get_memory_stats` and the `clear_*` wrappers of the manager and the
  agent. They only forward to the adapter's `delete_memory`,
  `clear_all_memories` and `count`, and the first two are modelled in
  `VectorStore`.
- `to_dict`/`from_dict` of the dataclasses.
- The `messages` field of `AgentState`, which no node reads or writes.
- The outer `except` of `_store_memory_node`. Its body cannot raise once
  each store call is guarded.
- `VectorStore.ClearAllMemories`: when the drop succeeds and the recreate
  raises, the source keeps a handle to the dropped collection, and later
  calls through it raise. The model represents that state as an empty
  collection.
- `LongTerm.NewMemory`: `created_at` and `last_accessed` are two clock
  reads in the source and one `now` in the model.
- `LongTerm.RetrieveMemories`: the source reads the clock once per kept
  result; the model uses one `now` for the whole call.
- `SessionManager.GetStats`: the source reads the clock once per session.
  The model reads it once per call.
- `LongTerm.CountOf`: Python ints, floats and bools in metadata are all
  one numeric kind (`Num(real)`). The difference between an `int` and a
  `float` count is not modelled.
- `Text.Lower`: lower-cases ASCII letters only. Python's `lower()` also
  maps some non-ASCII letters to ASCII ones, e.g. KELVIN SIGN (U+212A) to
  `k`, so a message such as "I li\u212Ae tea" fires the preference rule
  in the source but not in the model. Full Unicode case mapping is a large
  table and is not modelled.
- `Embeddings.ChunkText`: requires `5·overlap < 4·chunk_size`. The source
  has no such guard, and without it the loop may fail to advance (see
  Findings).
- `Embeddings.EmbedTexts`: a failing batch request is not modelled (the
  source re-raises it). Each batch is embedded by a total function.
- `GraphBuilder.Run`: the nodes' outside calls (both buffer records,
  retrieval, model, analysis error, store calls) are given by an
  environment record. `RetrievesWith`, `PreparesWith` and `StoreContract`
  tie it to the manager's retrieval and to the agent's real context
  assembly and store call.
- `MemoryAgent.ProcessMessage`: a failure of the short-term buffer or of
  retrieval is not a separate branch. Retrieval already swallows its own
  errors and returns `[]`.

## Findings

| source | as written | input that shows it | evidently intended | confidence | as-written member | corrected member |
|---|---|---|---|---|---|---|
| utils/embeddings.py:116-131 | `start = end - overlap` with no check that the start moves forward | `chunk_text("aaaaaaaaaaa", chunk_size=10, overlap=10)`: the first window ends at 10 and the next start is 0 again, forever. An overlap of 0 also becomes the default of 200, so a chunk size of 200 or less never terminates: at 200 the start repeats, and below 200 it walks backwards past 0 forever. | Each iteration advances, which holds exactly when the kept part of a window outruns the overlap (5·overlap < 4·chunk_size suffices; the progress step is proved in `Embeddings.WindowAdvances`, and the walk's termination in `Embeddings.Walk`) | high, not executed | Embeddings.OverlapStalls | Embeddings.ChunkText |

