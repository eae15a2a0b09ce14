/** The long-term memory policy (memory/long_term.py): how a memory record is
    flattened into index metadata on store, and the two-phase retrieval with
    client-side filters, truncation and access bookkeeping on the returned
    copies. The clock, the fresh id and the index's answers are parameters. */
module LongTerm {
  import opened Common
  import opened Seqs
  import opened Text
  import VS = VectorStore

  /** `LongTermMemory` */
  datatype LongTermMemory = LongTermMemory(
    content: string,
    memoryType: string,
    importance: real,
    createdAt: real,
    lastAccessed: real,
    accessCount: int,
    tags: seq<string>,
    context: Option<string>,
    source: Option<string>)

  /** `max(0.0, min(1.0, x))` */
  function Clamp(x: real): (r: real)
    ensures 0.0 <= r <= 1.0
    ensures 0.0 <= x <= 1.0 ==> r == x
    ensures x < 0.0 ==> r == 0.0
    ensures x > 1.0 ==> r == 1.0
  {
    if x > 1.0 then 1.0 else if x < 0.0 then 0.0 else x
  }

  /** The arguments of `store_memory`. An absent tag list is the empty one. */
  datatype StoreRequest = StoreRequest(
    content: string,
    memoryType: string,
    importance: real,
    tags: seq<string>,
    context: Option<string>,
    source: Option<string>)

  /** `store_memory(content)` with every other argument at its default. */
  function DefaultRequest(content: string): StoreRequest {
    StoreRequest(content, "knowledge", 0.5, [], None, None)
  }

  /** The record `store_memory` builds before flattening it. */
  function NewMemory(req: StoreRequest, now: real): (m: LongTermMemory)
    ensures 0.0 <= m.importance <= 1.0 && m.importance == Clamp(req.importance)
    ensures m.accessCount == 0
    ensures m.createdAt == now && m.lastAccessed == now
    ensures m.content == req.content && m.memoryType == req.memoryType && m.tags == req.tags
    ensures m.context == req.context && m.source == req.source
  {
    LongTermMemory(req.content, req.memoryType, Clamp(req.importance), now, now, 0,
                   req.tags, req.context, req.source)
  }

  /** The keys every flattened record carries. */
  const FixedKeys: set<string> :=
    {"memory_type", "importance", "created_at", "last_accessed", "access_count", "tags"}

  /** The metadata `store_memory` sends to the index: the record without its
      content, tags joined with commas, `None` fields dropped. */
  function ToMetadata(m: LongTermMemory): (md: Metadata)
    ensures "content" !in md && "timestamp" !in md
    ensures md.Keys == FixedKeys
                       + (if m.context.Some? then {"context"} else {})
                       + (if m.source.Some? then {"source"} else {})
    ensures "tags" in md && md["tags"] == Str(Join(m.tags, ','))
    ensures "importance" in md && md["importance"] == Num(m.importance)
    ensures "access_count" in md && md["access_count"] == Num(m.accessCount as real)
    ensures "memory_type" in md && md["memory_type"] == Str(m.memoryType)
    ensures "created_at" in md && md["created_at"] == Num(m.createdAt)
    ensures "last_accessed" in md && md["last_accessed"] == Num(m.lastAccessed)
    ensures m.context.Some? ==> "context" in md && md["context"] == Str(m.context.value)
    ensures m.source.Some? ==> "source" in md && md["source"] == Str(m.source.value)
  {
    var fixed := map["memory_type" := Str(m.memoryType),
                     "importance" := Num(m.importance),
                     "created_at" := Num(m.createdAt),
                     "last_accessed" := Num(m.lastAccessed),
                     "access_count" := Num(m.accessCount as real),
                     "tags" := Str(Join(m.tags, ','))];
    var withContext := if m.context.Some? then fixed["context" := Str(m.context.value)] else fixed;
    if m.source.Some? then withContext["source" := Str(m.source.value)] else withContext
  }

  /** Reads a tag string back into a list. The source never does this; it is
      the inverse used to say what the flattening preserves. */
  function ReadTags(s: string): seq<string> {
    if s == "" then [] else Split(s, ',')
  }

  /** Every field a flattened record carries, with the expected kind. */
  predicate Shaped(md: Metadata) {
    && FixedKeys <= md.Keys
    && md["memory_type"].Str? && md["importance"].Num? && md["created_at"].Num?
    && md["last_accessed"].Num? && md["access_count"].Num? && md["tags"].Str?
    && ("context" in md ==> md["context"].Str?)
    && ("source" in md ==> md["source"].Str?)
    && md["access_count"].x.Floor as real == md["access_count"].x
  }

  /** Reads a flattened record back, if every field has the expected shape. */
  function RecordOf(content: string, md: Metadata): Option<LongTermMemory> {
    if Shaped(md) then
      Some(LongTermMemory(content, md["memory_type"].s, md["importance"].x,
                          md["created_at"].x, md["last_accessed"].x,
                          md["access_count"].x.Floor, ReadTags(md["tags"].s),
                          if "context" in md then Some(md["context"].s) else None,
                          if "source" in md then Some(md["source"].s) else None))
    else None
  }

  /** Tags that survive the comma join: each is non-empty and comma-free. */
  predicate JoinableTags(tags: seq<string>) {
    forall k :: 0 <= k < |tags| ==> tags[k] != "" && ',' !in tags[k]
  }

  /** Flattening loses nothing but the content (kept as the document text):
      reading the metadata back gives the same record, provided the tags
      survive the comma join. */
  lemma MetadataRoundTrip(m: LongTermMemory)
    requires JoinableTags(m.tags)
    ensures RecordOf(m.content, ToMetadata(m)) == Some(m)
  {
    var md := ToMetadata(m);
    assert md["access_count"].x.Floor == m.accessCount;
    assert Shaped(md);
    TagsRoundTrip(m.tags);
    var context := if "context" in md then Some(md["context"].s) else None;
    var source := if "source" in md then Some(md["source"].s) else None;
    assert context == m.context;
    assert source == m.source;
  }

  lemma TagsRoundTrip(tags: seq<string>)
    requires JoinableTags(tags)
    ensures ReadTags(Join(tags, ',')) == tags
  {
    if |tags| > 0 {
      SplitJoin(tags, ',');
      JoinNonEmpty(tags, ',');
    }
  }

  lemma {:induction false} JoinNonEmpty(parts: seq<string>, sep: char)
    requires |parts| > 0 && parts[0] != ""
    ensures Join(parts, sep) != ""
  {
    if |parts| > 1 {
      assert Join(parts, sep)[0] == parts[0][0];
    }
  }

  /** `store_memory`: flattens the request and adds it to the index under a
      fresh id. `fails` stands for the embedding or the index write raising;
      the error reaches the caller. */
  function StoreMemory(index: VS.Index, req: StoreRequest, now: real, freshId: string, fails: bool)
    : (r: Result<(string, VS.Index)>)
    ensures fails <==> r.Failure?
    ensures r.Success? ==>
              var (id, index') := r.value;
              && id == freshId && id in index'
              && index'[id] == VS.Entry(req.content, StoredMetadata(req, now))
              && (forall other :: other != id ==> (other in index' <==> other in index))
              && (forall other :: other != id && other in index ==> index'[other] == index[other])
  {
    var md := ToMetadata(NewMemory(req, now));
    assert StoredMetadata(req, now) == md["timestamp" := Num(now)];
    VS.AddMemory(index, req.content, md, None, freshId, now, fails)
  }

  /** The metadata `store_memory` leaves in the index: the flattened record
      plus the timestamp the adapter adds. */
  function StoredMetadata(req: StoreRequest, now: real): (md: Metadata)
    ensures "content" !in md && "id" !in md
    ensures md.Keys == FixedKeys + {"timestamp"}
                       + (if req.context.Some? then {"context"} else {})
                       + (if req.source.Some? then {"source"} else {})
    ensures "memory_type" in md && md["memory_type"] == Str(req.memoryType)
    ensures "importance" in md && md["importance"] == Num(Clamp(req.importance))
    ensures "access_count" in md && md["access_count"] == Num(0.0)
    ensures "tags" in md && md["tags"] == Str(Join(req.tags, ','))
    ensures "timestamp" in md && md["timestamp"] == Num(now)
    ensures "created_at" in md && md["created_at"] == Num(now)
    ensures "last_accessed" in md && md["last_accessed"] == Num(now)
    ensures "context" in md <==> req.context.Some?
    ensures "source" in md <==> req.source.Some?
    ensures req.context.Some? ==> md["context"] == Str(req.context.value)
    ensures req.source.Some? ==> md["source"] == Str(req.source.value)
  {
    var md := ToMetadata(NewMemory(req, now));
    md["timestamp" := Num(now)]
  }

  /** `store_conversation_summary`; the importance defaults to 0.7. */
  function StoreConversationSummary(index: VS.Index, summary: string, conversationContext: string,
                                    now: real, freshId: string, fails: bool, importance: real := 0.7)
    : (r: Result<(string, VS.Index)>)
    ensures fails <==> r.Failure?
    ensures r.Success? ==> r.value.0 in r.value.1
    ensures r.Success? ==>
              var md := r.value.1[r.value.0].metadata;
              && r.value.1[r.value.0].text == summary
              && "memory_type" in md && md["memory_type"] == Str("experience")
              && "importance" in md && md["importance"] == Num(Clamp(importance))
              && "tags" in md && md["tags"] == Str("conversation,summary")
              && "context" in md && md["context"] == Str(conversationContext)
              && "source" in md && md["source"] == Str("conversation_summary")
  {
    var tags := ["conversation", "summary"];
    assert Join(tags, ',') == "conversation,summary" by {
      assert tags[1..] == ["summary"];
    }
    StoreMemory(index, StoreRequest(summary, "experience", importance, tags, Some(conversationContext), Some("conversation_summary")), now, freshId, fails)
  }

  /** `store_user_preference`: always a preference of importance 0.8. */
  function StoreUserPreference(index: VS.Index, preference: string, context: Option<string>,
                               now: real, freshId: string, fails: bool)
    : (r: Result<(string, VS.Index)>)
    ensures fails <==> r.Failure?
    ensures r.Success? ==> r.value.0 in r.value.1
    ensures r.Success? ==>
              var md := r.value.1[r.value.0].metadata;
              && r.value.1[r.value.0].text == preference
              && "memory_type" in md && md["memory_type"] == Str("preference")
              && "importance" in md && md["importance"] == Num(0.8)
              && "tags" in md && md["tags"] == Str("preference,user")
              && "source" in md && md["source"] == Str("user_preference")
              && ("context" in md <==> context.Some?)
  {
    var tags := ["preference", "user"];
    assert Join(tags, ',') == "preference,user" by {
      assert tags[1..] == ["user"];
    }
    StoreMemory(index, StoreRequest(preference, "preference", 0.8, tags, context, Some("user_preference")), now, freshId, fails)
  }

  /** `store_fact`; the importance defaults to 0.6. */
  function StoreFact(index: VS.Index, fact: string, context: Option<string>,
                     now: real, freshId: string, fails: bool, importance: real := 0.6)
    : (r: Result<(string, VS.Index)>)
    ensures fails <==> r.Failure?
    ensures r.Success? ==> r.value.0 in r.value.1
    ensures r.Success? ==>
              var md := r.value.1[r.value.0].metadata;
              && r.value.1[r.value.0].text == fact
              && "memory_type" in md && md["memory_type"] == Str("fact")
              && "importance" in md && md["importance"] == Num(Clamp(importance))
              && "tags" in md && md["tags"] == Str("fact,information")
              && "source" in md && md["source"] == Str("factual_information")
              && ("context" in md <==> context.Some?)
  {
    var tags := ["fact", "information"];
    assert Join(tags, ',') == "fact,information" by {
      assert tags[1..] == ["information"];
    }
    StoreMemory(index, StoreRequest(fact, "fact", importance, tags, context, Some("factual_information")), now, freshId, fails)
  }

  /** A summary stored without an importance is stored at 0.7. */
  lemma SummaryDefaultImportance(index: VS.Index, summary: string, conversationContext: string,
                                 now: real, freshId: string)
    ensures var r := StoreConversationSummary(index, summary, conversationContext, now, freshId, false);
            && r.Success?
            && "importance" in r.value.1[r.value.0].metadata
            && r.value.1[r.value.0].metadata["importance"] == Num(0.7)
  {
  }

  /** A fact stored without an importance is stored at 0.6. */
  lemma FactDefaultImportance(index: VS.Index, fact: string, context: Option<string>,
                              now: real, freshId: string)
    ensures var r := StoreFact(index, fact, context, now, freshId, false);
            && r.Success?
            && "importance" in r.value.1[r.value.0].metadata
            && r.value.1[r.value.0].metadata["importance"] == Num(0.6)
  {
  }

  // ---------------------------------------------------------------------
  // Retrieval

  /** The filters of `retrieve_memories`. `maxResults == 0` stands for `None`
      (and for 0, which `or` also replaces by the default). */
  datatype Query = Query(memoryType: Option<string>, maxResults: nat, minImportance: Option<real>)

  /** What the index answers during one retrieval: the ranking it holds for
      the query text, whether each of the two search calls raises, and the
      clock. */
  datatype RetrieveEnv = RetrieveEnv(rank: string -> seq<VS.Hit>, firstFails: bool, secondFails: bool, now: real)

  /** One call to `search_memories`. */
  datatype SearchCall = SearchCall(nResults: nat, threshold: Option<real>)

  /** The memories returned, and the search calls made on the way. */
  datatype Retrieval = Retrieval(results: seq<Metadata>, calls: seq<SearchCall>)

  /** `max_results or self.max_memories` */
  function EffectiveMax(q: Query, cfg: Config): (n: nat)
    ensures q.maxResults > 0 ==> n == q.maxResults
    ensures q.maxResults == 0 ==> n == cfg.maxMemories
  {
    if q.maxResults == 0 then cfg.maxMemories else q.maxResults
  }

  /** What the loop does with one search result. */
  datatype Verdict = Skip | Keep(item: Metadata) | Raise

  /** The metadata a stored access count is read from, with its default of 0;
      a non-number raises. */
  function CountOf(md: Metadata): Option<real> {
    match Get(md, "access_count")
    case None => Some(0.0)
    case Some(Num(x)) => Some(x)
    case Some(Str(_)) => None
  }

  /** The returned copy of a kept result: id, content and similarity, then
      the metadata with its access time refreshed and its count bumped (later
      keys win, as in a Python dict display). */
  function Bumped(f: VS.Found, count: real, now: real): Metadata {
    map["id" := Str(f.id), "content" := Str(f.text), "similarity" := Num(f.similarity)]
    + f.metadata["last_accessed" := Num(now)]["access_count" := Num(count + 1.0)]
  }

  /** The copy carries the result's own keys and the three it adds; the
      count is one more, the access time is now, and every other field of
      the stored metadata wins over the added ones. */
  lemma BumpedFields(f: VS.Found, count: real, now: real)
    ensures var item := Bumped(f, count, now);
            && item.Keys == f.metadata.Keys + {"id", "content", "similarity", "last_accessed", "access_count"}
            && item["access_count"] == Num(count + 1.0)
            && item["last_accessed"] == Num(now)
            && (forall k :: k in f.metadata && k != "access_count" && k != "last_accessed" ==> item[k] == f.metadata[k])
            && ("id" !in f.metadata ==> item["id"] == Str(f.id))
            && ("content" !in f.metadata ==> item["content"] == Str(f.text))
            && ("similarity" !in f.metadata ==> item["similarity"] == Num(f.similarity))
  {
  }

  /** The memory-type filter: a truthy type must match exactly. */
  predicate TypeMatches(md: Metadata, memoryType: Option<string>) {
    !TruthyStr(memoryType) || Get(md, "memory_type") == Some(Str(memoryType.value))
  }

  /** The importance filter: a truthy floor must be reached; a missing
      importance counts as 0. */
  predicate ImportanceReaches(md: Metadata, minImportance: Option<real>) {
    !TruthyNum(minImportance)
    || match Get(md, "importance")
       case None => 0.0 >= minImportance.value
       case Some(Num(x)) => x >= minImportance.value
       case Some(Str(_)) => false
  }

  /** The filter and bookkeeping applied to one result, in the source's order:
      type check, importance check (comparing a string with a number raises),
      then the access-count bump (adding to a string raises). */
  function Examine(f: VS.Found, q: Query, now: real): (v: Verdict)
    ensures v.Keep? ==> TypeMatches(f.metadata, q.memoryType) && ImportanceReaches(f.metadata, q.minImportance)
    ensures v.Keep? ==> CountOf(f.metadata).Some? && v.item == Bumped(f, CountOf(f.metadata).value, now)
    ensures v.Skip? ==> !TypeMatches(f.metadata, q.memoryType) || !ImportanceReaches(f.metadata, q.minImportance)
  {
    var md := f.metadata;
    if !TypeMatches(md, q.memoryType) then Skip
    else if TruthyNum(q.minImportance) && Get(md, "importance").Some? && Get(md, "importance").value.Str? then Raise
    else if !ImportanceReaches(md, q.minImportance) then Skip
    else match CountOf(md)
      case None => Raise
      case Some(c) => Keep(Bumped(f, c, now))
  }

  /** The result loop of `retrieve_memories`: examine results in order, keep
      the admitted ones, stop once `remaining` have been kept. `None` means
      the loop raised. */
  function Collect(found: seq<VS.Found>, q: Query, remaining: nat, now: real): (r: Option<seq<Metadata>>)
    ensures r.Some? ==> |r.value| <= |found|
    ensures r.Some? && remaining >= 1 ==> |r.value| <= remaining
    ensures r.Some? ==> forall k :: 0 <= k < |r.value| ==>
              && (TruthyStr(q.memoryType) ==>
                    "memory_type" in r.value[k] && r.value[k]["memory_type"] == Str(q.memoryType.value))
              && (TruthyNum(q.minImportance) && "importance" in r.value[k] ==>
                    r.value[k]["importance"].Num? && r.value[k]["importance"].x >= q.minImportance.value)
    decreases |found|
  {
    if |found| == 0 then Some([])
    else
      var v := Examine(found[0], q, now);
      KeptItemFacts(found[0], q, now);
      match v
      case Raise => None
      case Skip => Collect(found[1..], q, remaining, now)
      case Keep(item) =>
        if remaining <= 1 then Some([item])
        else match Collect(found[1..], q, remaining - 1, now)
          case None => None
          case Some(rest) => Some([item] + rest)
  }

  /** What the filters guarantee about a kept item's own fields. */
  lemma KeptItemFacts(f: VS.Found, q: Query, now: real)
    ensures var v := Examine(f, q, now);
            v.Keep? ==>
              && (TruthyStr(q.memoryType) ==>
                    "memory_type" in v.item && v.item["memory_type"] == Str(q.memoryType.value))
              && (TruthyNum(q.minImportance) && "importance" in v.item ==>
                    v.item["importance"].Num? && v.item["importance"].x >= q.minImportance.value)
  {
    if Examine(f, q, now).Keep? {
      BumpedFields(f, CountOf(f.metadata).value, now);
    }
  }

  /** `retrieve_memories`: phase one asks for `2 * max` results above the
      configured threshold; only if it returns nothing, phase two asks for
      `max` results with no threshold. The results are then filtered,
      truncated and bumped. Any exception yields no results. */
  function RetrieveMemories(query: string, q: Query, cfg: Config, env: RetrieveEnv): (r: Retrieval)
    ensures var n := EffectiveMax(q, cfg);
            && |r.calls| >= 1
            && r.calls[0] == SearchCall(2 * n, Some(cfg.similarityThreshold))
            && (|r.calls| == 2 <==>
                  !env.firstFails && |VS.SearchMemories(env.rank(query), 2 * n, Some(cfg.similarityThreshold), false).value| == 0)
            && (|r.calls| == 2 ==> r.calls[1] == SearchCall(n, None))
            && |r.calls| <= 2
    ensures |r.results| <= EffectiveMax(q, cfg)
    ensures env.firstFails ==> r.results == []
    ensures |r.calls| == 2 && env.secondFails ==> r.results == []
    ensures var c := Collect(Candidates(query, q, cfg, env), q, EffectiveMax(q, cfg), env.now);
            !env.firstFails && (|r.calls| == 1 || !env.secondFails) ==>
              && (c.None? ==> r.results == [])
              && (c.Some? ==> r.results == c.value)
    ensures forall k :: 0 <= k < |r.results| ==>
              && (TruthyStr(q.memoryType) ==>
                    "memory_type" in r.results[k] && r.results[k]["memory_type"] == Str(q.memoryType.value))
              && (TruthyNum(q.minImportance) && "importance" in r.results[k] ==>
                    r.results[k]["importance"].Num? && r.results[k]["importance"].x >= q.minImportance.value)
  {
    var n := EffectiveMax(q, cfg);
    var first := SearchCall(2 * n, Some(cfg.similarityThreshold));
    var r1 := VS.SearchMemories(env.rank(query), 2 * n, Some(cfg.similarityThreshold), env.firstFails);
    if r1.Failure? then Retrieval([], [first])
    else if |r1.value| > 0 then
      Retrieval(Collect(r1.value, q, n, env.now).GetOr([]), [first])
    else
      var second := SearchCall(n, None);
      var r2 := VS.SearchMemories(env.rank(query), n, None, env.secondFails);
      if r2.Failure? then Retrieval([], [first, second])
      else Retrieval(Collect(r2.value, q, n, env.now).GetOr([]), [first, second])
  }

  /** The search results the filters run over: phase one's when it found
      anything, else phase two's. */
  function Candidates(query: string, q: Query, cfg: Config, env: RetrieveEnv): seq<VS.Found> {
    var n := EffectiveMax(q, cfg);
    var r1 := VS.SearchMemories(env.rank(query), 2 * n, Some(cfg.similarityThreshold), false);
    if |r1.value| > 0 then r1.value else VS.SearchMemories(env.rank(query), n, None, false).value
  }

  /** Metadata whose importance and access count are numbers when present,
      as everything `store_memory` writes is. */
  predicate WellTyped(md: Metadata) {
    && (("importance" in md) ==> md["importance"].Num?)
    && (("access_count" in md) ==> md["access_count"].Num?)
  }

  /** Whether one result passes both client-side filters. */
  predicate Admitted(q: Query, f: VS.Found) {
    TypeMatches(f.metadata, q.memoryType) && ImportanceReaches(f.metadata, q.minImportance)
  }

  /** Every result bumped, in order. */
  function BumpAll(found: seq<VS.Found>, now: real): (r: seq<Metadata>)
    ensures |r| == |found|
  {
    if |found| == 0 then []
    else [Bumped(found[0], CountOf(found[0].metadata).GetOr(0.0), now)] + BumpAll(found[1..], now)
  }

  /** Independent statement of the retrieval result: the admitted candidates
      in index order, each bumped, cut to `n`. */
  function Expected(found: seq<VS.Found>, q: Query, n: nat, now: real): seq<Metadata> {
    Take(BumpAll(AdmittedOf(found, q), now), n)
  }

  /** The results both filters admit, in index order. */
  function AdmittedOf(found: seq<VS.Found>, q: Query): seq<VS.Found> {
    if |found| == 0 then []
    else if Admitted(q, found[0]) then [found[0]] + AdmittedOf(found[1..], q)
    else AdmittedOf(found[1..], q)
  }

  /** On well-typed metadata the loop never raises and returns exactly the
      independent statement. */
  lemma CollectIsExpected(found: seq<VS.Found>, q: Query, n: nat, now: real)
    requires n >= 1
    requires forall f :: f in found ==> WellTyped(f.metadata)
    ensures Collect(found, q, n, now) == Some(Expected(found, q, n, now))
  {
    EveryWellTyped(found);
    CollectMatches(found, q, n, now);
  }

  /** Every result's metadata is well typed, stated one result at a time. */
  predicate AllWellTyped(found: seq<VS.Found>) {
    |found| == 0 || (WellTyped(found[0].metadata) && AllWellTyped(found[1..]))
  }

  lemma {:induction false} EveryWellTyped(found: seq<VS.Found>)
    requires forall f :: f in found ==> WellTyped(f.metadata)
    ensures AllWellTyped(found)
    decreases |found|
  {
    if |found| > 0 {
      assert found[0] in found;
      assert forall g :: g in found[1..] ==> g in found;
      EveryWellTyped(found[1..]);
    }
  }

  lemma {:induction false} CollectMatches(found: seq<VS.Found>, q: Query, n: nat, now: real)
    requires n >= 1 && AllWellTyped(found)
    ensures Collect(found, q, n, now) == Some(Expected(found, q, n, now))
    decreases |found|
  {
    if |found| > 0 {
      CollectStep(found, q, n, now);
      ExpectedStep(found, q, n, now);
      if Admitted(q, found[0]) {
        if n > 1 {
          CollectMatches(found[1..], q, n - 1, now);
        }
      } else {
        CollectMatches(found[1..], q, n, now);
      }
    }
  }

  /** One turn of the result loop on a well-typed first result. */
  lemma CollectStep(found: seq<VS.Found>, q: Query, n: nat, now: real)
    requires |found| > 0 && n >= 1 && WellTyped(found[0].metadata)
    ensures var item := Bumped(found[0], CountOf(found[0].metadata).GetOr(0.0), now);
            var later := Collect(found[1..], q, n - 1, now);
            && (Admitted(q, found[0]) && n == 1 ==> Collect(found, q, n, now) == Some([item]))
            && (Admitted(q, found[0]) && n > 1 && later.Some? ==>
                  Collect(found, q, n, now) == Some([item] + later.value))
            && (!Admitted(q, found[0]) ==> Collect(found, q, n, now) == Collect(found[1..], q, n, now))
  {
    ExamineWellTyped(found[0], q, now);
  }

  /** One step of the independent statement. */
  lemma ExpectedStep(found: seq<VS.Found>, q: Query, n: nat, now: real)
    requires |found| > 0 && n >= 1
    ensures var item := Bumped(found[0], CountOf(found[0].metadata).GetOr(0.0), now);
            && (Admitted(q, found[0]) && n == 1 ==> Expected(found, q, n, now) == [item])
            && (Admitted(q, found[0]) && n > 1 ==>
                  Expected(found, q, n, now) == [item] + Expected(found[1..], q, n - 1, now))
            && (!Admitted(q, found[0]) ==> Expected(found, q, n, now) == Expected(found[1..], q, n, now))
  {
    var f := found[0];
    if Admitted(q, f) {
      var item := Bumped(f, CountOf(f.metadata).GetOr(0.0), now);
      var tail := BumpAll(AdmittedOf(found[1..], q), now);
      assert BumpAll(AdmittedOf(found, q), now) == [item] + tail;
      assert Take([item] + tail, n) == [item] + Take(tail, n - 1);
    }
  }


  /** On well-typed metadata, examining a result never raises: it is kept,
      bumped, exactly when both filters admit it. */
  lemma ExamineWellTyped(f: VS.Found, q: Query, now: real)
    requires WellTyped(f.metadata)
    ensures Admitted(q, f) ==> Examine(f, q, now) == Keep(Bumped(f, CountOf(f.metadata).GetOr(0.0), now))
    ensures !Admitted(q, f) ==> Examine(f, q, now) == Skip
  {
  }


  /** On well-typed metadata `retrieve_memories` returns the admitted
      candidates, bumped, in index order, at most `max` of them. */
  lemma RetrieveIsExpected(query: string, q: Query, cfg: Config, env: RetrieveEnv)
    requires !env.firstFails && !env.secondFails
    requires EffectiveMax(q, cfg) >= 1
    requires forall h :: h in env.rank(query) ==> WellTyped(h.metadata)
    ensures RetrieveMemories(query, q, cfg, env).results
              == Expected(Candidates(query, q, cfg, env), q, EffectiveMax(q, cfg), env.now)
  {
    var n := EffectiveMax(q, cfg);
    var ranked := env.rank(query);
    var c := Candidates(query, q, cfg, env);
    var all := VS.AllFound(ranked);
    assert forall f :: f in all ==> WellTyped(f.metadata) by {
      forall f | f in all
        ensures WellTyped(f.metadata)
      {
        var k :| 0 <= k < |all| && all[k] == f;
        assert ranked[k] in ranked;
      }
    }
    var r1 := VS.SearchMemories(ranked, 2 * n, Some(cfg.similarityThreshold), false);
    var r2 := VS.SearchMemories(ranked, n, None, false);
    SubseqMembers(r1.value, all);
    SubseqMembers(r2.value, all);
    assert forall f :: f in c ==> f in all;
    CollectIsExpected(c, q, n, env.now);
  }

  /** The fallback's promise: with no client-side filters and an index that
      holds at least one hit for the query, retrieval returns something, even
      when nothing clears the similarity threshold. */
  lemma FallbackRecall(query: string, q: Query, cfg: Config, env: RetrieveEnv)
    requires !env.firstFails && !env.secondFails
    requires EffectiveMax(q, cfg) >= 1
    requires !TruthyStr(q.memoryType) && !TruthyNum(q.minImportance)
    requires |env.rank(query)| > 0
    requires forall h :: h in env.rank(query) ==> WellTyped(h.metadata)
    ensures |RetrieveMemories(query, q, cfg, env).results| > 0
  {
    RetrieveIsExpected(query, q, cfg, env);
    var n := EffectiveMax(q, cfg);
    var c := Candidates(query, q, cfg, env);
    assert |c| > 0 by {
      var r1 := VS.SearchMemories(env.rank(query), 2 * n, Some(cfg.similarityThreshold), false);
      if |r1.value| == 0 {
        assert VS.SearchMemories(env.rank(query), n, None, false).value
               == VS.AllFound(Take(env.rank(query), n));
      }
    }
    assert AdmittedOf(c, q) == [c[0]] + AdmittedOf(c[1..], q);
  }

  /** `get_memories_by_type`: a retrieval whose query text is the type name,
      filtered to that type, at most `limit` results (default 10; 0 falls
      back to the configured maximum). */
  function GetMemoriesByType(memoryType: string, cfg: Config, env: RetrieveEnv, limit: nat := 10): (r: seq<Metadata>)
    ensures r == RetrieveMemories(memoryType, Query(Some(memoryType), limit, None), cfg, env).results
    ensures limit > 0 ==> |r| <= limit
    ensures limit == 0 ==> |r| <= cfg.maxMemories
    ensures memoryType != "" ==>
              forall k :: 0 <= k < |r| ==> "memory_type" in r[k] && r[k]["memory_type"] == Str(memoryType)
  {
    RetrieveMemories(memoryType, Query(Some(memoryType), limit, None), cfg, env).results
  }

  /** With no errors and well-typed metadata, a by-type listing is the
      candidates of that type, bumped, in index order, cut to the limit; and
      the default call is cut to 10. */
  lemma ByTypeIsExpected(memoryType: string, cfg: Config, env: RetrieveEnv, limit: nat)
    requires !env.firstFails && !env.secondFails
    requires limit >= 1 || cfg.maxMemories >= 1
    requires forall h :: h in env.rank(memoryType) ==> WellTyped(h.metadata)
    ensures var q := Query(Some(memoryType), limit, None);
            GetMemoriesByType(memoryType, cfg, env, limit)
              == Expected(Candidates(memoryType, q, cfg, env), q, EffectiveMax(q, cfg), env.now)
    ensures |GetMemoriesByType(memoryType, cfg, env)| <= 10
  {
    RetrieveIsExpected(memoryType, Query(Some(memoryType), limit, None), cfg, env);
  }

  /** `LongTermMemoryManager.get_memory_by_id`: the stored entry as a flat
      record with its access count bumped on the returned copy. A count that
      is not a number raises, and that error is not caught here. */
  function GetMemoryById(index: VS.Index, id: string, fails: bool, now: real): (r: Result<Option<Metadata>>)
    ensures VS.GetMemoryById(index, id, fails).None? ==> r == Success(None)
    ensures r.Success? && r.value.Some? ==>
              && id in index && index[id].text != ""
              && CountOf(index[id].metadata).Some?
              && r.value.value.Keys == index[id].metadata.Keys + {"id", "content", "last_accessed", "access_count"}
              && r.value.value["access_count"] == Num(CountOf(index[id].metadata).value + 1.0)
              && r.value.value["last_accessed"] == Num(now)
              && ("content" !in index[id].metadata ==> r.value.value["content"] == Str(index[id].text))
              && ("id" !in index[id].metadata ==> r.value.value["id"] == Str(id))
              && (forall k :: k in index[id].metadata && k != "access_count" && k != "last_accessed" ==>
                    r.value.value[k] == index[id].metadata[k])
    ensures fails ==> r == Success(None)
    ensures !fails && id in index && index[id].text != "" && CountOf(index[id].metadata).Some? ==>
              r.Success? && r.value.Some?
    ensures !fails && id in index && index[id].text != "" && CountOf(index[id].metadata).None? ==>
              r.Failure?
  {
    match VS.GetMemoryById(index, id, fails)
    case None => Success(None)
    case Some(stored) =>
      var md := stored.metadata;
      match CountOf(md)
      case None => Failure("unsupported operand type for +")
      case Some(c) =>
        var item := map["id" := Str(stored.id), "content" := Str(stored.text)]
                    + md["last_accessed" := Num(now)]["access_count" := Num(c + 1.0)];
        Success(Some(item))
  }

  /** Storing then fetching by the returned id gives back the content and every
      stored field, with the access count at 1 on the returned copy, as long
      as the content is not empty. */
  lemma StoreThenGet(index: VS.Index, req: StoreRequest, now: real, freshId: string, later: real)
    requires req.content != ""
    ensures var s := StoreMemory(index, req, now, freshId, false);
            var md := StoredMetadata(req, now);
            var r := GetMemoryById(s.value.1, s.value.0, false, later);
            && s.Success? && r.Success? && r.value.Some?
            && "content" in r.value.value && r.value.value["content"] == Str(req.content)
            && "id" in r.value.value && r.value.value["id"] == Str(freshId)
            && "access_count" in r.value.value && r.value.value["access_count"] == Num(1.0)
            && "last_accessed" in r.value.value && r.value.value["last_accessed"] == Num(later)
            && forall k :: k in md && k != "access_count" && k != "last_accessed" ==>
                 k in r.value.value && r.value.value[k] == md[k]
  {
    var s := StoreMemory(index, req, now, freshId, false);
    var (id, index') := s.value;
    var md := StoredMetadata(req, now);
    assert index'[id] == VS.Entry(req.content, md);
    assert CountOf(md) == Some(0.0);
    assert VS.GetMemoryById(index', id, false) == Some(VS.Stored(id, req.content, md));
  }

  /** Empty content is stored, but reads back as missing. */
  lemma EmptyContentReadsAsMissing(index: VS.Index, req: StoreRequest, now: real, freshId: string, later: real)
    requires req.content == ""
    ensures var s := StoreMemory(index, req, now, freshId, false);
            s.Success? && GetMemoryById(s.value.1, s.value.0, false, later) == Success(None)
  {
  }
}
