/** The adapter logic around the vector index (memory/vector_store.py): which
    collection a store uses, how ranked query hits become similarity-scored
    results, and the conventions of add/get/delete/clear. The index is an
    in-memory map from id to entry for add/get/delete, and a ranked hit list
    for queries; embedding calls and the index's internals are not modelled. */
module VectorStore {
  import opened Common
  import opened Seqs

  /** The collection of one (user, session) pair. */
  function SessionNamespace(userId: string, sessionId: string): string {
    "user_" + userId + "_session_" + sessionId
  }

  /** The collection a user's memories share across sessions. */
  function GlobalNamespace(userId: string): string {
    "user_" + userId + "_global"
  }

  /** The collection `VectorStore.__init__` selects: per session when both ids
      are given (and non-empty), per user when only the user is, else the
      caller's collection name or the configured default. */
  function CollectionName(userId: Option<string>, sessionId: Option<string>,
                          collectionName: Option<string>, cfg: Config): (name: string)
    ensures TruthyStr(userId) && TruthyStr(sessionId) ==>
              name == SessionNamespace(userId.value, sessionId.value)
    ensures TruthyStr(userId) && !TruthyStr(sessionId) ==>
              name == GlobalNamespace(userId.value)
    ensures !TruthyStr(userId) && TruthyStr(collectionName) ==> name == collectionName.value
    ensures !TruthyStr(userId) && !TruthyStr(collectionName) ==> name == cfg.collectionName
  {
    if TruthyStr(userId) && TruthyStr(sessionId) then SessionNamespace(userId.value, sessionId.value)
    else if TruthyStr(userId) then GlobalNamespace(userId.value)
    else if TruthyStr(collectionName) then collectionName.value
    else cfg.collectionName
  }

  /** A stored document and its flat metadata. */
  datatype Entry = Entry(text: string, metadata: Metadata)

  /** The contents of one collection, by id. */
  type Index = map<string, Entry>

  /** `VectorStore.add_memory`: stores `text` under the caller's id, or under
      `freshId` (a new uuid) when none is given, and adds a `timestamp`
      metadata field when the caller did not supply one. `fails` stands for
      the embedding request or the index write raising; the error propagates. */
  function AddMemory(index: Index, text: string, metadata: Metadata, memoryId: Option<string>,
                     freshId: string, now: real, fails: bool): (r: Result<(string, Index)>)
    ensures fails <==> r.Failure?
    ensures r.Success? ==>
              var (id, index') := r.value;
              && id == (if memoryId.Some? then memoryId.value else freshId)
              && id in index'
              && index'[id].text == text
              && index'[id].metadata.Keys == metadata.Keys + {"timestamp"}
              && ("timestamp" in metadata ==> index'[id].metadata == metadata)
              && ("timestamp" !in metadata ==> index'[id].metadata["timestamp"] == Num(now))
              && (forall k :: k in metadata ==> index'[id].metadata[k] == metadata[k])
              && (forall other :: other != id ==> (other in index' <==> other in index))
              && (forall other :: other != id && other in index ==> index'[other] == index[other])
  {
    if fails then Failure("embedding or index write failed")
    else
      var id := if memoryId.None? then freshId else memoryId.value;
      var md := if "timestamp" !in metadata then metadata["timestamp" := Num(now)] else metadata;
      Success((id, index[id := Entry(text, md)]))
  }

  /** One ranked query hit as the index returns it. */
  datatype Hit = Hit(id: string, text: string, metadata: Metadata, distance: real)

  /** One search result: the hit with its cosine distance turned into a similarity. */
  datatype Found = Found(text: string, metadata: Metadata, similarity: real, id: string)

  function FoundOf(h: Hit): (f: Found)
    ensures f.similarity == 1.0 - h.distance
    ensures f.text == h.text && f.metadata == h.metadata && f.id == h.id
  {
    Found(h.text, h.metadata, 1.0 - h.distance, h.id)
  }

  /** All hits as results, in rank order. */
  function AllFound(hits: seq<Hit>): (r: seq<Found>)
    ensures |r| == |hits|
    ensures forall k :: 0 <= k < |hits| ==> r[k] == FoundOf(hits[k])
  {
    seq(|hits|, k requires 0 <= k < |hits| => FoundOf(hits[k]))
  }

  /** A result survives the threshold unless its similarity is strictly below it. */
  predicate Passes(f: Found, threshold: Option<real>) {
    threshold.None? || f.similarity >= threshold.value
  }

  /** The result loop of `search_memories`: score every hit and drop those
      under the threshold. */
  function KeepSimilar(hits: seq<Hit>, threshold: Option<real>): (r: seq<Found>)
    ensures IsSubseq(r, AllFound(hits))
    ensures forall k :: 0 <= k < |r| ==> Passes(r[k], threshold)
    ensures forall k :: 0 <= k < |hits| && Passes(FoundOf(hits[k]), threshold) ==> FoundOf(hits[k]) in r
    ensures threshold.None? ==> r == AllFound(hits)
    decreases |hits|
  {
    if |hits| == 0 then []
    else
      var f := FoundOf(hits[0]);
      var rest := KeepSimilar(hits[1..], threshold);
      assert AllFound(hits) == [f] + AllFound(hits[1..]);
      assert forall k :: 1 <= k < |hits| ==> hits[k] == hits[1..][k - 1];
      if Passes(f, threshold) then [f] + rest
      else rest
  }

  /** The result loop is exactly the order-preserving filter of the scored
      hits: every passing hit is kept, once per occurrence, in rank order. */
  lemma {:induction false} KeepSimilarIsFilter(hits: seq<Hit>, threshold: Option<real>)
    ensures KeepSimilar(hits, threshold) == Filter(AllFound(hits), f => Passes(f, threshold))
    decreases |hits|
  {
    if |hits| > 0 {
      KeepSimilarIsFilter(hits[1..], threshold);
      assert AllFound(hits)[1..] == AllFound(hits[1..]);
    }
  }

  /** `VectorStore.search_memories`: the top `nResults` hits of the ranking,
      scored and filtered by the threshold. `fails` stands for the embedding
      request or the query raising; the error propagates. */
  function SearchMemories(ranked: seq<Hit>, nResults: nat, threshold: Option<real>, fails: bool): (r: Result<seq<Found>>)
    ensures fails <==> r.Failure?
    ensures r.Success? ==> |r.value| <= nResults
    ensures r.Success? ==> IsSubseq(r.value, AllFound(ranked))
    ensures r.Success? && threshold.None? ==> r.value == AllFound(Take(ranked, nResults))
    ensures r.Success? ==> forall k :: 0 <= k < |r.value| ==> Passes(r.value[k], threshold)
    ensures r.Success? ==> r.value == Filter(AllFound(Take(ranked, nResults)), f => Passes(f, threshold))
  {
    if fails then Failure("query failed")
    else
      var top := Take(ranked, nResults);
      var kept := KeepSimilar(top, threshold);
      KeepSimilarIsFilter(top, threshold);
      SubseqMembers(kept, AllFound(top));
      assert AllFound(top) == AllFound(ranked)[..|top|];
      PrefixIsSubseq(AllFound(ranked), |top|);
      SubseqTrans(kept, AllFound(top), AllFound(ranked));
      Success(kept)
  }

  /** The record `get_memory_by_id` hands back. */
  datatype Stored = Stored(id: string, text: string, metadata: Metadata)

  /** `VectorStore.get_memory_by_id`: the entry under `id`, or `None` when
      there is none, when the lookup raises, or when the stored document is
      the empty string (which the source's truthiness test reads as missing). */
  function GetMemoryById(index: Index, id: string, fails: bool): (r: Option<Stored>)
    ensures r.Some? <==> !fails && id in index && index[id].text != ""
    ensures r.Some? ==> r.value == Stored(id, index[id].text, index[id].metadata)
  {
    if fails || id !in index then None
    else if index[id].text == "" then None
    else Some(Stored(id, index[id].text, index[id].metadata))
  }

  /** `VectorStore.delete_memory`: removes `id` (a missing id is not an error)
      and reports `false` only when the index raises. */
  function DeleteMemory(index: Index, id: string, fails: bool): (r: (bool, Index))
    ensures r.0 <==> !fails
    ensures r.0 ==> r.1.Keys == index.Keys - {id} && forall k :: k in r.1 ==> r.1[k] == index[k]
    ensures !r.0 ==> r.1 == index
  {
    if fails then (false, index) else (true, index - {id})
  }

  /** `VectorStore.clear_all_memories`: drops and recreates the collection
      inside one `try`. `deleteFails` stands for the drop raising, which
      leaves the collection as it was; `recreateFails` for the recreate
      raising after a successful drop, which leaves no collection (modelled
      as an empty one). Either way the call reports `false`. */
  function ClearAllMemories(index: Index, deleteFails: bool, recreateFails: bool): (r: (bool, Index))
    ensures r.0 <==> !deleteFails && !recreateFails
    ensures !deleteFails ==> |r.1| == 0
    ensures deleteFails ==> r.1 == index
  {
    if deleteFails then (false, index)
    else if recreateFails then (false, map[])
    else (true, map[])
  }

  /** Adding then fetching by the returned id gives back the text and the
      stored metadata, unless the text is empty. */
  lemma AddThenGet(index: Index, text: string, metadata: Metadata, memoryId: Option<string>,
                   freshId: string, now: real)
    ensures var a := AddMemory(index, text, metadata, memoryId, freshId, now, false);
            var g := GetMemoryById(a.value.1, a.value.0, false);
            && a.Success?
            && (text != "" ==> g.Some? && g.value.id == a.value.0 && g.value.text == text
                               && g.value.metadata == a.value.1[a.value.0].metadata)
            && (text == "" ==> g.None?)
  {
  }

  /** A deleted id reads back as missing, and every other entry reads back
      as before. */
  lemma DeleteThenGet(index: Index, id: string, other: string)
    ensures var d := DeleteMemory(index, id, false);
            && d.0
            && GetMemoryById(d.1, id, false).None?
            && (other != id ==> GetMemoryById(d.1, other, false) == GetMemoryById(index, other, false))
  {
  }

  /** After a successful clear no id reads back. */
  lemma ClearThenGet(index: Index, id: string)
    ensures var c := ClearAllMemories(index, false, false);
            c.0 && GetMemoryById(c.1, id, false).None?
  {
  }
}
