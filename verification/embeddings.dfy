/** The deterministic part of the embedding gateway (utils/embeddings.py):
    the sliding-window text chunker and the 100-item batching of
    `embed_texts`. The embedding requests themselves are an opaque
    text-to-vector function. */
module Embeddings {
  import opened Common
  import opened Seqs
  import opened Text

  /** `x or default` for an optional positive count where `None` and `0` are
      both false. */
  function OrDefault(x: nat, default: nat): (r: nat)
    ensures x != 0 ==> r == x
    ensures x == 0 ==> r == default
  {
    if x == 0 then default else x
  }

  /** One window of the chunker: the chunk is taken from `start`, and `end` is
      the window end the next start is computed from. `end` may lie past the
      end of the text, where the slice is clamped. */
  datatype Window = Window(start: nat, end: nat)

  /** The end of the window that starts at `start`: `start + size`, cut back to
      the last space of the window when the window does not reach the end of
      the text and that space lies beyond 80% of the window. */
  function WindowEnd(text: string, size: nat, start: nat): (e: nat)
    requires size > 0 && start < |text|
    ensures start < e <= start + size
  {
    var end := start + size;
    if end < |text| then
      var lastSpace := LastIndexOf(text[start..end], ' ');
      if 5 * lastSpace > 4 * size then start + lastSpace else end
    else
      end
  }

  /** Where a window ends: a window reaching the end of the text is never
      cut; a cut window ends on a space past 80% of the window with no space
      after it; an uncut window inside the text has no space past 80%. */
  lemma WindowEndCuts(text: string, size: nat, start: nat)
    requires size > 0 && start < |text|
    ensures var e := WindowEnd(text, size, start);
            && (start + size >= |text| ==> e == start + size)
            && (e < start + size ==>
                  && text[e] == ' '
                  && 5 * (e - start) > 4 * size
                  && forall k :: e < k < start + size ==> text[k] != ' ')
            && (start + size < |text| && e == start + size ==>
                  forall k :: start <= k < start + size && 5 * (k - start) > 4 * size ==> text[k] != ' ')
  {
    var end := start + size;
    if end < |text| {
      var chunk := text[start..end];
      assert forall k :: start <= k < end ==> text[k] == chunk[k - start];
    }
  }

  /** The chunk cut from one window: the clamped slice, whitespace-stripped. */
  function ChunkOf(text: string, w: Window): (c: string)
    requires w.start <= w.end
    requires w.start <= |text|
    ensures |c| <= w.end - w.start
  {
    Strip(text[w.start..Min(w.end, |text|)])
  }

  /** The sequence of windows the chunker walks for a text longer than one
      window: the first starts at 0, every window ends where `WindowEnd` puts
      it, each next window starts `overlap` before the previous end, and the
      walk stops at the first window whose successor would start at or past
      the end of the text. */
  ghost predicate WindowWalk(text: string, size: nat, overlap: nat, ws: seq<Window>)
    requires size > 0
  {
    && |ws| >= 1
    && ws[0].start == 0
    && (forall k :: 0 <= k < |ws| ==> ws[k].start < |text| && ws[k].end == WindowEnd(text, size, ws[k].start))
    && (forall k :: 0 <= k < |ws| - 1 ==> ws[k + 1].start + overlap == ws[k].end)
    && ws[|ws| - 1].end >= |text| + overlap
  }

  /** Under the overlap bound every next window starts strictly after the
      previous one, so the walk makes progress. */
  lemma WindowAdvances(text: string, size: nat, overlap: nat, start: nat)
    requires size > 0 && start < |text|
    requires 5 * overlap < 4 * size
    ensures WindowEnd(text, size, start) > start + overlap
  {
    WindowEndCuts(text, size, start);
  }

  /** The next start as the source computes it, `end - overlap`, with no
      guard: it may fall at or before the current start. */
  function NextStartAsWritten(text: string, size: nat, overlap: nat, start: nat): (next: int)
    requires size > 0 && start < |text|
    ensures next <= start + size - overlap
  {
    WindowEnd(text, size, start) - overlap
  }

  /** Eleven letters with no space, windows of 10 and an overlap of 10: the
      first window ends at 10 and the next start is 0 again, so the loop as
      written repeats the same window forever. */
  lemma OverlapStalls()
    ensures NextStartAsWritten("aaaaaaaaaaa", 10, 10, 0) == 0
  {
    var text := "aaaaaaaaaaa";
    assert ' ' !in text[0..10];
  }

  /** Window starts strictly increase along a walk. */
  lemma {:induction false} WalkStartsIncrease(text: string, size: nat, overlap: nat, ws: seq<Window>)
    requires size > 0 && 5 * overlap < 4 * size
    requires WindowWalk(text, size, overlap, ws)
    ensures forall i, j :: 0 <= i < j < |ws| ==> ws[i].start < ws[j].start
  {
    forall k | 0 <= k < |ws| - 1
      ensures ws[k].start < ws[k + 1].start
    {
      WindowAdvances(text, size, overlap, ws[k].start);
    }
    forall i, j | 0 <= i < j < |ws|
      ensures ws[i].start < ws[j].start
    {
      StartsIncreaseFrom(ws, i, j);
    }
  }

  lemma {:induction false} StartsIncreaseFrom(ws: seq<Window>, i: nat, j: nat)
    requires forall k :: 0 <= k < |ws| - 1 ==> ws[k].start < ws[k + 1].start
    requires i < j < |ws|
    ensures ws[i].start < ws[j].start
    decreases j - i
  {
    if i + 1 < j {
      StartsIncreaseFrom(ws, i + 1, j);
    }
  }

  /** `EmbeddingService.chunk_text`: split `text` into overlapping chunks of at
      most `chunk_size` characters. A `chunkSize` or `overlap` of 0 stands for
      Python's `None`/`0` and is replaced by the configured default. The source
      does not check that the loop makes progress; `5 * overlap < 4 * size` is
      the condition under which it does. */
  method ChunkText(text: string, chunkSize: nat, overlap: nat, cfg: Config)
    returns (chunks: seq<string>, windows: seq<Window>)
    requires OrDefault(chunkSize, cfg.chunkSize) > 0
    requires 5 * OrDefault(overlap, cfg.chunkOverlap) < 4 * OrDefault(chunkSize, cfg.chunkSize)
    ensures var size := OrDefault(chunkSize, cfg.chunkSize);
            |text| <= size ==> chunks == [text] && windows == []
    ensures var size := OrDefault(chunkSize, cfg.chunkSize);
            var ov := OrDefault(overlap, cfg.chunkOverlap);
            |text| > size ==>
              && WindowWalk(text, size, ov, windows)
              && |chunks| == |windows|
              && forall k :: 0 <= k < |windows| ==>
                   windows[k].start < windows[k].end && chunks[k] == ChunkOf(text, windows[k])
    ensures forall k :: 0 <= k < |chunks| ==> |chunks[k]| <= OrDefault(chunkSize, cfg.chunkSize)
  {
    var size := OrDefault(chunkSize, cfg.chunkSize);
    var ov := OrDefault(overlap, cfg.chunkOverlap);
    if |text| <= size {
      return [text], [];
    }
    chunks, windows := Walk(text, size, ov);
  }

  /** The chunker's loop over a text longer than one window. */
  method Walk(text: string, size: nat, overlap: nat) returns (chunks: seq<string>, windows: seq<Window>)
    requires 0 < size < |text| && 5 * overlap < 4 * size
    ensures WindowWalk(text, size, overlap, windows)
    ensures |chunks| == |windows|
    ensures forall k :: 0 <= k < |windows| ==>
              windows[k].start < windows[k].end && chunks[k] == ChunkOf(text, windows[k])
    ensures forall k :: 0 <= k < |chunks| ==> |chunks[k]| <= size
  {
    chunks, windows := [], [];
    var start: nat := 0;
    while start < |text|
      invariant WalkSoFar(text, size, overlap, windows, chunks, start)
      decreases |text| - start
    {
      var chunk, end := CutWindow(text, size, start);
      WalkExtend(text, size, overlap, windows, chunks, start);
      assert Strip(chunk) == ChunkOf(text, Window(start, end));
      chunks := chunks + [Strip(chunk)];
      windows := windows + [Window(start, end)];
      start := end - overlap;
    }
    WalkFinished(text, size, overlap, windows, chunks, start);
  }

  /** The loop state of `Walk` after some iterations: the windows walked
      so far, their chunks, and the next start. */
  ghost predicate WalkSoFar(text: string, size: nat, overlap: nat, ws: seq<Window>, cs: seq<string>, start: nat)
    requires size > 0
  {
    WalkedAll(text, size, ws, cs) && Linked(overlap, ws, start)
  }

  /** Every window so far is a window of the walk, with its chunk. */
  ghost predicate WalkedAll(text: string, size: nat, ws: seq<Window>, cs: seq<string>)
    requires size > 0
  {
    && |cs| == |ws|
    && (forall k :: 0 <= k < |ws| ==> WalkedWindow(text, size, ws[k], cs[k]))
  }

  /** The windows so far start at 0, each next one `overlap` before the
      previous end, and `start` is `overlap` before the last end. */
  ghost predicate Linked(overlap: nat, ws: seq<Window>, start: nat) {
    && (|ws| == 0 ==> start == 0)
    && (|ws| > 0 ==> ws[0].start == 0 && start + overlap == ws[|ws| - 1].end)
    && (forall k :: 0 <= k < |ws| - 1 ==> ws[k + 1].start + overlap == ws[k].end)
  }

  /** One more iteration of the chunker keeps the loop state and moves the
      start forward. */
  lemma WalkExtend(text: string, size: nat, overlap: nat, ws: seq<Window>, cs: seq<string>, start: nat)
    requires size > 0 && 5 * overlap < 4 * size
    requires start < |text|
    requires WalkSoFar(text, size, overlap, ws, cs, start)
    ensures var w := Window(start, WindowEnd(text, size, start));
            && w.end - overlap > start
            && WalkSoFar(text, size, overlap, ws + [w], cs + [ChunkOf(text, w)], w.end - overlap)
  {
    var w := Window(start, WindowEnd(text, size, start));
    WindowAdvances(text, size, overlap, start);
    WalkedExtend(text, size, ws, cs, start);
    LinkedExtend(overlap, ws, start, w.end);
  }

  lemma WalkedExtend(text: string, size: nat, ws: seq<Window>, cs: seq<string>, start: nat)
    requires size > 0 && start < |text|
    requires WalkedAll(text, size, ws, cs)
    ensures var w := Window(start, WindowEnd(text, size, start));
            WalkedAll(text, size, ws + [w], cs + [ChunkOf(text, w)])
  {
    var w := Window(start, WindowEnd(text, size, start));
    var ws' := ws + [w];
    var cs' := cs + [ChunkOf(text, w)];
    forall k | 0 <= k < |ws'|
      ensures WalkedWindow(text, size, ws'[k], cs'[k])
    {
      if k < |ws| {
        assert ws'[k] == ws[k] && cs'[k] == cs[k];
      }
    }
  }

  lemma LinkedExtend(overlap: nat, ws: seq<Window>, start: nat, end: nat)
    requires Linked(overlap, ws, start)
    requires end >= overlap
    ensures Linked(overlap, ws + [Window(start, end)], end - overlap)
  {
    var w := Window(start, end);
    var ws' := ws + [w];
    forall k | 0 <= k < |ws'| - 1
      ensures ws'[k + 1].start + overlap == ws'[k].end
    {
      if k + 1 < |ws| {
        assert ws'[k + 1] == ws[k + 1] && ws'[k] == ws[k];
      } else {
        assert k == |ws| - 1;
        assert ws'[k] == ws[k] && ws'[k + 1] == w;
      }
    }
    assert ws'[0].start == 0;
  }

  /** When the start has passed the end of the text, the windows walked form a
      complete walk and every chunk fits in one window. */
  lemma WalkFinished(text: string, size: nat, overlap: nat, ws: seq<Window>, cs: seq<string>, start: nat)
    requires size > 0 && |text| > 0
    requires start >= |text|
    requires WalkSoFar(text, size, overlap, ws, cs, start)
    ensures WindowWalk(text, size, overlap, ws)
    ensures forall k :: 0 <= k < |ws| ==> ws[k].start < ws[k].end && cs[k] == ChunkOf(text, ws[k])
    ensures forall k :: 0 <= k < |cs| ==> |cs[k]| <= size
  {
    forall k | 0 <= k < |cs|
      ensures |cs[k]| <= size
    {
      assert WalkedWindow(text, size, ws[k], cs[k]);
    }
  }

  /** `w` is a window of the walk over `text` and `c` the chunk cut from it. */
  ghost predicate WalkedWindow(text: string, size: nat, w: Window, c: string)
    requires size > 0
  {
    && w.start < |text|
    && w.end == WindowEnd(text, size, w.start)
    && c == ChunkOf(text, w)
  }

  /** One pass of the chunker's loop body: the window slice, cut back to its
      last space when that keeps more than 80% of the window. */
  method CutWindow(text: string, size: nat, start: nat) returns (chunk: string, end: nat)
    requires size > 0 && start < |text|
    ensures end == WindowEnd(text, size, start)
    ensures chunk == text[start..Min(end, |text|)]
  {
    end := start + size;
    chunk := text[start..Min(end, |text|)];
    if end < |text| {
      var lastSpace := LastIndexOf(chunk, ' ');
      if 5 * lastSpace > 4 * size {
        chunk := chunk[..lastSpace];
        end := start + lastSpace;
        assert chunk == text[start..end];
      }
    }
  }

  /** The batch size `embed_texts` uses. */
  const BatchSize: nat := 100

  /** The batches `embed_texts` sends: `texts[i:i + 100]` for `i` in
      `range(0, len(texts), 100)`. */
  method SliceBatches<T>(texts: seq<T>) returns (batches: seq<seq<T>>)
    ensures |batches| == (|texts| + BatchSize - 1) / BatchSize
    ensures forall k :: 0 <= k < |batches| ==>
              batches[k] == texts[k * BatchSize..Min(k * BatchSize + BatchSize, |texts|)]
    ensures forall k :: 0 <= k < |batches| ==> 0 < |batches[k]| <= BatchSize
    ensures Flatten(batches) == texts
  {
    batches := [];
    var i := 0;
    while i < |texts|
      invariant i == |batches| * BatchSize
      invariant i < |texts| + BatchSize
      invariant forall k :: 0 <= k < |batches| ==>
                  batches[k] == texts[k * BatchSize..Min(k * BatchSize + BatchSize, |texts|)]
      invariant Flatten(batches) == texts[..Min(i, |texts|)]
      decreases |texts| - i
    {
      var batch := texts[i..Min(i + BatchSize, |texts|)];
      FlattenSnoc(batches, batch);
      assert texts[..Min(i + BatchSize, |texts|)] == texts[..i] + batch;
      batches := batches + [batch];
      i := i + BatchSize;
    }
    assert texts[..|texts|] == texts;
  }

  lemma {:induction false} FlattenSnoc<T>(ss: seq<seq<T>>, s: seq<T>)
    ensures Flatten(ss + [s]) == Flatten(ss) + s
    decreases |ss|
  {
    if |ss| == 0 {
      assert Flatten([s]) == s + Flatten([]);
    } else {
      assert (ss + [s])[1..] == ss[1..] + [s];
      FlattenSnoc(ss[1..], s);
    }
  }

  /** `embed_texts`: one embedding per text, in input order, produced batch by
      batch. `embed` stands for the embedding model; a failing request is
      left out (the source re-raises it). */
  method EmbedTexts<V>(texts: seq<string>, embed: string -> V) returns (vectors: seq<V>)
    ensures |vectors| == |texts|
    ensures forall k :: 0 <= k < |texts| ==> vectors[k] == embed(texts[k])
  {
    var batches := SliceBatches(texts);
    vectors := [];
    var b := 0;
    while b < |batches|
      invariant b <= |batches|
      invariant |vectors| == Min(b * BatchSize, |texts|)
      invariant forall k :: 0 <= k < |vectors| ==> vectors[k] == embed(texts[k])
    {
      var batch := batches[b];
      var response := seq(|batch|, j requires 0 <= j < |batch| => embed(batch[j]));
      vectors := vectors + response;
      b := b + 1;
    }
  }
}
