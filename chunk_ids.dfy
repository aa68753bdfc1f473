/**
  `calculate_chunk_ids`: a left-to-right walk over the chunks of one file
  that writes `id = filename:page:index` into each chunk's metadata, where
  the index counts the chunks seen so far on the same `filename:page` and
  restarts at 0 whenever that key changes.
*/
module ChunkIds {
  import opened Wrappers
  import opened Text
  import opened Documents

  /** The walk needs a string `source`: `os.path.basename(None)` raises. */
  predicate HasSource(m: Metadata) {
    "source" in m && m["source"].Str?
  }

  predicate AllSourced(docs: seq<Doc>) {
    SourcedUpTo(docs, |docs|)
  }

  /** The first `n` chunks have a string `source`. */
  predicate SourcedUpTo(docs: seq<Doc>, n: nat) {
    n <= |docs| && forall i :: 0 <= i < n ==> HasSource(docs[i].metadata)
  }

  /** `metadata.get("page")`. */
  function PageOf(m: Metadata): Value {
    if "page" in m then m["page"] else Null
  }

  function FileName(m: Metadata): string
    requires HasSource(m)
  {
    Basename(m["source"].s)
  }

  /** `current_page_id`: `f"{filename}:{page}"` (the empty string for a
      chunk without a source, which the walk never gets past). */
  function PageKey(m: Metadata): string {
    if HasSource(m) then FileName(m) + ":" + Render(PageOf(m)) else ""
  }

  /** The page keys of the chunks, in order. */
  function Keys(docs: seq<Doc>): (r: seq<string>)
    ensures |r| == |docs|
  {
    if docs == [] then [] else Keys(docs[..|docs| - 1]) + [PageKey(docs[|docs| - 1].metadata)]
  }

  lemma {:induction false} KeyAt(docs: seq<Doc>, i: nat)
    requires i < |docs|
    ensures Keys(docs)[i] == PageKey(docs[i].metadata)
  {
    if i < |docs| - 1 {
      KeyAt(docs[..|docs| - 1], i);
    }
  }

  /** `f"{page_id}:{index}"`. */
  function ChunkId(pageKey: string, index: nat): string {
    pageKey + ":" + NatToString(index)
  }

  /** The index the walk gives chunk `i`: 0 for the first chunk and after a
      change of page key, one more than the previous chunk's otherwise. */
  function ChunkIndex(keys: seq<string>, i: nat): nat
    requires i < |keys|
  {
    if i == 0 || keys[i] != keys[i - 1] then 0 else ChunkIndex(keys, i - 1) + 1
  }

  /** A chunk after the walk has visited it with index `index`. */
  function WithId(d: Doc, index: nat): Doc
    requires HasSource(d.metadata)
  {
    var m := d.metadata;
    Doc(d.content, m["id" := Str(ChunkId(PageKey(m), index))]
                    ["filename" := Str(FileName(m))]
                    ["page" := PageOf(m)])
  }

  /** What the walk does to one chunk: the text is kept, three keys are set
      (`id`, `filename`, and `page`, which keeps its value when present and
      becomes `None` otherwise) and every other key keeps its value. */
  lemma WithIdChanges(d: Doc, index: nat)
    requires HasSource(d.metadata)
    ensures WithId(d, index).content == d.content
    ensures WithId(d, index).metadata.Keys == d.metadata.Keys + {"id", "filename", "page"}
    ensures WithId(d, index).metadata["id"]
         == Str(FileName(d.metadata) + ":" + Render(PageOf(d.metadata)) + ":" + NatToString(index))
    ensures WithId(d, index).metadata["filename"] == Str(FileName(d.metadata))
    ensures "page" in d.metadata ==> WithId(d, index).metadata["page"] == d.metadata["page"]
    ensures "page" !in d.metadata ==> WithId(d, index).metadata["page"] == Null
    ensures forall k :: k in d.metadata && k !in {"id", "filename", "page"} ==>
              WithId(d, index).metadata[k] == d.metadata[k]
  {
  }

  /** The first `n` chunks after the walk, each with the index the walk
      gives it under the page keys `keys`. */
  function Visited(docs: seq<Doc>, keys: seq<string>, n: nat): (r: seq<Doc>)
    requires n <= |docs| == |keys| && SourcedUpTo(docs, n)
    ensures |r| == n
  {
    if n == 0 then [] else Visited(docs, keys, n - 1) + [WithId(docs[n - 1], ChunkIndex(keys, n - 1))]
  }

  /** The chunks after `calculate_chunk_ids`. */
  function AssignIds(docs: seq<Doc>): seq<Doc>
    requires AllSourced(docs)
  {
    Visited(docs, Keys(docs), |docs|)
  }

  lemma {:induction false} VisitedAt(docs: seq<Doc>, keys: seq<string>, n: nat, j: nat)
    requires n <= |docs| == |keys| && SourcedUpTo(docs, n) && j < n
    ensures Visited(docs, keys, n)[j] == WithId(docs[j], ChunkIndex(keys, j))
  {
    VisitedLast(docs, keys, n);
    if j < n - 1 {
      VisitedAt(docs, keys, n - 1, j);
    }
    SnocAt(Visited(docs, keys, n), Visited(docs, keys, n - 1),
           WithId(docs[n - 1], ChunkIndex(keys, n - 1)), j, WithId(docs[j], ChunkIndex(keys, j)));
  }

  /** One unfolding of `Visited`. */
  lemma VisitedLast(docs: seq<Doc>, keys: seq<string>, n: nat)
    requires 0 < n <= |docs| == |keys| && SourcedUpTo(docs, n)
    ensures SourcedUpTo(docs, n - 1) && HasSource(docs[n - 1].metadata)
    ensures Visited(docs, keys, n) == Visited(docs, keys, n - 1) + [WithId(docs[n - 1], ChunkIndex(keys, n - 1))]
  {
  }

  /** Element `j` of `front + [x]` is `y` when it is `y` in whichever part
      holds it. */
  lemma SnocAt<T>(s: seq<T>, front: seq<T>, x: T, j: nat, y: T)
    requires s == front + [x] && j < |s|
    requires j < |front| ==> front[j] == y
    requires j == |front| ==> x == y
    ensures s[j] == y
  {
  }

  /** Chunk `i` after the walk: its own content and metadata with the id
      built from its page key and its index. */
  lemma AssignIdsAt(docs: seq<Doc>, i: nat)
    requires AllSourced(docs) && i < |docs|
    ensures |AssignIds(docs)| == |docs|
    ensures AssignIds(docs)[i] == WithId(docs[i], ChunkIndex(Keys(docs), i))
  {
    VisitedAt(docs, Keys(docs), |docs|, i);
  }

  /** One step of the walk: the index it computes from the previous page key
      and index is the one `ChunkIndex` assigns. */
  lemma IndexStep(keys: seq<string>, i: nat, last: Option<string>, prev: int)
    requires i < |keys|
    requires i == 0 ==> last == None
    requires i > 0 ==> last == Some(keys[i - 1]) && prev == ChunkIndex(keys, i - 1)
    ensures (if last == Some(keys[i]) then prev + 1 else 0) == ChunkIndex(keys, i)
  {
  }

  /** The state of the walk before chunk `i`: the chunks in front of it
      carry their ids, the others are as they were, and `last`/`prev` are
      the page key and index of chunk `i - 1`. */
  ghost predicate Walked(before: seq<Doc>, now: seq<Doc>, keys: seq<string>, i: nat,
                         last: Option<string>, prev: int) {
    && |now| == |before| == |keys| && i <= |before|
    && SourcedUpTo(before, i)
    && now[..i] == Visited(before, keys, i)
    && now[i..] == before[i..]
    && (i == 0 ==> last == None)
    && (i > 0 ==> last == Some(keys[i - 1]) && prev == ChunkIndex(keys, i - 1))
  }

  lemma UpdateAt<T>(s: seq<T>, i: nat, x: T)
    requires i < |s|
    ensures s[i := x][..i + 1] == s[..i] + [x]
    ensures s[i := x][i + 1..] == s[i + 1..]
  {
  }

  lemma SuffixHead<T>(s: seq<T>, t: seq<T>, i: nat)
    requires i < |s| == |t| && s[i..] == t[i..]
    ensures s[i] == t[i] && s[i + 1..] == t[i + 1..]
  {
    assert s[i] == s[i..][0];
    assert s[i + 1..] == s[i..][1..];
    assert t[i + 1..] == t[i..][1..];
  }

  /** Visiting chunk `i` of a walk in progress, with the index computed
      from the previous page key, moves the walk on to chunk `i + 1`. */
  lemma WalkStep(before: seq<Doc>, now: seq<Doc>, keys: seq<string>, i: nat,
                 last: Option<string>, prev: int, pageId: string, index: int)
    requires Walked(before, now, keys, i, last, prev) && i < |before| && keys == Keys(before)
    requires HasSource(now[i].metadata) && pageId == PageKey(now[i].metadata)
    requires index == if last == Some(pageId) then prev + 1 else 0
    ensures index >= 0 && now[i] == before[i]
    ensures Walked(before, now[i := WithId(now[i], index)], keys, i + 1, Some(pageId), index)
  {
    SuffixHead(now, before, i);
    KeyAt(before, i);
    IndexStep(keys, i, last, prev);
    UpdateAt(now, i, WithId(now[i], index));
  }

  /** `calculate_chunk_ids(chunks)`, rewriting the chunk list in place. It
      returns false where the Python code raises, at the first chunk without
      a string `source`; the run is then over and the chunks are not looked
      at again. */
  method CalculateChunkIds(chunks: array<Doc>) returns (ok: bool)
    modifies chunks
    ensures ok == AllSourced(old(chunks[..]))
    ensures ok ==> chunks[..] == AssignIds(old(chunks[..]))
  {
    ghost var before := chunks[..];
    ghost var keys := Keys(before);
    var lastPageId: Option<string> := None;
    var currentChunkIndex := 0;
    var i := 0;
    while i < chunks.Length
      invariant Walked(before, chunks[..], keys, i, lastPageId, currentChunkIndex)
    {
      var chunk := chunks[i];
      var meta := chunk.metadata;
      if !HasSource(meta) {
        assert before[i] == chunk && !HasSource(before[i].metadata);
        return false;
      }
      var filename := FileName(meta);
      var page := PageOf(meta);
      var currentPageId := PageKey(meta);
      ghost var previousIndex := currentChunkIndex;
      if lastPageId == Some(currentPageId) {
        currentChunkIndex := currentChunkIndex + 1;
      } else {
        currentChunkIndex := 0;
      }
      ghost var now := chunks[..];
      WalkStep(before, now, keys, i, lastPageId, previousIndex, currentPageId, currentChunkIndex);
      var chunkId := ChunkId(currentPageId, currentChunkIndex);
      lastPageId := Some(currentPageId);
      var visited := Doc(chunk.content, meta["id" := Str(chunkId)]["filename" := Str(filename)]["page" := page]);
      assert visited == WithId(now[i], currentChunkIndex);
      chunks[i] := visited;
      i := i + 1;
    }
    assert chunks[..] == chunks[..i];
    return true;
  }

  /** Within a maximal run of chunks sharing one page key, starting at
      `start`, the indices are 0, 1, 2, ... */
  lemma {:induction false} IndexWithinRun(keys: seq<string>, start: nat, i: nat)
    requires start <= i < |keys|
    requires start == 0 || keys[start] != keys[start - 1]
    requires forall j :: start <= j <= i ==> keys[j] == keys[start]
    ensures ChunkIndex(keys, i) == i - start
  {
    if i > start {
      IndexWithinRun(keys, start, i - 1);
    }
  }

  /** The last `:` of an id is the one in front of its index. */
  lemma LastColon(k: string, d: string)
    requires ':' !in d
    ensures LastIndexOf(k + ":" + d, ':') == |k|
  {
    var s := k + ":" + d;
    var i := LastIndexOf(s, ':');
    assert s[|k|] == ':';
  }

  /** An id splits back into its page key and its index: the index is the
      digit string after the last `:`. */
  lemma ChunkIdInjective(k1: string, i1: nat, k2: string, i2: nat)
    requires ChunkId(k1, i1) == ChunkId(k2, i2)
    ensures k1 == k2 && i1 == i2
  {
    var d1, d2 := NatToString(i1), NatToString(i2);
    var s := ChunkId(k1, i1);
    assert ':' !in d1 && ':' !in d2 by {
      assert !IsDigit(':');
    }
    LastColon(k1, d1);
    LastColon(k2, d2);
    assert |k1| == |k2|;
    assert k1 == s[..|k1|] == k2;
    assert d1 == s[|k1| + 1..] == d2;
    NatToStringInjective(i1, i2);
  }

  /** Each page's chunks come together: no page key comes back after
      another one. */
  predicate Grouped(keys: seq<string>) {
    forall i, j, k :: 0 <= i < j < k < |keys| && keys[i] == keys[k] ==> keys[j] == keys[i]
  }

  /** Along a stretch of one page key the index goes up by one per chunk. */
  lemma {:induction false} IndexAdvances(keys: seq<string>, i: nat, j: nat)
    requires i <= j < |keys|
    requires forall k :: i <= k <= j ==> keys[k] == keys[i]
    ensures ChunkIndex(keys, j) == ChunkIndex(keys, i) + (j - i)
  {
    if j > i {
      IndexAdvances(keys, i, j - 1);
    }
  }

  /** The id the walk writes into chunk `i`: its page key and its index. */
  function IdAt(docs: seq<Doc>, i: nat): string
    requires AllSourced(docs) && i < |docs|
  {
    ChunkId(Keys(docs)[i], ChunkIndex(Keys(docs), i))
  }

  /** After the walk chunk `i` carries `IdAt(docs, i)` as its `id`. */
  lemma IdOf(docs: seq<Doc>, i: nat)
    requires AllSourced(docs) && i < |docs|
    ensures |AssignIds(docs)| == |docs|
    ensures "id" in AssignIds(docs)[i].metadata && AssignIds(docs)[i].metadata["id"] == Str(IdAt(docs, i))
  {
    KeyAt(docs, i);
    AssignIdsAt(docs, i);
  }

  /** Two chunks of one page, when pages come together, have different
      indices. */
  lemma GroupedIndicesDiffer(keys: seq<string>, i: nat, j: nat)
    requires Grouped(keys) && i < j < |keys| && keys[i] == keys[j]
    ensures ChunkIndex(keys, i) != ChunkIndex(keys, j)
  {
    assert forall k :: i <= k <= j ==> keys[k] == keys[i];
    IndexAdvances(keys, i, j);
  }

  /** When each page's chunks come together, which is how the loader and the
      splitter emit one file, every chunk gets a different id. */
  lemma DistinctIds(docs: seq<Doc>, i: nat, j: nat)
    requires AllSourced(docs) && Grouped(Keys(docs))
    requires i < j < |docs|
    ensures IdAt(docs, i) != IdAt(docs, j)
  {
    var keys := Keys(docs);
    var xi, xj := ChunkIndex(keys, i), ChunkIndex(keys, j);
    if ChunkId(keys[i], xi) == ChunkId(keys[j], xj) {
      ChunkIdInjective(keys[i], xi, keys[j], xj);
      GroupedIndicesDiffer(keys, i, j);
      assert false;
    }
  }

  /** Without grouping ids can repeat: every chunk that starts a stretch of
      its page gets index 0, so a page met again after another page reuses
      the id of its first chunk. */
  lemma RevisitedPageRepeatsId(docs: seq<Doc>, i: nat, j: nat)
    requires AllSourced(docs) && i < j < |docs|
    requires Keys(docs)[i] == Keys(docs)[j]
    requires i == 0 || Keys(docs)[i - 1] != Keys(docs)[i]
    requires Keys(docs)[j - 1] != Keys(docs)[j]
    ensures IdAt(docs, i) == IdAt(docs, j)
  {
  }
}
