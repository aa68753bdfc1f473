/**
  What the ingestion loop guarantees across files and across runs: the
  requests one file costs, that a file already in the store is not looked
  at again, where every stored point comes from, and that running the
  ingestion a second time over the same files adds nothing.
*/
module IngestProperties {
  import opened Wrappers
  import opened Documents
  import opened ChunkIds
  import opened VectorStore
  import opened Ingest

  /** The chunks of `path` carry no `sha256` key of their own, so the
      payload keeps the file hash (`**chunk.metadata` would override it). */
  predicate NoHashOverride(env: Env, path: string) {
    match env.load(path)
    case None => true
    case Some(pages) =>
      var chunks := env.split(CleanAll(pages));
      forall i :: 0 <= i < |chunks| ==> "sha256" !in chunks[i].metadata
  }

  predicate NoHashOverrides(env: Env, paths: seq<string>) {
    forall i :: 0 <= i < |paths| ==> NoHashOverride(env, paths[i])
  }

  /** One file costs one scroll with limit 1 for its hash, then at most one
      upsert: with `wait=True`, with at least one point, and only when the
      hash was not found and the file produced points. */
  lemma StepRequests(env: Env, s: StoreState, path: string)
    ensures var r := FileStep(env, s, path).store.requests;
      var found := HashExists(ScrollResult(s, FileHash(env, path), 1));
      var work := FileWork(env, path, FileHash(env, path));
      && |s.requests| < |r| <= |s.requests| + 2
      && r[..|s.requests|] == s.requests
      && r[|s.requests|] == Scroll(FileHash(env, path), 1)
      && (|r| == |s.requests| + 2 <==> !found && work.Prepared?)
      && (|r| == |s.requests| + 2 ==> r[|s.requests| + 1] == Upsert(work.points, true) && work.points != [])
  {
  }

  /** A file whose hash is found is skipped: the step is the scroll alone,
      whatever the loader, splitter and embedder would have done. */
  lemma SkipIgnoresContent(env: Env, other: Env, s: StoreState, path: string)
    requires other.content == env.content && other.digest == env.digest
    requires HashExists(ScrollResult(s, FileHash(env, path), 1))
    ensures FileStep(other, s, path) == FileStep(env, s, path)
    ensures FileStep(env, s, path) == Done(AfterScroll(s, FileHash(env, path), 1))
  {
  }

  /** A file that splits into no chunks is passed over without an upsert
      and without asking the embedder. */
  lemma NoChunksNoUpsert(env: Env, s: StoreState, path: string, pages: seq<Doc>)
    requires env.load(path) == Some(pages) && env.split(CleanAll(pages)) == []
    ensures FileStep(env, s, path) == Done(AfterScroll(s, FileHash(env, path), 1))
  {
  }

  /** A step keeps the collection's existence and size and only appends
      points; an aborted step appends none. */
  lemma StepExtends(env: Env, s: StoreState, path: string)
    ensures FileStep(env, s, path).store.present == s.present
    ensures FileStep(env, s, path).store.size == s.size
    ensures s.points <= FileStep(env, s, path).store.points
    ensures FileStep(env, s, path).Aborted? ==> FileStep(env, s, path).store.points == s.points
  {
  }

  lemma {:induction false} RunExtends(env: Env, s: StoreState, paths: seq<string>)
    ensures Run(env, s, paths).store.present == s.present
    ensures Run(env, s, paths).store.size == s.size
    ensures s.points <= Run(env, s, paths).store.points
    decreases |paths|
  {
    if paths != [] {
      StepExtends(env, s, paths[0]);
      if FileStep(env, s, paths[0]).Done? {
        RunExtends(env, FileStep(env, s, paths[0]).store, paths[1..]);
      }
    }
  }

  /** Without an override, every point prepared for a file carries the
      file's hash in `metadata.sha256`. */
  lemma PreparedCarryHash(env: Env, path: string, fileHash: string)
    requires NoHashOverride(env, path) && FileWork(env, path, fileHash).Prepared?
    ensures forall k :: 0 <= k < |FileWork(env, path, fileHash).points| ==>
      HasHash(FileWork(env, path, fileHash).points[k], fileHash)
  {
    var pages := env.load(path).value;
    var chunks := env.split(CleanAll(pages));
    var chunksWithIds := AssignIds(chunks);
    var embeddings := env.embed(Texts(chunksWithIds)).value;
    assert FileWork(env, path, fileHash).points == Points(fileHash, chunksWithIds, embeddings);
    AssignIdsAt(chunks, 0);
    forall k | 0 <= k < |chunksWithIds|
      ensures "sha256" !in chunksWithIds[k].metadata
    {
      AssignIdsAt(chunks, k);
      WithIdChanges(chunks[k], ChunkIndex(Keys(chunks), k));
    }
    PointsCarryHash(fileHash, chunksWithIds, embeddings);
  }

  /** Points built from chunks without a `sha256` key carry the file hash. */
  lemma PointsCarryHash(fileHash: string, chunks: seq<Doc>, embeddings: seq<seq<real>>)
    requires forall k :: 0 <= k < |chunks| ==> "sha256" !in chunks[k].metadata
    ensures forall k :: 0 <= k < |Points(fileHash, chunks, embeddings)| ==>
      HasHash(Points(fileHash, chunks, embeddings)[k], fileHash)
  {
    forall k | 0 <= k < |Points(fileHash, chunks, embeddings)|
      ensures HasHash(Points(fileHash, chunks, embeddings)[k], fileHash)
    {
      PointAt(fileHash, chunks, embeddings, k);
    }
  }

  /** A store that holds every point of a smaller one, with the same
      existence flag, finds every hash the smaller one finds. */
  lemma FoundStaysFound(s: StoreState, t: StoreState, fileHash: string)
    requires s.points <= t.points && s.present == t.present
    ensures HashExists(ScrollResult(s, fileHash, 1)) ==> HashExists(ScrollResult(t, fileHash, 1))
  {
    HashExistsIff(s, fileHash);
    HashExistsIff(t, fileHash);
    if HashExists(ScrollResult(s, fileHash, 1)) {
      var k :| 0 <= k < |s.points| && HasHash(s.points[k], fileHash);
      assert t.points[k] == s.points[k];
    }
  }

  /** If the first run stored points for a file, a store holding all of
      the first run's points finds the file's hash. */
  lemma StoredPointsAreFound(env: Env, s: StoreState, t: StoreState, paths: seq<string>)
    requires paths != [] && NoHashOverride(env, paths[0])
    requires t.points == Run(env, s, paths).store.points && t.present == s.present
    ensures var fileHash := FileHash(env, paths[0]);
      var work := FileWork(env, paths[0], fileHash);
      var scrolled := AfterScroll(s, fileHash, 1);
      work.Prepared? && Accepts(scrolled, work.points) ==> HashExists(ScrollResult(t, fileHash, 1))
  {
    var fileHash := FileHash(env, paths[0]);
    var work := FileWork(env, paths[0], fileHash);
    var scrolled := AfterScroll(s, fileHash, 1);
    if work.Prepared? && Accepts(scrolled, work.points) && !HashExists(ScrollResult(s, fileHash, 1)) {
      var first := FileStep(env, s, paths[0]).store;
      assert first.points == s.points + work.points;
      RunExtends(env, first, paths[1..]);
      PreparedCarryHash(env, paths[0], fileHash);
      assert t.points[|s.points|] == work.points[0];
      HashExistsIff(t, fileHash);
    } else if work.Prepared? && Accepts(scrolled, work.points) {
      RunExtends(env, s, paths);
      FoundStaysFound(s, t, fileHash);
    }
  }

  /** The second run, started from any store holding exactly the first
      run's points (and the same collection), adds nothing. */
  lemma {:induction false} RerunFrom(env: Env, s: StoreState, t: StoreState, paths: seq<string>)
    requires NoHashOverrides(env, paths)
    requires t.points == Run(env, s, paths).store.points
    requires t.present == s.present && t.size == s.size
    ensures Run(env, t, paths).store.points == t.points
    decreases |paths|
  {
    if paths != [] {
      var path := paths[0];
      var fileHash := FileHash(env, path);
      RunExtends(env, s, paths);
      FoundStaysFound(s, t, fileHash);
      StoredPointsAreFound(env, s, t, paths);
      var first := FileStep(env, s, path);
      var second := FileStep(env, t, path);
      if first.Done? {
        assert second.Done? && second.store.points == t.points;
        RerunFrom(env, first.store, second.store, paths[1..]);
      }
    }
  }

  /** Running `ingest_pdf_files` again over the same files, against the
      store the first run left, adds no point: every file that stored
      points is now found by its hash, and every other file does again
      what it did before. */
  lemma RerunAddsNothing(env: Env, s: StoreState, paths: seq<string>)
    requires NoHashOverrides(env, paths)
    ensures var first := Run(env, s, paths).store;
      Run(env, first, paths).store.points == first.points
  {
    RunExtends(env, s, paths);
    RerunFrom(env, s, Run(env, s, paths).store, paths);
  }

  /** `point` carries the hash of one of `paths`. */
  predicate FromFiles(env: Env, point: Point, paths: seq<string>) {
    exists i :: 0 <= i < |paths| && HasHash(point, FileHash(env, paths[i]))
  }

  /** The points one step adds have the collection's vector size and the
      hash of the step's file. */
  lemma StepAddsOwnPoints(env: Env, s: StoreState, path: string)
    requires NoHashOverride(env, path)
    ensures var points := FileStep(env, s, path).store.points;
      forall k :: |s.points| <= k < |points| ==>
        |points[k].vector| == s.size && HasHash(points[k], FileHash(env, path))
  {
    var work := FileWork(env, path, FileHash(env, path));
    if work.Prepared? {
      PreparedCarryHash(env, path, FileHash(env, path));
    }
  }

  /** Every point a run adds has the collection's vector size and carries
      the hash of one of the files of the run. */
  lemma {:induction false} AddedPointsProvenance(env: Env, s: StoreState, paths: seq<string>)
    requires NoHashOverrides(env, paths)
    ensures var points := Run(env, s, paths).store.points;
      forall k :: |s.points| <= k < |points| ==>
        |points[k].vector| == s.size && FromFiles(env, points[k], paths)
    decreases |paths|
  {
    if paths != [] {
      var first := FileStep(env, s, paths[0]);
      StepExtends(env, s, paths[0]);
      StepAddsOwnPoints(env, s, paths[0]);
      if first.Done? {
        AddedPointsProvenance(env, first.store, paths[1..]);
        RunExtends(env, first.store, paths[1..]);
        var points := Run(env, s, paths).store.points;
        forall k | |s.points| <= k < |points|
          ensures |points[k].vector| == s.size && FromFiles(env, points[k], paths)
        {
          if k < |first.store.points| {
            assert points[k] == first.store.points[k];
            assert HasHash(points[k], FileHash(env, paths[0]));
          } else {
            var i :| 0 <= i < |paths[1..]| && HasHash(points[k], FileHash(env, paths[1..][i]));
            assert paths[1..][i] == paths[i + 1];
          }
        }
      }
    }
  }

  /** After `ingest_documents`, the collection holds only points from this
      run: each has the configured vector size and the hash of a listed file. */
  lemma FreshIngestPoints(env: Env, before: StoreState, walk: seq<WalkEntry>, vectorSize: nat)
    requires NoHashOverrides(env, PdfFiles(walk))
    ensures var points := Run(env, AfterCreate(AfterDelete(before), vectorSize), PdfFiles(walk)).store.points;
      forall k :: 0 <= k < |points| ==>
        |points[k].vector| == vectorSize
        && FromFiles(env, points[k], PdfFiles(walk))
  {
    AddedPointsProvenance(env, AfterCreate(AfterDelete(before), vectorSize), PdfFiles(walk));
  }

  /** Every point a step appends has the collection's vector size: an
      upsert with a vector of another size is refused. */
  lemma StepSizes(env: Env, s: StoreState, path: string)
    ensures var points := FileStep(env, s, path).store.points;
      forall k :: |s.points| <= k < |points| ==> |points[k].vector| == s.size
  {
  }

  /** Every point a run appends has the collection's vector size, whatever
      metadata the splitter gives the chunks. */
  lemma {:induction false} RunSizes(env: Env, s: StoreState, paths: seq<string>)
    ensures var points := Run(env, s, paths).store.points;
      forall k :: |s.points| <= k < |points| ==> |points[k].vector| == s.size
    decreases |paths|
  {
    if paths != [] {
      var first := FileStep(env, s, paths[0]);
      StepExtends(env, s, paths[0]);
      StepSizes(env, s, paths[0]);
      if first.Done? {
        RunSizes(env, first.store, paths[1..]);
        RunExtends(env, first.store, paths[1..]);
        var points := Run(env, s, paths).store.points;
        forall k | |s.points| <= k < |first.store.points|
          ensures |points[k].vector| == s.size
        {
          assert points[k] == first.store.points[k];
        }
      }
    }
  }

  /** With the default `VECTOR_SIZE` of `pipeline/config.py`, every point in
      the collection after `ingest_documents` has 384 components. */
  lemma DefaultSizeIngestPoints(env: Env, before: StoreState, walk: seq<WalkEntry>)
    ensures var points := Run(env, AfterCreate(AfterDelete(before), DefaultVectorSize), PdfFiles(walk)).store.points;
      forall k :: 0 <= k < |points| ==> |points[k].vector| == 384
  {
    RunSizes(env, AfterCreate(AfterDelete(before), DefaultVectorSize), PdfFiles(walk));
  }
}
