/**
  `pipeline/ingest_documents.py`: find the PDF files under a directory,
  hash each one, skip those whose hash the collection already holds, and
  turn the others into cleaned, split, identified and embedded chunks that
  are upserted as points.

  What lies outside the program becomes a parameter (`Env`): the bytes of
  each file, the SHA-256 digest, the PDF loader, the text splitter and the
  embedding model. A loader or embedder that raises is `None`; an exception
  ends the whole run.
*/
module Ingest {
  import opened Wrappers
  import opened Text
  import opened Documents
  import opened CleanText
  import opened ChunkIds
  import opened VectorStore

  newtype byte = x: int | 0 <= x < 256

  /** `f.read(4096)`: the block size of the hashing loop. */
  const BlockSize: nat := 4096

  /** The default of `VECTOR_SIZE` in `pipeline/config.py`. */
  const DefaultVectorSize: nat := 384

  // ---------------------------------------------------------------------
  // get_pdf_files

  /** One directory that `os.walk` visits: its path and its file names. */
  datatype WalkEntry = WalkEntry(root: string, files: seq<string>)

  /** `file.lower().endswith(".pdf")`. */
  predicate IsPdfName(name: string) {
    EndsWith(Lower(name), ".pdf")
  }

  /** The joined paths of the PDF names among `files`, in order. */
  function PdfIn(root: string, files: seq<string>): seq<string> {
    if files == [] then []
    else
      var last := files[|files| - 1];
      PdfIn(root, files[..|files| - 1]) + (if IsPdfName(last) then [JoinPath(root, last)] else [])
  }

  /** The PDF paths of the whole walk, directory by directory. */
  function PdfFiles(walk: seq<WalkEntry>): seq<string> {
    if walk == [] then []
    else
      var last := walk[|walk| - 1];
      PdfFiles(walk[..|walk| - 1]) + PdfIn(last.root, last.files)
  }

  method GetPdfFiles(walk: seq<WalkEntry>) returns (pdfFiles: seq<string>)
    ensures pdfFiles == PdfFiles(walk)
  {
    pdfFiles := [];
    for k := 0 to |walk|
      invariant pdfFiles == PdfFiles(walk[..k])
    {
      var root := walk[k].root;
      var files := walk[k].files;
      for j := 0 to |files|
        invariant pdfFiles == PdfFiles(walk[..k]) + PdfIn(root, files[..j])
      {
        if IsPdfName(files[j]) {
          pdfFiles := pdfFiles + [JoinPath(root, files[j])];
        }
        assert files[..j + 1][..j] == files[..j];
      }
      assert files[..|files|] == files;
      assert walk[..k + 1][..k] == walk[..k];
    }
    assert walk[..|walk|] == walk;
  }

  /** Every PDF name of a directory is listed. */
  lemma {:induction false} PdfInListed(root: string, files: seq<string>, j: nat)
    requires j < |files| && IsPdfName(files[j])
    ensures JoinPath(root, files[j]) in PdfIn(root, files)
  {
    if j < |files| - 1 {
      PdfInListed(root, files[..|files| - 1], j);
    }
  }

  /** Every listed path comes from a PDF name of the directory. */
  lemma {:induction false} PdfInOrigin(root: string, files: seq<string>, p: string) returns (j: nat)
    requires p in PdfIn(root, files)
    ensures j < |files| && IsPdfName(files[j]) && p == JoinPath(root, files[j])
  {
    var init := files[..|files| - 1];
    if p in PdfIn(root, init) {
      j := PdfInOrigin(root, init, p);
    } else {
      j := |files| - 1;
    }
  }

  /** The listing holds the joined path of every name whose lower-cased
      form ends in `.pdf`, in every directory of the walk. */
  lemma {:induction false} PdfFileListed(walk: seq<WalkEntry>, k: nat, j: nat)
    requires k < |walk| && j < |walk[k].files| && IsPdfName(walk[k].files[j])
    ensures JoinPath(walk[k].root, walk[k].files[j]) in PdfFiles(walk)
  {
    if k < |walk| - 1 {
      PdfFileListed(walk[..|walk| - 1], k, j);
    } else {
      PdfInListed(walk[k].root, walk[k].files, j);
    }
  }

  /** The listing holds nothing else: each path is the joined path of a
      PDF name of some directory of the walk (other names are skipped). */
  lemma {:induction false} PdfFileOrigin(walk: seq<WalkEntry>, p: string) returns (k: nat, j: nat)
    requires p in PdfFiles(walk)
    ensures k < |walk| && j < |walk[k].files|
    ensures IsPdfName(walk[k].files[j]) && p == JoinPath(walk[k].root, walk[k].files[j])
  {
    var init := walk[..|walk| - 1];
    var last := walk[|walk| - 1];
    if p in PdfFiles(init) {
      k, j := PdfFileOrigin(init, p);
    } else {
      k := |walk| - 1;
      j := PdfInOrigin(last.root, last.files, p);
    }
  }

  // ---------------------------------------------------------------------
  // calculate_sha256

  /** A file opened with `open(path, "rb")`: its bytes and the read position. */
  class ByteFile {
    const content: seq<byte>
    var pos: nat

    predicate Valid()
      reads this
    {
      pos <= |content|
    }

    constructor (content: seq<byte>)
      ensures this.content == content && pos == 0 && Valid()
    {
      this.content := content;
      pos := 0;
    }

    /** `f.read(n)`: the next `n` bytes, fewer at the end, none at end of file. */
    method Read(n: nat) returns (block: seq<byte>)
      requires Valid()
      modifies this
      ensures Valid()
      ensures pos == old(pos) + |block|
      ensures block == content[old(pos)..pos]
      ensures |block| == (if old(pos) + n <= |content| then n else |content| - old(pos))
    {
      var end := if pos + n <= |content| then pos + n else |content|;
      block := content[pos..end];
      pos := end;
    }
  }

  /** A `hashlib.sha256()` object: the bytes fed to it so far. The digest
      itself is the parameter `digest`. */
  class Sha256 {
    var data: seq<byte>

    constructor ()
      ensures data == []
    {
      data := [];
    }

    method Update(block: seq<byte>)
      modifies this
      ensures data == old(data) + block
    {
      data := data + block;
    }
  }

  /** The block loop hashes the whole file, whatever its length. */
  method CalculateSha256(content: seq<byte>, digest: seq<byte> -> string) returns (hex: string)
    ensures hex == digest(content)
  {
    var sha256Hash := new Sha256();
    var f := new ByteFile(content);
    var byteBlock := f.Read(BlockSize);
    while byteBlock != []
      invariant f.Valid() && f.content == content
      invariant |byteBlock| <= f.pos
      invariant sha256Hash.data + byteBlock == content[..f.pos]
      invariant byteBlock == [] ==> f.pos == |content|
      decreases |content| - f.pos + |byteBlock|
    {
      sha256Hash.Update(byteBlock);
      byteBlock := f.Read(BlockSize);
    }
    assert content[..f.pos] == content;
    hex := digest(sha256Hash.data);
  }

  // ---------------------------------------------------------------------
  // check_hash_exists

  /** `if response and response[0]: return len(response[0]) > 0`: the
      tuple is always truthy, its first part only when it is a non-empty
      list, so a failed scroll `(None, None)` answers no. */
  predicate HashExists(response: ScrollResponse) {
    response.points.Some? && response.points.value != []
  }

  method CheckHashExists(store: Store, fileHash: string) returns (found: bool)
    modifies store
    ensures found == HashExists(ScrollResult(old(store.State()), fileHash, 1))
    ensures store.State() == AfterScroll(old(store.State()), fileHash, 1)
  {
    var response := store.ScrollCollection(fileHash, 1);
    found := HashExists(response);
  }

  /** The check answers yes exactly when the collection exists and holds a
      point whose `metadata.sha256` is the hash. */
  lemma HashExistsIff(s: StoreState, hash: string)
    ensures HashExists(ScrollResult(s, hash, 1))
        <==> s.present && exists k :: 0 <= k < |s.points| && HasHash(s.points[k], hash)
  {
    if s.present && exists k :: 0 <= k < |s.points| && HasHash(s.points[k], hash) {
      var all := Matching(s.points, hash);
      assert all != [];
      assert ScrollResult(s, hash, 1).points.value == all[..1];
    }
  }

  // ---------------------------------------------------------------------
  // chunk_text

  function Cleaned(d: Doc): Doc {
    Doc(Clean(d.content), d.metadata)
  }

  /** The pages after the cleaning loop of `chunk_text`. */
  function CleanAll(pages: seq<Doc>): (r: seq<Doc>)
    ensures |r| == |pages|
  {
    MapSeq(pages, Cleaned)
  }

  /** `f` applied to every element of `xs`, in order. */
  function MapSeq<A, B>(xs: seq<A>, f: A -> B): seq<B> {
    seq(|xs|, i requires 0 <= i < |xs| => f(xs[i]))
  }

  lemma MapSeqSnoc<A, B>(xs: seq<A>, f: A -> B, i: nat)
    requires i < |xs|
    ensures MapSeq(xs[..i + 1], f) == MapSeq(xs[..i], f) + [f(xs[i])]
  {
    assert forall j :: 0 <= j < i ==> MapSeq(xs[..i + 1], f)[j] == MapSeq(xs[..i], f)[j];
  }

  /** The cleaning loop: every page text is replaced by its cleaned form. */
  method CleanPages(doc: array<Doc>)
    modifies doc
    ensures doc[..] == CleanAll(old(doc[..]))
  {
    ghost var before := doc[..];
    for i := 0 to doc.Length
      invariant doc[..i] == CleanAll(before[..i]) && doc[i..] == before[i..]
    {
      var document := doc[i];
      var cleaned := Doc(Clean(document.content), document.metadata);
      CleanStep(before, doc[..], i, cleaned);
      doc[i] := cleaned;
    }
    assert doc[..] == doc[..doc.Length];
  }

  lemma CleanAllSnoc(pages: seq<Doc>, i: nat)
    requires i < |pages|
    ensures CleanAll(pages[..i + 1]) == CleanAll(pages[..i]) + [Cleaned(pages[i])]
  {
    MapSeqSnoc(pages, Cleaned, i);
  }

  /** One page of the cleaning loop. */
  lemma CleanStep(before: seq<Doc>, now: seq<Doc>, i: nat, cleaned: Doc)
    requires i < |before| == |now|
    requires now[..i] == CleanAll(before[..i]) && now[i..] == before[i..]
    requires cleaned == Cleaned(now[i])
    ensures now[i := cleaned][..i + 1] == CleanAll(before[..i + 1])
    ensures now[i := cleaned][i + 1..] == before[i + 1..]
  {
    SuffixHead(now, before, i);
    UpdateAt(now, i, cleaned);
    CleanAllSnoc(before, i);
  }

  /** `chunk_text(doc)`: the pages are cleaned in place, then split. */
  method ChunkText(doc: array<Doc>, split: seq<Doc> -> seq<Doc>) returns (chunks: array<Doc>)
    modifies doc
    ensures doc[..] == CleanAll(old(doc[..]))
    ensures fresh(chunks) && chunks[..] == split(CleanAll(old(doc[..])))
  {
    CleanPages(doc);
    var pieces := split(doc[..]);
    chunks := new Doc[|pieces|](i requires 0 <= i < |pieces| => pieces[i]);
  }

  /** The splitter sees pages whose texts are already in normal form, and
      cleaning them again changes nothing. */
  lemma CleanAllNormal(pages: seq<Doc>, i: nat)
    requires i < |pages|
    ensures CleanAll(pages)[i].metadata == pages[i].metadata
    ensures Trimmed(CleanAll(pages)[i].content) && SingleSpaced(CleanAll(pages)[i].content)
    ensures NonSpace(CleanAll(pages)[i].content) == NonSpace(pages[i].content)
    ensures CleanAll(CleanAll(pages)) == CleanAll(pages)
  {
    assert CleanAll(pages)[i] == Cleaned(pages[i]);
    CleanNormalForm(pages[i].content);
    CleanKeepsNonSpace(pages[i].content);
    forall j | 0 <= j < |pages|
      ensures CleanAll(CleanAll(pages))[j] == CleanAll(pages)[j]
    {
      var once := CleanAll(pages);
      assert once[j] == Cleaned(pages[j]);
      assert CleanAll(once)[j] == Cleaned(once[j]);
      CleanIdempotent(pages[j].content);
    }
  }

  // ---------------------------------------------------------------------
  // The points of one file

  /** `{"sha256": file_hash, "type": "pdf", **chunk.metadata}`: the chunk's
      own keys win. */
  function PayloadMetadata(fileHash: string, m: Metadata): Metadata {
    map["sha256" := Str(fileHash), "type" := Str("pdf")] + m
  }

  function PointFor(fileHash: string, chunk: Doc, embedding: seq<real>): Point {
    Point(embedding, chunk.content, PayloadMetadata(fileHash, chunk.metadata))
  }

  function Min(a: nat, b: nat): nat {
    if a <= b then a else b
  }

  /** `zip(chunks_with_ids, embeddings)` turned into points. */
  function Points(fileHash: string, chunks: seq<Doc>, embeddings: seq<seq<real>>): (r: seq<Point>)
    ensures |r| == Min(|chunks|, |embeddings|)
  {
    seq(Min(|chunks|, |embeddings|), i requires 0 <= i < Min(|chunks|, |embeddings|) =>
      PointFor(fileHash, chunks[i], embeddings[i]))
  }

  method BuildPoints(fileHash: string, chunksWithIds: array<Doc>, embeddings: seq<seq<real>>)
    returns (points: seq<Point>)
    ensures points == Points(fileHash, chunksWithIds[..], embeddings)
  {
    points := [];
    var n := Min(chunksWithIds.Length, |embeddings|);
    for i := 0 to n
      invariant |points| == i
      invariant forall j :: 0 <= j < i ==> points[j] == PointFor(fileHash, chunksWithIds[j], embeddings[j])
    {
      points := points + [PointFor(fileHash, chunksWithIds[i], embeddings[i])];
    }
  }

  /** Point `i` pairs chunk `i` with embedding `i`: the vector is the
      embedding, the text the chunk's text, and the metadata has the hash
      and type `pdf` except where the chunk's own metadata overrides them. */
  lemma PointAt(fileHash: string, chunks: seq<Doc>, embeddings: seq<seq<real>>, i: nat)
    requires i < |chunks| && i < |embeddings|
    ensures i < |Points(fileHash, chunks, embeddings)|
    ensures var p := Points(fileHash, chunks, embeddings)[i];
      && p.vector == embeddings[i] && p.text == chunks[i].content
      && p.metadata.Keys == chunks[i].metadata.Keys + {"sha256", "type"}
      && (forall k :: k in chunks[i].metadata ==> p.metadata[k] == chunks[i].metadata[k])
      && ("sha256" !in chunks[i].metadata ==> p.metadata["sha256"] == Str(fileHash))
      && ("type" !in chunks[i].metadata ==> p.metadata["type"] == Str("pdf"))
  {
  }

  // ---------------------------------------------------------------------
  // One file, and the whole run

  /** What the program takes from outside itself. */
  datatype Env = Env(
    content: string -> seq<byte>,
    digest: seq<byte> -> string,
    load: string -> Option<seq<Doc>>,
    split: seq<Doc> -> seq<Doc>,
    embed: seq<string> -> Option<seq<seq<real>>>)

  function FileHash(env: Env, path: string): string {
    env.digest(env.content(path))
  }

  function Texts(chunks: seq<Doc>): (r: seq<string>)
    ensures |r| == |chunks|
  {
    seq(|chunks|, i requires 0 <= i < |chunks| => chunks[i].content)
  }

  /** What a new file comes to, before the store is touched. */
  datatype Work = Failed | NoPoints | Prepared(points: seq<Point>)

  /** Load, clean, split, identify, embed and build the points of a file
      that is not yet in the store. */
  function FileWork(env: Env, path: string, fileHash: string): (r: Work)
    ensures r.Prepared? ==> r.points != []
  {
    match env.load(path)
    case None => Failed
    case Some(pages) =>
      var chunks := env.split(CleanAll(pages));
      if !AllSourced(chunks) then Failed
      else if chunks == [] then NoPoints
      else
        var chunksWithIds := AssignIds(chunks);
        match env.embed(Texts(chunksWithIds))
        case None => Failed
        case Some(embeddings) =>
          var points := Points(fileHash, chunksWithIds, embeddings);
          if points == [] then NoPoints else Prepared(points)
  }

  /** How a run ends: normally, or by an exception; either way with the
      store as it then is. */
  datatype Outcome = Done(store: StoreState) | Aborted(store: StoreState)

  function OutcomeOf(ok: bool, s: StoreState): Outcome {
    if ok then Done(s) else Aborted(s)
  }

  /** One iteration of the loop in `ingest_pdf_files`. */
  function FileStep(env: Env, s: StoreState, path: string): Outcome {
    var fileHash := FileHash(env, path);
    var scrolled := AfterScroll(s, fileHash, 1);
    if HashExists(ScrollResult(s, fileHash, 1)) then Done(scrolled)
    else
      match FileWork(env, path, fileHash)
      case Failed => Aborted(scrolled)
      case NoPoints => Done(scrolled)
      case Prepared(points) => Done(AfterUpsert(scrolled, points, true))
  }

  /** The loop of `ingest_pdf_files` over `paths`. */
  function Run(env: Env, s: StoreState, paths: seq<string>): Outcome
    decreases |paths|
  {
    if paths == [] then Done(s)
    else
      match FileStep(env, s, paths[0])
      case Aborted(t) => Aborted(t)
      case Done(t) => Run(env, t, paths[1..])
  }

  /** The loop body of `ingest_pdf_files` for one path. */
  method IngestFile(env: Env, store: Store, filePath: string) returns (ok: bool)
    modifies store
    ensures OutcomeOf(ok, store.State()) == FileStep(env, old(store.State()), filePath)
  {
    var fileHash := CalculateSha256(env.content(filePath), env.digest);
    var found := CheckHashExists(store, fileHash);
    if found {
      return true;
    }
    var loaded := env.load(filePath);
    if loaded.None? {
      return false;
    }
    var pages := loaded.value;
    var file := new Doc[|pages|](i requires 0 <= i < |pages| => pages[i]);
    assert file[..] == pages;
    var chunks := ChunkText(file, env.split);
    var sourced := CalculateChunkIds(chunks);
    if !sourced {
      return false;
    }
    if chunks.Length == 0 {
      return true;
    }
    var chunkTexts := Texts(chunks[..]);
    var embeddings := env.embed(chunkTexts);
    if embeddings.None? {
      return false;
    }
    var points := BuildPoints(fileHash, chunks, embeddings.value);
    if points != [] {
      var _ := store.UpsertPoints(points, true);
    }
    ok := true;
  }

  lemma {:induction false} RunAppend(env: Env, s: StoreState, paths: seq<string>, p: string)
    requires Run(env, s, paths).Done?
    ensures Run(env, s, paths + [p]) == FileStep(env, Run(env, s, paths).store, p)
    decreases |paths|
  {
    if paths != [] {
      assert (paths + [p])[0] == paths[0];
      assert (paths + [p])[1..] == paths[1..] + [p];
      RunAppend(env, FileStep(env, s, paths[0]).store, paths[1..], p);
    }
  }

  /** `ingest_pdf_files()` over the listing of the PDF directory. */
  method IngestPdfFiles(env: Env, store: Store, walk: seq<WalkEntry>) returns (ok: bool)
    modifies store
    ensures OutcomeOf(ok, store.State()) == Run(env, old(store.State()), PdfFiles(walk))
  {
    var pdfFiles := GetPdfFiles(walk);
    ghost var start := store.State();
    for i := 0 to |pdfFiles|
      invariant Run(env, start, pdfFiles[..i]) == Done(store.State())
    {
      RunPrefix(env, start, pdfFiles, i);
      ok := IngestFile(env, store, pdfFiles[i]);
      if !ok {
        return;
      }
    }
    assert pdfFiles[..|pdfFiles|] == pdfFiles;
    ok := true;
  }

  lemma {:induction false} RunStopsAtAbort(env: Env, s: StoreState, paths: seq<string>, rest: seq<string>)
    requires Run(env, s, paths).Aborted?
    ensures Run(env, s, paths + rest) == Run(env, s, paths)
    decreases |paths|
  {
    assert paths != [];
    assert (paths + rest)[0] == paths[0];
    assert (paths + rest)[1..] == paths[1..] + rest;
    if FileStep(env, s, paths[0]).Done? {
      RunStopsAtAbort(env, FileStep(env, s, paths[0]).store, paths[1..], rest);
    }
  }

  /** One more file of the loop: the run over the first `i + 1` paths is the
      run over the first `i` followed by one step, and a step that aborts
      ends the whole run. */
  lemma RunPrefix(env: Env, s: StoreState, paths: seq<string>, i: nat)
    requires i < |paths| && Run(env, s, paths[..i]).Done?
    ensures Run(env, s, paths[..i + 1]) == FileStep(env, Run(env, s, paths[..i]).store, paths[i])
    ensures FileStep(env, Run(env, s, paths[..i]).store, paths[i]).Aborted? ==>
      Run(env, s, paths) == FileStep(env, Run(env, s, paths[..i]).store, paths[i])
  {
    PrefixSnoc(paths, i);
    RunAppend(env, s, paths[..i], paths[i]);
    if FileStep(env, Run(env, s, paths[..i]).store, paths[i]).Aborted? {
      RunStopsAtAbort(env, s, paths[..i + 1], paths[i + 1..]);
    }
  }

  lemma PrefixSnoc<T>(xs: seq<T>, i: nat)
    requires i < |xs|
    ensures xs[..i + 1] == xs[..i] + [xs[i]]
    ensures xs == xs[..i + 1] + xs[i + 1..]
  {
  }

  /** `ingest_documents()`: drop the collection, create it anew with the
      configured vector size, then ingest. */
  method IngestDocuments(env: Env, store: Store, walk: seq<WalkEntry>, vectorSize: nat) returns (ok: bool)
    modifies store
    ensures OutcomeOf(ok, store.State())
         == Run(env, AfterCreate(AfterDelete(old(store.State())), vectorSize), PdfFiles(walk))
  {
    var _ := store.DeleteCollection();
    var _ := store.CreateCollection(vectorSize);
    ok := IngestPdfFiles(env, store, walk);
  }
}
