# PDF ingestion pipeline and RAG chat helpers, in Dafny

This project models the logic of a retrieval-augmented chat assistant whose
knowledge comes from a directory of PDF files. Most of the model covers the
ingestion pipeline (`pipeline/ingest_documents.py`). It:

- lists the PDF files under a directory;
- hashes each file with SHA-256 in 4096-byte blocks;
- asks the Qdrant collection whether a point with that hash already exists, and skips the file when one does;
- otherwise cleans the page texts, splits them into chunks, and gives every chunk an id `filename:page:index`;
- embeds the chunks and upserts one point per chunk, whose payload metadata carries the file hash.

`ingest_documents` drops the collection, creates it again, and then runs
the ingestion.

Two smaller parts of the program are modelled as well:

- From `chatbot/bot.py`: how retrieved documents are rendered into the prompt context with their source citations, how the question and the history are read from the chain's input dictionary, and the per-session history store.
- From `common/prompt_loader.py`: how the system prompt is read from a Markdown file, with its `# ` title line dropped and a default prompt as fallback.

The model's files:

- `wrappers.dfy`: an `Option` type.
- `text.dfy`: the Python `str` operations the code uses (`strip`, `split`, `join`, `lower`/`upper`, `startswith`/`endswith`, `str(int)`). Whitespace follows `str.isspace`.
- `documents.dfy`: documents as values (text plus a metadata dictionary), `os.path.basename`, `os.path.join`, and how an f-string prints a metadata value.
- `clean_text.dfy`: `clean_text`.
- `chunk_ids.dfy`: `calculate_chunk_ids`, which rewrites an array of chunks in place.
- `vector_store.dfy`: the Qdrant collection behind the wrapper class in `common/qdrant_client.py`, as a class with state and a request log. Each operation is specified by a function on the state.
- `ingest.dfy`: the pipeline.
  - The file listing and hashing loops are methods.
  - One file and the whole run are functions (`FileStep`, `Run`).
  - The methods `IngestFile`, `IngestPdfFiles` and `IngestDocuments` are proved equal to those functions.
- `ingest_properties.dfy`: properties of whole runs.
  - Which requests one file costs.
  - A file already stored is skipped.
  - Where every stored point comes from.
  - A second run over the same files adds no point.
- `prompt_loader.dfy`: `load_prompt_from_file`.
- `bot.dfy`: `format_docs_with_source`, `get_context`, the chain's input lambdas, and `get_session_history`.

Two comments in the program promise more than its code does; the model
follows the code:

- **Paragraph breaks.** The comment at `pipeline/ingest_documents.py` line 87 says that `clean_text` removes excessive newlines but keeps paragraph breaks. Line 86, though, first turns every whitespace run, newlines included, into a single space. The passes of lines 88 and 90 can then never match.
  - `CleanText.LaterPassesAreIdentities` proves that those two passes change nothing.
  - `CleanText.CleanNormalForm` proves that the result holds no newline at all.
- **Unique chunk ids.** The docstring at line 112 says that `calculate_chunk_ids` creates unique chunk ids. The loop guarantees this only when the chunks of each page come together, since the index restarts at 0 whenever the page key changes.
  - `ChunkIds.DistinctIds` proves uniqueness under that condition.
  - `ChunkIds.RevisitedPageRepeatsId` shows the id that repeats when a page comes back after another page.

## Model

| member | source | states |
|---|---|---|
| Text.IsSpace | pipeline/ingest_documents.py:86 | the characters `\s` matches in a `str` pattern, which are those for which `str.isspace()` holds |
| Text.Strip | pipeline/ingest_documents.py:91 | `str.strip()`: drops the leading and trailing whitespace |
| Text.Split | common/prompt_loader.py:19 | `s.split('\n')`: the pieces between separators, always at least one, none holding a separator |
| Text.Join | common/prompt_loader.py:24 | `'\n'.join(lines)`: the lines with one separator between neighbours |
| Text.Lower | pipeline/ingest_documents.py:21 | `str.lower()` on ASCII letters, character by character |
| Text.Upper | chatbot/bot.py:66 | `str.upper()` on ASCII letters, character by character |
| Text.NatToString | pipeline/ingest_documents.py:127 | `str(n)` of a chunk index: a non-empty string of decimal digits |
| Text.StripFacts | common/prompt_loader.py:24 | `strip` splits its input into leading whitespace, a result with no whitespace at either end, and trailing whitespace, whose concatenation is the input |
| Text.StripPadded | pipeline/ingest_documents.py:91 | stripping `w1 + core + w2` with whitespace-only `w1`, `w2` and a trimmed `core` gives exactly `core`, so the stripped text is the unique trimmed middle of its input |
| Text.StripIdempotent | pipeline/ingest_documents.py:91 | stripping twice is stripping once |
| Text.StripEmptyIff | common/prompt_loader.py:22 | `line.strip() == ''` holds exactly when the line is whitespace only |
| Text.StripDropsLeadingSpace | common/prompt_loader.py:22-24 | whitespace put in front of a text never changes what `strip` returns |
| Text.StripKeepsNonSpace | pipeline/ingest_documents.py:91 | `strip` removes whitespace only: the other characters survive in order |
| Text.JoinSplit | common/prompt_loader.py:19-24 | `'\n'.join(s.split('\n')) == s` for every text |
| Text.SplitJoin | common/prompt_loader.py:19-24 | splitting the join of lines that hold no separator gives the lines back |
| Text.SplitHead | common/prompt_loader.py:19-20 | the first line of the split is everything before the first newline (the whole text when there is none), and the other lines are the split of the rest |
| Text.IntToString | pipeline/ingest_documents.py:120 | an integer printed by an f-string is never empty and starts with a digit exactly when it is not negative |
| Text.ParseNatToString | pipeline/ingest_documents.py:127 | the decimal form of a chunk index reads back as that index |
| Text.NatToStringInjective | pipeline/ingest_documents.py:127 | different indices print differently |
| Documents.Basename | pipeline/ingest_documents.py:118 | `os.path.basename`: the characters after the last `/` |
| Documents.Render | pipeline/ingest_documents.py:120 | how an f-string prints a metadata value: a string as itself, an integer in decimal, `None` as `None` |
| Documents.RenderOr | chatbot/bot.py:70 | `metadata.get(key, default)` printed by an f-string |
| Documents.BasenameIsLastComponent | pipeline/ingest_documents.py:118 | `os.path.basename(p)` is a suffix of `p` holding no `/`, and a `/` precedes it unless it is the whole path |
| Documents.JoinPath | pipeline/ingest_documents.py:22 | `os.path.join(root, file)` ends with the file name |
| CleanText.MapRuns | pipeline/ingest_documents.py:86-90 | one `re.sub` pass whose every match lies in a single whitespace run, given as a rewrite of each maximal run that keeps every other character |
| CleanText.OneSpace | pipeline/ingest_documents.py:86 | `re.sub(r'\s+', ' ', ...)` on one run: a single space |
| CleanText.SquashBlankLines | pipeline/ingest_documents.py:88 | `re.sub(r'\n\s*\n\s*\n+', '\n\n', ...)` on one run: with three or more newlines, the span from the first newline to the last becomes two newlines |
| CleanText.OneNewline | pipeline/ingest_documents.py:90 | `re.sub(r'\s*\n\s*', '\n', ...)` on one run: a run that holds a newline becomes one newline |
| CleanText.Clean | pipeline/ingest_documents.py:80-91 | `clean_text`: the three passes in order, then `strip` |
| CleanText.CollapseSingleSpaced | pipeline/ingest_documents.py:86 | after `re.sub(r'\s+', ' ', ...)` every whitespace character is a plain space and no two are adjacent; a non-empty text stays non-empty and keeps its first non-space character |
| CleanText.CollapseFixesSingleSpaced | pipeline/ingest_documents.py:86 | the first pass leaves an already single-spaced text unchanged |
| CleanText.MapRunsNoNewline | pipeline/ingest_documents.py:88-90 | a pass whose pattern needs a newline leaves a newline-free text unchanged |
| CleanText.LaterPassesAreIdentities | pipeline/ingest_documents.py:86-90 | the passes of lines 88 and 90 never change the text that line 86 produced |
| CleanText.CleanIsCollapseThenStrip | pipeline/ingest_documents.py:80-91 | `clean_text` is "every whitespace run becomes one space, then strip" |
| CleanText.StripSingleSpaced | pipeline/ingest_documents.py:91 | `strip` of a single-spaced text is trimmed and still single-spaced |
| CleanText.CleanNormalForm | pipeline/ingest_documents.py:80-91 | the cleaned text is trimmed, single-spaced and holds no newline: no paragraph break survives |
| CleanText.CleanKeepsNonSpace | pipeline/ingest_documents.py:80-91 | cleaning removes or replaces whitespace only: every other character survives, in order |
| CleanText.CleanIdempotent | pipeline/ingest_documents.py:80-91 | cleaning a cleaned text changes nothing |
| PromptLoader.DropHeader | common/prompt_loader.py:20-23 | drops a first line starting with `# `, and then one line that strips to empty if one follows it |
| PromptLoader.StripHeader | common/prompt_loader.py:19-24 | split into lines, drop the header, join and strip |
| PromptLoader.LoadPromptFromFile | common/prompt_loader.py:3-30 | the default prompt when the file is missing or reading it raises; otherwise a text with no whitespace at either end |
| PromptLoader.FirstLineTitle | common/prompt_loader.py:19-20 | the first line starts with `# ` exactly when the file's text does |
| PromptLoader.DroppingBlankLineIsInvisible | common/prompt_loader.py:22-24 | dropping a blank line in front of the remaining lines never changes the stripped result |
| PromptLoader.TitleDropped | common/prompt_loader.py:20-24 | after a title line, with or without the blank-line drop, the result is the remaining lines joined and stripped |
| PromptLoader.UntitledText | common/prompt_loader.py:19-24 | a text without a leading `# ` is returned stripped, unchanged otherwise |
| PromptLoader.TitleOnlyText | common/prompt_loader.py:19-24 | a one-line text that is only a title gives the empty prompt |
| PromptLoader.TitledText | common/prompt_loader.py:19-24 | a titled text gives everything after its first newline, stripped |
| PromptLoader.StripHeaderOnText | common/prompt_loader.py:17-24 | the three cases above together: what the loader returns, stated on the file's text |
| ChunkIds.PageKey | pipeline/ingest_documents.py:118-120 | `current_page_id`: `f"{basename(source)}:{page}"` |
| ChunkIds.ChunkId | pipeline/ingest_documents.py:127 | `chunk_id`: the page key, `:`, and the index in decimal |
| ChunkIds.ChunkIndex | pipeline/ingest_documents.py:122-125 | the index the loop gives chunk `i`: 0 for the first chunk and after a change of page key, otherwise one more than the chunk before |
| ChunkIds.WithId | pipeline/ingest_documents.py:127-131 | a chunk after the loop body has visited it: `id`, `filename` and `page` written into its metadata |
| ChunkIds.Visited | pipeline/ingest_documents.py:117-131 | the first `n` chunks after the loop has visited them: `n` chunks, chunk `j` visited with the index `ChunkIndex` gives it |
| ChunkIds.AssignIds | pipeline/ingest_documents.py:117-131 | the chunks after the whole loop, each visited with its own index |
| ChunkIds.KeyAt | pipeline/ingest_documents.py:118-120 | the page key of chunk `i` is `f"{basename(source)}:{page}"` of its own metadata |
| ChunkIds.WithIdChanges | pipeline/ingest_documents.py:127-131 | visiting a chunk keeps its text, sets `id` to `filename:page:index`, sets `filename` to the base name, keeps `page` (or sets `None`), and leaves every other key as it was |
| ChunkIds.AssignIdsAt | pipeline/ingest_documents.py:117-131 | after the walk, chunk `i` is chunk `i` visited with the index the walk computes for it |
| ChunkIds.IndexStep | pipeline/ingest_documents.py:122-125 | the index that the loop computes from the previous page key and the previous index is `ChunkIndex` |
| ChunkIds.WalkStep | pipeline/ingest_documents.py:117-131 | one loop iteration keeps the walk invariant: the chunks before `i + 1` carry their ids and the others are untouched |
| ChunkIds.CalculateChunkIds | pipeline/ingest_documents.py:110-133 | succeeds exactly when every chunk has a string `source` (otherwise `basename(None)` raises); on success the array holds `AssignIds` of the old chunks |
| ChunkIds.IndexWithinRun | pipeline/ingest_documents.py:122-125 | within a maximal run of one page key, the indices are 0, 1, 2, ... |
| ChunkIds.IndexAdvances | pipeline/ingest_documents.py:122-123 | along a stretch of one page key, the index goes up by one per chunk |
| ChunkIds.ChunkIdInjective | pipeline/ingest_documents.py:127 | an id determines its page key and its index |
| ChunkIds.IdOf | pipeline/ingest_documents.py:127-129 | after the walk, chunk `i`'s `id` is built from its page key and its index |
| ChunkIds.GroupedIndicesDiffer | pipeline/ingest_documents.py:122-125 | when each page's chunks come together, two chunks of one page have different indices |
| ChunkIds.DistinctIds | pipeline/ingest_documents.py:110-133 | when each page's chunks come together, no two chunks of a file get the same id |
| ChunkIds.RevisitedPageRepeatsId | pipeline/ingest_documents.py:122-127 | a page met again after another page restarts at index 0 and repeats an id |
| VectorStore.Accepts | common/qdrant_client.py:86-99 | the server takes an upsert when the collection exists and every vector has the collection's size |
| VectorStore.AfterUpsert | common/qdrant_client.py:86-99 | the request is logged, and an accepted upsert appends the points |
| VectorStore.AfterCreate | common/qdrant_client.py:30-66 | the request is logged; a missing collection is created empty with the given size, and an existing one is left as it is |
| VectorStore.AfterDelete | common/qdrant_client.py:18-28 | the request is logged and the collection is gone with its points |
| VectorStore.AfterScroll | common/qdrant_client.py:101-111 | a scroll only logs its request |
| VectorStore.Matching | pipeline/ingest_documents.py:41-48 | the points passing the `metadata.sha256` filter all carry the hash, and none is left exactly when no stored point carries it |
| VectorStore.MatchingAppend | pipeline/ingest_documents.py:41-48 | filtering distributes over appending points |
| VectorStore.ScrollResult | common/qdrant_client.py:101-114 | `(None, None)` exactly when the collection does not exist; otherwise a prefix of the matching points of at most `limit` points, with a next offset exactly when matches were left out |
| VectorStore.Store.DeleteCollection | common/qdrant_client.py:18-28 | the collection is gone with its points, and the request is logged |
| VectorStore.Store.CreateCollection | common/qdrant_client.py:30-66 | fails (returns `False`) exactly when the collection already exists; otherwise it is empty with the given vector size |
| VectorStore.Store.ScrollCollection | common/qdrant_client.py:101-114 | returns `ScrollResult` of the old state and only logs the request |
| VectorStore.Store.UpsertPoints | common/qdrant_client.py:86-99 | succeeds exactly when the collection exists and every vector has its size; the points are then appended |
| Ingest.IsPdfName | pipeline/ingest_documents.py:21 | `file.lower().endswith(".pdf")` |
| Ingest.PdfIn | pipeline/ingest_documents.py:20-22 | the joined paths of the PDF names of one directory, in order |
| Ingest.PdfFiles | pipeline/ingest_documents.py:19-22 | the PDF paths of the whole walk, directory by directory |
| Ingest.GetPdfFiles | pipeline/ingest_documents.py:14-25 | the nested loops list `PdfFiles(walk)`: the joined paths of the PDF names, directory by directory, in order |
| Ingest.PdfInListed | pipeline/ingest_documents.py:20-22 | every name of a directory whose lower-cased form ends in `.pdf` is listed, joined to its directory |
| Ingest.PdfInOrigin | pipeline/ingest_documents.py:20-22 | every path listed for a directory is the joined path of one of its PDF names |
| Ingest.PdfFileListed | pipeline/ingest_documents.py:14-25 | every PDF name anywhere in the walk is listed |
| Ingest.PdfFileOrigin | pipeline/ingest_documents.py:14-25 | every listed path comes from a PDF name of some directory of the walk: other files are skipped |
| Ingest.ByteFile.Read | pipeline/ingest_documents.py:33 | `f.read(n)` returns the next `n` bytes (fewer at the end, none at end of file) and advances the position |
| Ingest.Sha256.Update | pipeline/ingest_documents.py:34 | `update` appends the block to the bytes hashed so far |
| Ingest.CalculateSha256 | pipeline/ingest_documents.py:27-35 | the block loop feeds the whole file, whatever its length, so the result is the digest of the file's content |
| Ingest.HashExists | pipeline/ingest_documents.py:56-58 | `response and response[0]` and then `len(response[0]) > 0`: the page is present and non-empty |
| Ingest.CheckHashExists | pipeline/ingest_documents.py:37-58 | answers `HashExists` of a one-point scroll on the hash; the store only logs the scroll |
| Ingest.HashExistsIff | pipeline/ingest_documents.py:56-58 | the check says yes exactly when the collection exists and holds a point whose `metadata.sha256` is the hash; a failed scroll `(None, None)` says no |
| Ingest.CleanAll | pipeline/ingest_documents.py:98-99 | the pages after the cleaning loop: each text cleaned, metadata kept |
| Ingest.CleanPages | pipeline/ingest_documents.py:98-99 | the loop replaces every page text by its cleaned form, in place, and changes nothing else |
| Ingest.ChunkText | pipeline/ingest_documents.py:93-108 | the pages are cleaned in place and the chunks are the splitter's output on the cleaned pages |
| Ingest.CleanAllNormal | pipeline/ingest_documents.py:97-107 | the splitter sees pages whose metadata is kept and whose texts are trimmed, single-spaced and keep all non-whitespace; cleaning them again changes nothing |
| Ingest.PayloadMetadata | pipeline/ingest_documents.py:171-175 | `{"sha256": file_hash, "type": "pdf", **chunk.metadata}`: the chunk's own keys win |
| Ingest.PointFor | pipeline/ingest_documents.py:166-177 | the point of one chunk: the embedding as vector, and a payload of the chunk's text and metadata |
| Ingest.Points | pipeline/ingest_documents.py:164-178 | one point per pair of `zip(chunks_with_ids, embeddings)`, as many as the shorter list |
| Ingest.BuildPoints | pipeline/ingest_documents.py:163-178 | the loop over `zip(chunks_with_ids, embeddings)` builds `Points`: one point per pair, as many as the shorter list |
| Ingest.PointAt | pipeline/ingest_documents.py:164-178 | point `i` has embedding `i` as vector and chunk `i`'s text; its metadata holds the chunk's keys with their values plus `sha256` and `type`, which are the file hash and `pdf` unless the chunk overrides them |
| Ingest.FileWork | pipeline/ingest_documents.py:153-180 | prepared work always has at least one point, so an upsert is never empty |
| Ingest.FileStep | pipeline/ingest_documents.py:146-185 | one iteration on a store state: scroll for the hash; when it is found, done; otherwise abort on an exception, pass over a file without points, or upsert the points with `wait=True` |
| Ingest.Run | pipeline/ingest_documents.py:145-186 | the loop over the paths: one step per file, stopping at the first exception |
| Ingest.IngestFile | pipeline/ingest_documents.py:145-186 | one loop iteration does exactly `FileStep`: scroll, and then skip, abort or upsert |
| Ingest.RunAppend | pipeline/ingest_documents.py:145-186 | a run over one more path is the run followed by one step |
| Ingest.RunStopsAtAbort | pipeline/ingest_documents.py:145-186 | after an exception no further file is processed |
| Ingest.RunPrefix | pipeline/ingest_documents.py:145-186 | the run over the first `i + 1` files is one step after the run over the first `i`, and an aborting step ends the whole run |
| Ingest.IngestPdfFiles | pipeline/ingest_documents.py:135-186 | the loop over the listed files does exactly `Run` over `PdfFiles(walk)` |
| Ingest.IngestDocuments | pipeline/ingest_documents.py:189-203 | delete, create with the vector size, then `Run` from the created collection |
| IngestProperties.StepRequests | pipeline/ingest_documents.py:146-185 | one file costs one scroll with limit 1 on its hash, then at most one upsert: with `wait=True`, with at least one point, and exactly when the hash was not found and the file produced points |
| IngestProperties.SkipIgnoresContent | pipeline/ingest_documents.py:148-150 | a file whose hash is found is skipped, whatever the loader, splitter and embedder would do |
| IngestProperties.NoChunksNoUpsert | pipeline/ingest_documents.py:157-158 | a file that splits into no chunks is passed over without an upsert |
| IngestProperties.StepExtends | pipeline/ingest_documents.py:145-186 | a step keeps the collection and its vector size and only appends points; an aborted step appends none |
| IngestProperties.RunExtends | pipeline/ingest_documents.py:145-186 | a run keeps the collection and its vector size and only appends points |
| IngestProperties.PreparedCarryHash | pipeline/ingest_documents.py:169-175 | when no chunk carries its own `sha256`, every prepared point carries the file hash |
| IngestProperties.PointsCarryHash | pipeline/ingest_documents.py:169-175 | points built from chunks without a `sha256` key carry the file hash |
| IngestProperties.FoundStaysFound | pipeline/ingest_documents.py:37-58 | a store holding more points finds every hash that a smaller one finds |
| IngestProperties.StoredPointsAreFound | pipeline/ingest_documents.py:145-186 | once a file's points are stored, its hash is found, provided no chunk of that file carries its own `sha256` metadata key |
| IngestProperties.RerunFrom | pipeline/ingest_documents.py:145-186 | rerunning from any store holding exactly the first run's points adds nothing, provided no chunk of any of the files carries its own `sha256` metadata key |
| IngestProperties.RerunAddsNothing | pipeline/ingest_documents.py:135-186 | running the ingestion a second time over the same files adds no point |
| IngestProperties.StepAddsOwnPoints | pipeline/ingest_documents.py:163-185 | the points that one step adds have the collection's vector size and, provided no chunk of the file carries its own `sha256` metadata key, the hash of the step's file |
| IngestProperties.AddedPointsProvenance | pipeline/ingest_documents.py:145-186 | every point that a run adds has the collection's vector size and the hash of one of the run's files |
| IngestProperties.FreshIngestPoints | pipeline/ingest_documents.py:189-203 | after `ingest_documents` every point in the collection has the configured size and the hash of a listed file |
| IngestProperties.DefaultSizeIngestPoints | pipeline/config.py:8 | with the default `VECTOR_SIZE` of 384, every point in the collection after `ingest_documents` has 384 components, whatever metadata the chunks carry |
| IngestProperties.StepSizes | pipeline/ingest_documents.py:163-185 | every point that one step adds has the collection's vector size |
| IngestProperties.RunSizes | pipeline/ingest_documents.py:145-186 | every point that a run adds has the collection's vector size |
| Bot.Header | chatbot/bot.py:66 | `f"\n=== {source_type.upper()} SOURCES ===\n"` |
| Bot.SourceInfo | chatbot/bot.py:68-70 | the citation: for a document of type `pdf`, its `filename` and `page` (or `Unknown` and `N/A`); otherwise nothing |
| Bot.Entry | chatbot/bot.py:71 | a document's text, its citation and a blank line |
| Bot.Formatted | chatbot/bot.py:63-72 | `format_docs_with_source`: empty for no documents; otherwise the header and one entry per document |
| Bot.FormatDocsWithSource | chatbot/bot.py:63-72 | the loop builds `Formatted`: empty for no documents; otherwise the header followed by one entry per document |
| Bot.EntriesAround | chatbot/bot.py:67-71 | the entries are in retrieval order: entry `i` sits between those of the documents before and after it |
| Bot.FormattedLayout | chatbot/bot.py:63-72 | a non-empty context is the header, the entries before `i`, document `i`'s text with its citation and a blank line, then the entries after `i` |
| Bot.FormattedEmptyIff | chatbot/bot.py:64-65 | the context is empty exactly when no document was retrieved |
| Bot.SourceInfoIff | chatbot/bot.py:68-70 | a document gets a citation exactly when its `type` is `pdf` |
| Bot.IngestedChunkCitation | chatbot/bot.py:69-70 | a point stored by the ingestion, read back, is cited with its chunk's file base name and page exactly when the chunk's own metadata leaves `type` unset or sets it to `pdf`; otherwise it gets no citation |
| Bot.Question | chatbot/bot.py:75 | `inputs.get("question", inputs.get("input", ""))` |
| Bot.HistoryOf | chatbot/bot.py:89 | `x.get("history", [])` |
| Bot.GetContext | chatbot/bot.py:74-83 | `get_context`: retrieve with the question, then format under `PDF Documentation` |
| Bot.WrapperInputs | chatbot/bot.py:85-107 | with the user's message under `input` and the session messages under `history`, the chain asks that message and sees that history |
| Bot.QuestionIgnoresOtherKeys | chatbot/bot.py:75 | only the keys `question` and `input` decide the question |
| Bot.GetContextEmptyIff | chatbot/bot.py:74-83 | the context is empty exactly when the retriever returns nothing for the question |
| Bot.ChatMessageHistory.constructor | chatbot/bot.py:99 | a new history holds no message |
| Bot.SessionStore.constructor | chatbot/bot.py:95 | the store starts empty |
| Bot.SessionStore.GetSessionHistory | chatbot/bot.py:97-100 | the session's history is created empty on first use, is the same object on later calls, and leaves other sessions alone; no two sessions ever share a history |

## Left out

- Printing, the `tqdm` progress bar and the emoji status lines are not modelled.
- `os.walk` is not modelled. The directories it visits are the parameter `walk`: each has a root and its file names, in the order `os.walk` yields them.
- The location of the PDF directory (line 139) is not modelled.
- Reading a file is modelled by `ByteFile`. The file's bytes come from the parameter `content`.
- Failures of `open` or `f.read` in `calculate_sha256` (lines 32-33) are not modelled. The program would raise and end the run. In the model `content` is total, so every listed file is readable.
- The SHA-256 digest is the parameter `digest`. Only the block loop around it is modelled.
- These external components are parameters of `Env`:
  - `PyPDFLoader` (`load_document_from_pdf`, lines 60-67) is `load`. A loader that raises returns `None`.
  - `RecursiveCharacterTextSplitter` is `split`. `CHUNK_SIZE` and `CHUNK_OVERLAP` are not modelled.
  - The embedding model (`get_embedding_function`, `embed_documents`) is `embed`. Vectors are sequences of `real`, with no floating-point behaviour.
- Python exceptions inside one file end the whole run. This is the `Aborted` outcome.
- Point ids are random uuids in the program, so every upsert adds new points. The model leaves the id out, and an accepted upsert appends.
- Qdrant failures that do not come from the collection's state are not modelled: network errors, authentication and timeouts. Failures that do come from that state are modelled:
  - scrolling or upserting on a missing collection;
  - creating a collection that exists;
  - vectors of the wrong size.
- VectorStore.ScrollResult: the order of the points in a scroll page is not modelled. Qdrant orders them by point id, and the ids are random uuids. The model returns the matches in insertion order. `check_hash_exists` only asks whether the page is empty, so nothing downstream depends on the order.
- VectorStore.ScrollResult: the next-page offset is a position in the list of matches, not a point id.
- The payload indexes of `create_collection` are not modelled: the store keeps no index. These `QdrantClient` members are also left out, since the core does not use them:
  - the constructor and its environment variables;
  - `get_client`;
  - `check_collection_exists`;
  - `delete_points`.
- Configuration loading is not modelled. `VECTOR_SIZE` is the parameter `vectorSize` of `Ingest.IngestDocuments`. Its default of 384 is `Ingest.DefaultVectorSize`, and `IngestProperties.DefaultSizeIngestPoints` states the outcome for it.
- Documents are values. `CleanPages` and `CalculateChunkIds` rewrite arrays of documents in place. Whether the splitter's chunks share metadata dictionaries with the pages is not modelled.
- Ingest.ChunkText: the splitter's list is copied into a fresh array.
- IngestProperties.StoredPointsAreFound assumes that no chunk of the first file has a `sha256` key in its own metadata. Such a key would override the file hash in the payload, and the file's points would not be found by its hash.
- IngestProperties.RerunFrom assumes that no chunk of any of the files has a `sha256` key in its own metadata, for the same reason. A file whose points carry another hash is ingested again.
- IngestProperties.StepAddsOwnPoints assumes that no chunk of the file has a `sha256` key in its own metadata, for the hash part only. The size part holds without it, as IngestProperties.StepSizes states.
- IngestProperties.RerunAddsNothing assumes that no chunk's own metadata has a `sha256` key. Such a key would override the file hash in the payload. The same goes for IngestProperties.PreparedCarryHash, IngestProperties.AddedPointsProvenance and IngestProperties.FreshIngestPoints.
- Text.Lower and Text.Upper map ASCII letters only. Python's `lower`/`upper` also map other Unicode letters.
- PromptLoader.LoadPromptFromFile covers these outcomes of the attempt to read the file: missing, unreadable, read. Resolving the file's path (lines 10-13) is not modelled.
- The LangChain parts of `chatbot/bot.py` are not modelled: the prompt template, the `ChatGroq` model, the Qdrant retriever and the chain composition. The retriever is the parameter `retrieve` of `Bot.GetContext`. How `RunnableWithMessageHistory` appends messages to a history is not modelled.
