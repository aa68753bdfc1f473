/**
  The parts of `chatbot/bot.py` that are the program's own logic rather
  than library wiring: how retrieved documents are rendered into the
  context with their sources, how the question and the history are read
  from the chain's input, and the per-session history store.
*/
module Bot {
  import opened Text
  import opened Documents
  import opened ChunkIds
  import opened Ingest

  // ---------------------------------------------------------------------
  // format_docs_with_source

  /** `f"\n=== {source_type.upper()} SOURCES ===\n"`. */
  function Header(sourceType: string): string {
    "\n=== " + Upper(sourceType) + " SOURCES ===\n"
  }

  /** The citation after a document's text: only documents of type `pdf`
      get one, naming the file and page or `Unknown` and `N/A`. */
  function SourceInfo(m: Metadata): string {
    if "type" in m && m["type"] == Str("pdf") then
      " (Source: " + RenderOr(m, "filename", "Unknown") + ", Page " + RenderOr(m, "page", "N/A") + ")"
    else ""
  }

  /** `f"{doc.page_content}{source_info}\n\n"`. */
  function Entry(d: Doc): string {
    d.content + SourceInfo(d.metadata) + "\n\n"
  }

  /** The strings `f(x)` of the elements of `xs`, concatenated in order. */
  function ConcatMap<T>(xs: seq<T>, f: T -> string): string {
    if xs == [] then "" else ConcatMap(xs[..|xs| - 1], f) + f(xs[|xs| - 1])
  }

  /** One entry per document, in order. */
  function Entries(docs: seq<Doc>): string {
    ConcatMap(docs, Entry)
  }

  /** What `format_docs_with_source(docs, source_type)` returns. */
  function Formatted(docs: seq<Doc>, sourceType: string): string {
    if docs == [] then "" else Header(sourceType) + Entries(docs)
  }

  method FormatDocsWithSource(docs: seq<Doc>, sourceType: string) returns (formatted: string)
    ensures formatted == Formatted(docs, sourceType)
  {
    if docs == [] {
      return "";
    }
    formatted := "\n=== " + Upper(sourceType) + " SOURCES ===\n";
    for i := 0 to |docs|
      invariant formatted == Header(sourceType) + Entries(docs[..i])
    {
      var doc := docs[i];
      var sourceInfo := "";
      if "type" in doc.metadata && doc.metadata["type"] == Str("pdf") {
        sourceInfo := " (Source: " + RenderOr(doc.metadata, "filename", "Unknown")
                    + ", Page " + RenderOr(doc.metadata, "page", "N/A") + ")";
      }
      var entry := doc.content + sourceInfo + "\n\n";
      assert entry == Entry(doc);
      EntriesStep(docs, i);
      SeqAlgebra(Header(sourceType), Entries(docs[..i]), entry);
      formatted := formatted + entry;
    }
    assert docs[..|docs|] == docs;
  }

  lemma EntriesStep(docs: seq<Doc>, i: nat)
    requires i < |docs|
    ensures Entries(docs[..i + 1]) == Entries(docs[..i]) + Entry(docs[i])
  {
    assert docs[..i + 1][..i] == docs[..i];
  }

  lemma {:induction false} ConcatMapAppend<T>(a: seq<T>, b: seq<T>, f: T -> string)
    ensures ConcatMap(a + b, f) == ConcatMap(a, f) + ConcatMap(b, f)
    decreases |b|
  {
    if b == [] {
      assert a + b == a;
    } else {
      var init := b[..|b| - 1];
      assert (a + b)[..|a + b| - 1] == a + init;
      ConcatMapAppend(a, init, f);
    }
  }

  /** A non-empty result is the header followed by one entry per document,
      in retrieval order: entry `i` sits between the entries of the
      documents before it and those after it. */
  lemma FormattedLayout(docs: seq<Doc>, sourceType: string, i: nat)
    requires i < |docs|
    ensures Formatted(docs, sourceType)
         == Header(sourceType) + Entries(docs[..i]) + Entry(docs[i]) + Entries(docs[i + 1..])
  {
    EntriesAround(docs, i);
    assert Formatted(docs, sourceType) == Header(sourceType) + Entries(docs);
    var h, a, e, b := Header(sourceType), Entries(docs[..i]), Entry(docs[i]), Entries(docs[i + 1..]);
    SeqAlgebra(h, a + e, b);
    SeqAlgebra(h, a, e);
  }

  lemma EntriesAround(docs: seq<Doc>, i: nat)
    requires i < |docs|
    ensures Entries(docs) == Entries(docs[..i]) + Entry(docs[i]) + Entries(docs[i + 1..])
  {
    assert docs == docs[..i + 1] + docs[i + 1..];
    ConcatMapAppend(docs[..i + 1], docs[i + 1..], Entry);
    EntriesStep(docs, i);
  }

  /** The context is empty exactly when nothing was retrieved. */
  lemma FormattedEmptyIff(docs: seq<Doc>, sourceType: string)
    ensures Formatted(docs, sourceType) == "" <==> docs == []
  {
    if docs != [] {
      assert |Formatted(docs, sourceType)| >= |Header(sourceType)| > 0;
    }
  }

  /** A document gets a citation exactly when its type is `pdf`. */
  lemma SourceInfoIff(m: Metadata)
    ensures SourceInfo(m) != "" <==> "type" in m && m["type"] == Str("pdf")
  {
  }

  /** A point stored by the ingestion, read back as a document (text from
      `text`, metadata from `metadata`), is cited with the base name of the
      chunk's source and the chunk's page when its type is `pdf`: always,
      unless the chunk's own metadata sets `type` to something else, which
      the `**chunk.metadata` of the payload lets win. */
  lemma IngestedChunkCitation(fileHash: string, chunk: Doc, index: nat, embedding: seq<real>)
    requires HasSource(chunk.metadata)
    ensures var p := PointFor(fileHash, WithId(chunk, index), embedding);
      var pdf := "type" !in chunk.metadata || chunk.metadata["type"] == Str("pdf");
      SourceInfo(p.metadata)
        == if pdf then " (Source: " + FileName(chunk.metadata) + ", Page " + Render(PageOf(chunk.metadata)) + ")"
           else ""
  {
    WithIdChanges(chunk, index);
    var m := WithId(chunk, index).metadata;
    assert "type" in chunk.metadata ==> m["type"] == chunk.metadata["type"];
    assert PayloadMetadata(fileHash, m)["filename"] == m["filename"];
    assert PayloadMetadata(fileHash, m)["page"] == m["page"];
  }

  // ---------------------------------------------------------------------
  // The chain's input

  datatype Message = HumanMessage(text: string) | AiMessage(text: string)

  /** A value in the input dictionary of the chain. */
  datatype InputValue = TextInput(s: string) | Messages(messages: seq<Message>)

  type Inputs = map<string, InputValue>

  /** `inputs.get("question", inputs.get("input", ""))`, shared by
      `get_context` and the `question` entry of the chain. */
  function Question(inputs: Inputs): InputValue {
    if "question" in inputs then inputs["question"]
    else if "input" in inputs then inputs["input"]
    else TextInput("")
  }

  /** `x.get("history", [])`. */
  function HistoryOf(inputs: Inputs): InputValue {
    if "history" in inputs then inputs["history"] else Messages([])
  }

  /** `get_context(inputs)`: retrieve with the question, then format. */
  function GetContext(inputs: Inputs, retrieve: InputValue -> seq<Doc>): string {
    Formatted(retrieve(Question(inputs)), "PDF Documentation")
  }

  /** The history wrapper calls the chain with the user's message under
      `input` and the session's messages under `history`: the chain then
      asks that message and sees that history. */
  lemma WrapperInputs(message: string, history: seq<Message>)
    ensures var inputs := map["input" := TextInput(message), "history" := Messages(history)];
      Question(inputs) == TextInput(message) && HistoryOf(inputs) == Messages(history)
  {
  }

  /** Only the keys `question` and `input` decide the question. */
  lemma QuestionIgnoresOtherKeys(inputs: Inputs, k: string, v: InputValue)
    requires k != "question" && k != "input"
    ensures Question(inputs[k := v]) == Question(inputs)
  {
  }

  /** The context is empty exactly when the retriever returns nothing for
      the question. */
  lemma GetContextEmptyIff(inputs: Inputs, retrieve: InputValue -> seq<Doc>)
    ensures GetContext(inputs, retrieve) == "" <==> retrieve(Question(inputs)) == []
  {
    FormattedEmptyIff(retrieve(Question(inputs)), "PDF Documentation");
  }

  // ---------------------------------------------------------------------
  // get_session_history

  /** A `ChatMessageHistory`: the messages of one session. */
  class ChatMessageHistory {
    var messages: seq<Message>

    constructor ()
      ensures messages == []
    {
      messages := [];
    }
  }

  /** The `store` dictionary that `get_session_history` fills. */
  class SessionStore {
    var store: map<string, ChatMessageHistory>

    /** No two sessions share a history. */
    predicate Separate()
      reads this
    {
      forall a, b :: a in store && b in store && a != b ==> store[a] != store[b]
    }

    constructor ()
      ensures store == map[] && Separate()
    {
      store := map[];
    }

    /** The session's history, created empty on first use and the same
        object on every later call; other sessions are untouched. */
    method GetSessionHistory(sessionId: string) returns (history: ChatMessageHistory)
      modifies this
      ensures sessionId in store && store[sessionId] == history
      ensures sessionId in old(store) ==> history == old(store)[sessionId] && store == old(store)
      ensures sessionId !in old(store) ==>
        fresh(history) && history.messages == [] && store == old(store)[sessionId := history]
      ensures old(Separate()) ==> Separate()
    {
      if sessionId !in store {
        var created := new ChatMessageHistory();
        store := store[sessionId := created];
      }
      history := store[sessionId];
    }
  }
}
