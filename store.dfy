/** The SQLite tables of rag.py as an in-memory, append-only store: a
    `documents` table whose AUTOINCREMENT ids count up from 1, and a `chunks`
    table of `(document_id, chunk_index, text)` rows. Nothing in the module
    deletes a row, so a new document's id is one more than the number of
    documents stored so far. */
module DocStore {
  import opened Py
  import opened Chunker
  import opened Extraction

  /** A `documents` row; `title` is always inserted as NULL. */
  datatype Document = Document(id: int, filename: string, title: Option<string>, uploadedAt: string)

  /** A `chunks` row as `_load_all_chunks` returns it. */
  datatype Row = Row(documentId: int, chunkIndex: int, text: string)

  /** The rows `executemany` inserts for one document: chunk `k` under index `k`. */
  function Tagged(docId: int, chunks: seq<string>): seq<Row> {
    seq(|chunks|, k requires 0 <= k < |chunks| => Row(docId, k, chunks[k]))
  }

  /** `SELECT document_id, chunk_index, text FROM chunks [WHERE document_id = ?]`,
      in insertion order. */
  function Select(rows: seq<Row>, scope: Option<int>): seq<Row> {
    if rows == [] then []
    else
      (if scope.None? || rows[0].documentId == scope.value then [rows[0]] else [])
      + Select(rows[1..], scope)
  }

  /** The rows of one document carry chunk indices 0, 1, 2, ... in order. */
  ghost predicate Indexed(rs: seq<Row>) {
    forall k :: 0 <= k < |rs| ==> rs[k].chunkIndex == k
  }

  lemma {:induction false} SelectAppend(a: seq<Row>, b: seq<Row>, scope: Option<int>)
    ensures Select(a + b, scope) == Select(a, scope) + Select(b, scope)
  {
    if a == [] {
      assert a + b == b;
    } else {
      assert (a + b)[0] == a[0] && (a + b)[1..] == a[1..] + b;
      SelectAppend(a[1..], b, scope);
    }
  }

  /** Without a document id every row is loaded, in order. */
  lemma {:induction false} SelectAll(rows: seq<Row>)
    ensures Select(rows, None) == rows
  {
    if rows != [] {
      SelectAll(rows[1..]);
      assert rows == [rows[0]] + rows[1..];
    }
  }

  /** With a document id, exactly that document's rows are loaded. */
  lemma {:induction false} SelectScoped(rows: seq<Row>, d: int, r: Row)
    ensures r in Select(rows, Some(d)) <==> r in rows && r.documentId == d
  {
    if rows != [] {
      SelectScoped(rows[1..], d, r);
      assert rows == [rows[0]] + rows[1..];
    }
  }

  lemma {:induction false} SelectNone(rows: seq<Row>, d: int)
    requires forall k :: 0 <= k < |rows| ==> rows[k].documentId != d
    ensures Select(rows, Some(d)) == []
  {
    if rows != [] {
      SelectNone(rows[1..], d);
    }
  }

  lemma SelectTagged(docId: int, chunks: seq<string>, d: int)
    ensures Select(Tagged(docId, chunks), Some(d)) == if d == docId then Tagged(docId, chunks) else []
  {
    if d == docId {
      SelectOwn(Tagged(docId, chunks), d);
    } else {
      SelectNone(Tagged(docId, chunks), d);
    }
  }

  lemma {:induction false} SelectOwn(rows: seq<Row>, d: int)
    requires forall k :: 0 <= k < |rows| ==> rows[k].documentId == d
    ensures Select(rows, Some(d)) == rows
  {
    if rows != [] {
      SelectOwn(rows[1..], d);
      assert rows == [rows[0]] + rows[1..];
    }
  }

  /** Appending a fresh document's rows: loading that document gives exactly
      its chunks, tagged 0..n-1 in `chunk_text` order, and loading any other
      document gives what it gave before. */
  lemma LoadAfterAppend(rows: seq<Row>, docId: int, chunks: seq<string>, d: int)
    requires forall k :: 0 <= k < |rows| ==> rows[k].documentId < docId
    ensures Select(rows + Tagged(docId, chunks), Some(d))
         == if d == docId then Tagged(docId, chunks) else Select(rows, Some(d))
  {
    SelectAppend(rows, Tagged(docId, chunks), Some(d));
    SelectTagged(docId, chunks, d);
    if d == docId {
      SelectNone(rows, d);
    }
  }

  class Store {
    var docs: seq<Document>
    var rows: seq<Row>

    /** Ids are 1, 2, ... in insertion order; every chunk row belongs to a
        stored document; each document's rows are indexed from 0. */
    ghost predicate Valid()
      reads this
    {
      && (forall k :: 0 <= k < |docs| ==> docs[k].id == k + 1)
      && (forall k :: 0 <= k < |rows| ==> 1 <= rows[k].documentId <= |docs|)
      && (forall d :: Indexed(Select(rows, Some(d))))
    }

    constructor ()
      ensures docs == [] && rows == []
      ensures Valid()
    {
      docs := [];
      rows := [];
    }

    /** `_load_all_chunks(doc_id)`. */
    function Load(scope: Option<int>): seq<Row>
      reads this
    {
      Select(rows, scope)
    }

    /** `add_document_from_text`: chunk the text, insert the document, insert
        its chunks, return the new id. `uploadedAt` stands for the clock. */
    method AddDocumentFromText(filename: string, text: string, uploadedAt: string,
                               chunkSize: int, overlap: int) returns (docId: int)
      requires Valid()
      modifies this
      ensures Valid()
      ensures docId == |old(docs)| + 1
      ensures docs == old(docs) + [Document(docId, filename, None, uploadedAt)]
      ensures rows == old(rows) + Tagged(docId, Chunks(text, chunkSize, overlap))
      ensures Load(Some(docId)) == Tagged(docId, Chunks(text, chunkSize, overlap))
      ensures forall d :: d != docId ==> Load(Some(d)) == old(Load(Some(d)))
    {
      var chunks := ChunkText(text, chunkSize, overlap);
      docId := |docs| + 1;
      ghost var before := rows;
      docs := docs + [Document(docId, filename, None, uploadedAt)];
      rows := rows + Tagged(docId, chunks);
      forall d
        ensures Select(rows, Some(d)) == if d == docId then Tagged(docId, chunks) else Select(before, Some(d))
      {
        LoadAfterAppend(before, docId, chunks, d);
      }
      assert Indexed(Tagged(docId, chunks));
    }

    /** `add_pdf_file`: extract, index, and count the new document's rows. */
    method AddPdfFile(filename: string, pypdf: Option<seq<PageResult>>, mupdf: Option<seq<PageResult>>,
                      ocr: Option<seq<PageResult>>, uploadedAt: string,
                      chunkSize: int, overlap: int) returns (docId: int, count: int)
      requires Valid()
      modifies this
      ensures Valid()
      ensures docId == |old(docs)| + 1
      ensures docs == old(docs) + [Document(docId, filename, None, uploadedAt)]
      ensures rows == old(rows) + Tagged(docId, Chunks(ExtractText(pypdf, mupdf, ocr), chunkSize, overlap))
      ensures count == |Chunks(ExtractText(pypdf, mupdf, ocr), chunkSize, overlap)|
    {
      var text := ExtractText(pypdf, mupdf, ocr);
      docId := AddDocumentFromText(filename, text, uploadedAt, chunkSize, overlap);
      count := |Load(Some(docId))|;
    }
  }
}
