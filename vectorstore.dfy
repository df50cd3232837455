/**
 * PostgresVectorStoreOpenAI: stores documents as embedding rows in the
 * repository's table and answers similarity searches from it.
 *
 * The embedding model is a given function from a text to an embedding, or
 * None when the call fails; the clock that stamps each saved row is a given
 * function of the document's position in the batch.
 */
module VectorStore {
  import opened Wrappers
  import opened Documents
  import opened JString
  import opened Repository

  /** The row `add` saves for a document: its content, its embedding, its
      `filename` metadata or "unknown", and the time of saving. */
  function RowFor(id: int, doc: Document, e: Embedding, at: int): Row {
    Row(id, e, doc.content, FileNameOf(doc), at)
  }

  /** The position of the first document the embedding model fails on. */
  function FirstFailure(docs: seq<Document>, embed: string -> Option<Embedding>): (r: Option<nat>)
    ensures r.Some? ==> r.value < |docs| && embed(docs[r.value].content).None?
    ensures r.Some? ==> forall i :: 0 <= i < r.value ==> embed(docs[i].content).Some?
    ensures r.None? ==> forall i :: 0 <= i < |docs| ==> embed(docs[i].content).Some?
  {
    if docs == [] then None
    else if embed(docs[0].content).None? then Some(0)
    else
      match FirstFailure(docs[1..], embed)
      case None => None
      case Some(i) => Some(i + 1)
  }

  predicate AllEmbed(docs: seq<Document>, embed: string -> Option<Embedding>) {
    forall i :: 0 <= i < |docs| ==> embed(docs[i].content).Some?
  }

  /** How many documents `add` saves: those before the first failure, or all. */
  function SavedCount(docs: seq<Document>, embed: string -> Option<Embedding>): (n: nat)
    ensures n <= |docs| && AllEmbed(docs[..n], embed)
    ensures n < |docs| ==> embed(docs[n].content).None?
    ensures FirstFailure(docs, embed).None? <==> n == |docs|
  {
    assert forall j :: 0 <= j < |docs| ==> docs[..|docs|][j] == docs[j];
    match FirstFailure(docs, embed)
    case None => |docs|
    case Some(i) => assert forall j :: 0 <= j < i ==> docs[..i][j] == docs[j]; i
  }

  /** The rows saved for `docs`, one per document in order, with consecutive
      identity values from `firstId`. */
  function NewRows(docs: seq<Document>, embed: string -> Option<Embedding>, firstId: int, clock: nat -> int): (r: seq<Row>)
    requires AllEmbed(docs, embed)
    ensures |r| == |docs|
    ensures forall i :: 0 <= i < |docs| ==>
      r[i] == RowFor(firstId + i, docs[i], embed(docs[i].content).value, clock(i))
  {
    if docs == [] then []
    else
      var n := |docs| - 1;
      NewRows(docs[..n], embed, firstId, clock) + [RowFor(firstId + n, docs[n], embed(docs[n].content).value, clock(n))]
  }

  /** `SearchRequest.getSimilarityThreshold() > 0` picks the thresholded query. */
  function Matches(rows: seq<Row>, d: Row -> real, topK: nat, threshold: real): seq<Row> {
    if threshold > 0.0 then NearestWithThreshold(rows, d, topK, threshold)
    else NearestNeighbors(rows, d, topK)
  }

  /** A result document: the chunk, with the row's file name, id and creation time. */
  function ToDocument(row: Row): Document {
    Document(row.chunk, map["filename" := Str(row.fileName), "id" := Long(row.id), "created_at" := Timestamp(row.createdAt)])
  }

  function ToDocuments(rows: seq<Row>): (r: seq<Document>)
    ensures |r| == |rows|
    ensures forall i :: 0 <= i < |rows| ==> r[i] == ToDocument(rows[i])
  {
    if rows == [] then [] else [ToDocument(rows[0])] + ToDocuments(rows[1..])
  }

  class PostgresVectorStore {
    const repository: EmbeddingTable

    constructor(repository: EmbeddingTable)
      ensures this.repository == repository
    {
      this.repository := repository;
    }

    /** `add`: one row per document, in order. The first document the
        embedding model fails on ends the call with an error (`failedAt`);
        the rows saved before it stay. */
    method Add(documents: seq<Document>, embed: string -> Option<Embedding>, clock: nat -> int)
      returns (failedAt: Option<nat>)
      requires repository.Valid()
      modifies repository
      ensures repository.Valid()
      ensures failedAt == FirstFailure(documents, embed)
      ensures repository.rows == old(repository.rows) + NewRows(documents[..SavedCount(documents, embed)], embed, old(repository.nextId), clock)
      ensures repository.nextId == old(repository.nextId) + SavedCount(documents, embed)
    {
      var i := 0;
      while i < |documents|
        invariant 0 <= i <= |documents|
        invariant repository.Valid()
        invariant AllEmbed(documents[..i], embed)
        invariant repository.rows == old(repository.rows) + NewRows(documents[..i], embed, old(repository.nextId), clock)
        invariant repository.nextId == old(repository.nextId) + i
      {
        var doc := documents[i];
        var embedding := embed(doc.content);
        if embedding.None? {
          FirstFailureAt(documents, embed, i);
          assert SavedCount(documents, embed) == i;
          return Some(i);
        }
        ghost var added := NewRows(documents[..i], embed, old(repository.nextId), clock);
        NewRowsStep(documents, embed, old(repository.nextId), clock, i);
        var saved := repository.Save(embedding.value, doc.content, FileNameOf(doc), clock(i));
        assert saved == RowFor(old(repository.nextId) + i, doc, embedding.value, clock(i));
        ConcatAssoc(old(repository.rows), added, [saved]);
        i := i + 1;
      }
      assert documents[..i] == documents;
      FirstFailureNone(documents, embed);
      assert SavedCount(documents, embed) == i;
      return None;
    }

    /** `similaritySearch`: the query's embedding, then the thresholded query
        when the threshold is positive and the plain top-k query otherwise,
        each row becoming one document. A failing embedding call is an error. */
    method SimilaritySearch(query: string, topK: nat, threshold: real,
                            embed: string -> Option<Embedding>, dist: (Embedding, Embedding) -> real)
      returns (r: Result<seq<Document>, string>)
      ensures embed(query).None? ==> r.Failure?
      ensures embed(query).Some? ==>
        var q := embed(query).value;
        r == Success(ToDocuments(Matches(repository.rows, (row: Row) => dist(row.embedding, q), topK, threshold)))
    {
      var response := embed(query);
      if response.None? {
        return Failure("OpenAI similarity search failed");
      }
      var queryEmbedding := response.value;
      var d := (row: Row) => dist(row.embedding, queryEmbedding);
      var nearest;
      if threshold > 0.0 {
        nearest := NearestWithThreshold(repository.rows, d, topK, threshold);
      } else {
        nearest := NearestNeighbors(repository.rows, d, topK);
      }
      r := Success(ToDocuments(nearest));
    }

    /** `delete` is not supported: it always fails and changes nothing. */
    method Delete(ids: seq<string>) returns (r: Result<bool, string>)
      ensures r == Failure("Delete operation not implemented")
    {
      r := Failure("Delete operation not implemented");
    }

    /** `getDocumentCount` */
    method GetDocumentCount() returns (count: nat)
      ensures count == |repository.rows|
    {
      count := |repository.rows|;
    }

    /** `getAvailableFiles` */
    method GetAvailableFiles() returns (files: seq<string>)
      ensures files == DistinctFileNames(repository.rows)
    {
      files := DistinctFileNames(repository.rows);
    }
  }

  /** One more document saved: one more row at the end. */
  lemma NewRowsStep(docs: seq<Document>, embed: string -> Option<Embedding>, firstId: int, clock: nat -> int, i: nat)
    requires i < |docs| && AllEmbed(docs[..i], embed) && embed(docs[i].content).Some?
    ensures AllEmbed(docs[..i + 1], embed)
    ensures NewRows(docs[..i + 1], embed, firstId, clock)
         == NewRows(docs[..i], embed, firstId, clock) + [RowFor(firstId + i, docs[i], embed(docs[i].content).value, clock(i))]
  {
    assert docs[..i + 1][..i] == docs[..i];
    assert forall j :: 0 <= j < i ==> docs[..i + 1][j] == docs[..i][j];
  }

  lemma FirstFailureAt(docs: seq<Document>, embed: string -> Option<Embedding>, i: nat)
    requires i < |docs| && embed(docs[i].content).None?
    requires AllEmbed(docs[..i], embed)
    ensures FirstFailure(docs, embed) == Some(i)
  {
    assert forall j :: 0 <= j < i ==> docs[..i][j] == docs[j];
  }

  lemma FirstFailureNone(docs: seq<Document>, embed: string -> Option<Embedding>)
    requires AllEmbed(docs, embed)
    ensures FirstFailure(docs, embed) == None
  {
  }

  /** After a failure at document i, exactly the rows for the documents
      before i were added: none for i or after it. */
  lemma PartialAdd(docs: seq<Document>, embed: string -> Option<Embedding>, firstId: int, clock: nat -> int, i: nat)
    requires FirstFailure(docs, embed) == Some(i)
    ensures AllEmbed(docs[..i], embed)
    ensures var added := NewRows(docs[..i], embed, firstId, clock);
      && |added| == i
      && forall j :: 0 <= j < i ==> added[j].chunk == docs[j].content && added[j].fileName == FileNameOf(docs[j])
  {
    assert forall j :: 0 <= j < i ==> docs[..i][j] == docs[j];
  }

  /** A positive threshold gives only rows whose similarity reaches it; any
      other gives min(topK, #rows) rows; either way nearest first. */
  lemma MatchesShape(rows: seq<Row>, d: Row -> real, topK: nat, threshold: real)
    ensures SortedBy(Matches(rows, d, topK, threshold), d)
    ensures threshold > 0.0 ==> forall i :: 0 <= i < |Matches(rows, d, topK, threshold)| ==>
      1.0 - d(Matches(rows, d, topK, threshold)[i]) >= threshold
    ensures threshold <= 0.0 ==> |Matches(rows, d, topK, threshold)| == if topK < |rows| then topK else |rows|
  {
    if threshold > 0.0 {
      ThresholdKeepsClose(rows, d, topK, threshold);
    } else {
      NearestAreNearest(rows, d, topK);
    }
  }
}
