/**
 * DocumentEmbeddingOpenAIRepository over the `document_embeddings` table:
 * the declared queries as functions over the stored rows, and the inherited
 * `save` and `delete` as methods of a table that holds the rows and the next
 * identity value.
 *
 * The distance between a row's embedding and the query embedding (pgvector's
 * `<=>`) is a given function `d` from rows to reals. SQL leaves the order of
 * equal sort keys open; here rows with equal keys keep their stored order.
 */
module Repository {
  import opened JString

  /** A stored vector; only the distance function looks at its values. */
  datatype Embedding = Embedding(values: seq<real>)

  /** DocumentEmbeddingOpenAI: one stored chunk. */
  datatype Row = Row(id: int, embedding: Embedding, chunk: string, fileName: string, createdAt: int)

  // ---------------------------------------------------------------------------
  // Ordering by a key, as `ORDER BY` does.

  predicate SortedBy(rows: seq<Row>, key: Row -> real) {
    forall i, j :: 0 <= i < j < |rows| ==> key(rows[i]) <= key(rows[j])
  }

  /** `x` placed before the first row whose key is not smaller. */
  function Insert(x: Row, rows: seq<Row>, key: Row -> real): (r: seq<Row>)
    ensures |r| == |rows| + 1
    ensures multiset(r) == multiset(rows) + multiset{x}
  {
    if rows == [] || key(x) <= key(rows[0]) then [x] + rows
    else
      assert rows == [rows[0]] + rows[1..];
      [rows[0]] + Insert(x, rows[1..], key)
  }

  /** Inserting into a sorted sequence keeps it sorted. */
  lemma {:induction false} InsertSorted(x: Row, rows: seq<Row>, key: Row -> real)
    requires SortedBy(rows, key)
    ensures SortedBy(Insert(x, rows, key), key)
    ensures Insert(x, rows, key)[0] == x || Insert(x, rows, key)[0] == rows[0]
  {
    if rows != [] && key(x) > key(rows[0]) {
      var tail := Insert(x, rows[1..], key);
      assert SortedBy(rows[1..], key);
      InsertSorted(x, rows[1..], key);
      assert key(rows[0]) <= key(tail[0]);
      var r := [rows[0]] + tail;
      forall i, j | 0 <= i < j < |r|
        ensures key(r[i]) <= key(r[j])
      {
        if i > 0 {
          assert r[i] == tail[i - 1] && r[j] == tail[j - 1];
        } else if j > 1 {
          assert r[j] == tail[j - 1];
          assert key(tail[0]) <= key(tail[j - 1]);
        }
      }
    }
  }

  /** The rows in ascending key order; rows with equal keys keep their order. */
  function Ranked(rows: seq<Row>, key: Row -> real): (r: seq<Row>)
    ensures |r| == |rows|
    ensures multiset(r) == multiset(rows)
    ensures SortedBy(r, key)
  {
    if rows == [] then []
    else
      assert rows == [rows[0]] + rows[1..];
      var rest := Ranked(rows[1..], key);
      InsertSorted(rows[0], rest, key);
      Insert(rows[0], rest, key)
  }

  function Take(rows: seq<Row>, k: nat): (r: seq<Row>)
    ensures |r| == if k < |rows| then k else |rows|
    ensures r == rows[..|r|]
  {
    if k < |rows| then rows[..k] else rows
  }

  // ---------------------------------------------------------------------------
  // findNearestNeighbors and findNearestNeighborsWithThreshold

  /** `ORDER BY embedding <=> q LIMIT k`: `d` gives each row's distance to q. */
  function NearestNeighbors(rows: seq<Row>, d: Row -> real, k: nat): seq<Row> {
    Take(Ranked(rows, d), k)
  }

  /** `1 - (embedding <=> q) >= threshold` */
  predicate Close(r: Row, d: Row -> real, threshold: real) {
    1.0 - d(r) >= threshold
  }

  function CloseRows(rows: seq<Row>, d: Row -> real, threshold: real): (r: seq<Row>)
    ensures |r| <= |rows|
    ensures forall x :: x in r ==> Close(x, d, threshold)
  {
    if rows == [] then []
    else (if Close(rows[0], d, threshold) then [rows[0]] else []) + CloseRows(rows[1..], d, threshold)
  }

  /** The thresholded query: the close rows, nearest first, at most k. */
  function NearestWithThreshold(rows: seq<Row>, d: Row -> real, k: nat, threshold: real): seq<Row> {
    Take(Ranked(CloseRows(rows, d, threshold), d), k)
  }

  /** min(k, #rows) rows, nearest first, and no row left out is nearer than
      one returned. */
  lemma NearestAreNearest(rows: seq<Row>, d: Row -> real, k: nat)
    ensures var r := NearestNeighbors(rows, d, k);
      && |r| == (if k < |rows| then k else |rows|)
      && SortedBy(r, d)
      && multiset(r) + multiset(Ranked(rows, d)[|r|..]) == multiset(rows)
      && forall i, j :: 0 <= i < |r| && |r| <= j < |rows| ==> d(r[i]) <= d(Ranked(rows, d)[j])
  {
    var all := Ranked(rows, d);
    var r := NearestNeighbors(rows, d, k);
    assert all == r + all[|r|..];
    assert multiset(all) == multiset(r) + multiset(all[|r|..]) by {
      assert all == r + all[|r|..];
    }
  }

  /** Only close rows, at most k of them (fewer only when fewer are close),
      nearest first. */
  lemma ThresholdKeepsClose(rows: seq<Row>, d: Row -> real, k: nat, threshold: real)
    ensures var r := NearestWithThreshold(rows, d, k, threshold);
      var close := CloseRows(rows, d, threshold);
      && |r| == (if k < |close| then k else |close|)
      && SortedBy(r, d)
      && forall i :: 0 <= i < |r| ==> Close(r[i], d, threshold)
  {
    var close := CloseRows(rows, d, threshold);
    var ranked := Ranked(close, d);
    var r := NearestWithThreshold(rows, d, k, threshold);
    forall i | 0 <= i < |r|
      ensures Close(r[i], d, threshold)
    {
      assert r[i] in multiset(ranked);
    }
  }

  /** The thresholded result is a prefix of the unthresholded one for the same k. */
  lemma ThresholdIsPrefix(rows: seq<Row>, d: Row -> real, k: nat, threshold: real)
    ensures var t := NearestWithThreshold(rows, d, k, threshold);
      var n := NearestNeighbors(rows, d, k);
      |t| <= |n| && t == n[..|t|]
  {
    var ranked := Ranked(rows, d);
    RankedClose(rows, d, threshold);
    CloseSortedPrefix(ranked, d, threshold);
    TakePrefix(CloseRows(ranked, d, threshold), ranked, k);
  }

  /** Taking k rows of a prefix gives a prefix of taking k rows of the whole. */
  lemma TakePrefix(c: seq<Row>, s: seq<Row>, k: nat)
    requires |c| <= |s| && c == s[..|c|]
    ensures |Take(c, k)| <= |Take(s, k)| && Take(c, k) == Take(s, k)[..|Take(c, k)|]
  {
    var t := Take(c, k);
    var n := Take(s, k);
    forall i | 0 <= i < |t|
      ensures t[i] == n[i]
    {
      assert t[i] == c[i] == s[i];
    }
  }

  /** Ranking the close rows gives the close rows of the ranking. */
  lemma {:induction false} RankedClose(rows: seq<Row>, d: Row -> real, threshold: real)
    ensures Ranked(CloseRows(rows, d, threshold), d) == CloseRows(Ranked(rows, d), d, threshold)
  {
    if rows != [] {
      var x := rows[0];
      var rest := rows[1..];
      RankedClose(rest, d, threshold);
      var sorted := Ranked(rest, d);
      if Close(x, d, threshold) {
        assert CloseRows(rows, d, threshold) == [x] + CloseRows(rest, d, threshold);
        InsertCloseKept(x, sorted, d, threshold);
      } else {
        assert CloseRows(rows, d, threshold) == CloseRows(rest, d, threshold) by {
          ConcatEmpty(CloseRows(rest, d, threshold));
        }
        InsertCloseDropped(x, sorted, d, threshold);
      }
    }
  }

  lemma {:induction false} InsertCloseKept(x: Row, s: seq<Row>, d: Row -> real, threshold: real)
    requires Close(x, d, threshold) && SortedBy(s, d)
    ensures CloseRows(Insert(x, s, d), d, threshold) == Insert(x, CloseRows(s, d, threshold), d)
  {
    var cs := CloseRows(s, d, threshold);
    if s == [] {
    } else if d(x) <= d(s[0]) {
      assert Insert(x, s, d) == [x] + s;
      assert CloseRows([x] + s, d, threshold) == [x] + cs by {
        assert ([x] + s)[1..] == s;
      }
      if cs != [] {
        CloseHeadAtLeast(s, d, threshold);
      }
    } else {
      assert Close(s[0], d, threshold);
      var tail := Insert(x, s[1..], d);
      assert Insert(x, s, d) == [s[0]] + tail;
      assert SortedBy(s[1..], d);
      InsertCloseKept(x, s[1..], d, threshold);
      assert CloseRows([s[0]] + tail, d, threshold) == [s[0]] + CloseRows(tail, d, threshold) by {
        assert ([s[0]] + tail)[1..] == tail;
      }
      assert cs == [s[0]] + CloseRows(s[1..], d, threshold);
    }
  }

  /** The first close row of a sorted sequence is no nearer than its first row. */
  lemma {:induction false} CloseHeadAtLeast(s: seq<Row>, d: Row -> real, threshold: real)
    requires SortedBy(s, d) && CloseRows(s, d, threshold) != []
    ensures s != [] && d(s[0]) <= d(CloseRows(s, d, threshold)[0])
  {
    if !Close(s[0], d, threshold) {
      assert CloseRows(s, d, threshold) == CloseRows(s[1..], d, threshold) by {
        ConcatEmpty(CloseRows(s[1..], d, threshold));
      }
      assert SortedBy(s[1..], d);
      CloseHeadAtLeast(s[1..], d, threshold);
      assert s[1..][0] == s[1];
    }
  }

  lemma {:induction false} InsertCloseDropped(x: Row, s: seq<Row>, d: Row -> real, threshold: real)
    requires !Close(x, d, threshold)
    ensures CloseRows(Insert(x, s, d), d, threshold) == CloseRows(s, d, threshold)
  {
    if s == [] || d(x) <= d(s[0]) {
      assert Insert(x, s, d) == [x] + s;
      assert ([x] + s)[1..] == s;
      ConcatEmpty(CloseRows(s, d, threshold));
    } else {
      var tail := Insert(x, s[1..], d);
      assert Insert(x, s, d) == [s[0]] + tail;
      assert ([s[0]] + tail)[1..] == tail;
      InsertCloseDropped(x, s[1..], d, threshold);
    }
  }

  /** In a sorted sequence the close rows are a prefix. */
  lemma {:induction false} CloseSortedPrefix(s: seq<Row>, d: Row -> real, threshold: real)
    requires SortedBy(s, d)
    ensures var c := CloseRows(s, d, threshold); c == s[..|c|]
  {
    if s != [] {
      assert SortedBy(s[1..], d);
      if Close(s[0], d, threshold) {
        CloseSortedPrefix(s[1..], d, threshold);
        var c := CloseRows(s[1..], d, threshold);
        assert s[1..][..|c|] == s[1..|c| + 1];
        assert s == [s[0]] + s[1..];
      } else {
        NoneClose(s[1..], d, threshold, d(s[0]));
        ConcatEmpty(CloseRows(s[1..], d, threshold));
      }
    }
  }

  lemma {:induction false} NoneClose(s: seq<Row>, d: Row -> real, threshold: real, floor: real)
    requires 1.0 - floor < threshold
    requires forall i :: 0 <= i < |s| ==> floor <= d(s[i])
    ensures CloseRows(s, d, threshold) == []
  {
    if s != [] {
      NoneClose(s[1..], d, threshold, floor);
    }
  }

  // ---------------------------------------------------------------------------
  // findByFileName, countByFileName, findDistinctFileNames

  function FindByFileName(rows: seq<Row>, fileName: string): (r: seq<Row>)
    ensures |r| <= |rows|
    ensures forall x :: x in r <==> x in rows && x.fileName == fileName
  {
    if rows == [] then []
    else
      assert forall x :: x in rows <==> x == rows[0] || x in rows[1..];
      (if rows[0].fileName == fileName then [rows[0]] else []) + FindByFileName(rows[1..], fileName)
  }

  /** `SELECT COUNT(d) ... WHERE d.fileName = :fileName` */
  function CountByFileName(rows: seq<Row>, fileName: string): (n: nat)
    ensures n == |FindByFileName(rows, fileName)|
  {
    if rows == [] then 0
    else (if rows[0].fileName == fileName then 1 else 0) + CountByFileName(rows[1..], fileName)
  }

  /** `SELECT DISTINCT d.fileName`, in order of first appearance. */
  function DistinctFileNames(rows: seq<Row>): (r: seq<string>)
    ensures forall i, j :: 0 <= i < j < |r| ==> r[i] != r[j]
    ensures forall i :: 0 <= i < |rows| ==> rows[i].fileName in r
    ensures forall x :: x in r ==> exists i :: 0 <= i < |rows| && rows[i].fileName == x
  {
    if rows == [] then []
    else
      var n := |rows|;
      var init := DistinctFileNames(rows[..n - 1]);
      assert forall i :: 0 <= i < n - 1 ==> rows[..n - 1][i] == rows[i];
      if rows[n - 1].fileName in init then init else init + [rows[n - 1].fileName]
  }

  // ---------------------------------------------------------------------------
  // findByChunkContainingIgnoreCase, findAllOrderByCreatedAtDesc

  /** `LOWER(d.chunk) LIKE LOWER(CONCAT('%', :text, '%'))` */
  function ChunkContaining(rows: seq<Row>, text: string): (r: seq<Row>)
    ensures |r| <= |rows|
    ensures forall x :: x in r <==> x in rows && Contains(Lower(x.chunk), Lower(text))
  {
    if rows == [] then []
    else
      assert forall x :: x in rows <==> x == rows[0] || x in rows[1..];
      (if Contains(Lower(rows[0].chunk), Lower(text)) then [rows[0]] else []) + ChunkContaining(rows[1..], text)
  }

  function Age(r: Row): real { -(r.createdAt as real) }

  /** `ORDER BY d.createdAt DESC` */
  function NewestFirst(rows: seq<Row>): seq<Row> {
    Ranked(rows, Age)
  }

  /** Every row once, the most recently created first. */
  lemma NewestFirstOrder(rows: seq<Row>)
    ensures var r := NewestFirst(rows);
      && multiset(r) == multiset(rows)
      && forall i, j :: 0 <= i < j < |r| ==> r[i].createdAt >= r[j].createdAt
  {
    var r := NewestFirst(rows);
    forall i, j | 0 <= i < j < |r|
      ensures r[i].createdAt >= r[j].createdAt
    {
      assert Age(r[i]) <= Age(r[j]);
    }
  }

  // ---------------------------------------------------------------------------
  // The table and the inherited `save` and `delete`.

  /** Identity values increase in storage order. */
  predicate IdsIncreasing(rows: seq<Row>) {
    forall i, j :: 0 <= i < j < |rows| ==> rows[i].id < rows[j].id
  }

  /** The rows less the one with identity `id`, in order. */
  function WithoutId(rows: seq<Row>, id: int): (r: seq<Row>)
    ensures |r| <= |rows|
    ensures forall x :: x in r <==> x in rows && x.id != id
  {
    if rows == [] then []
    else
      assert forall x :: x in rows <==> x == rows[0] || x in rows[1..];
      (if rows[0].id != id then [rows[0]] else []) + WithoutId(rows[1..], id)
  }

  /** Removing a row keeps the identity values increasing. */
  lemma {:induction false} WithoutIdIncreasing(rows: seq<Row>, id: int)
    requires IdsIncreasing(rows)
    ensures IdsIncreasing(WithoutId(rows, id))
  {
    if rows != [] {
      var rest := WithoutId(rows[1..], id);
      assert IdsIncreasing(rows[1..]);
      WithoutIdIncreasing(rows[1..], id);
      if rows[0].id != id {
        HeadBelow(rows);
        PrependIncreasing(rows[0], rest);
      } else {
        ConcatEmpty(rest);
      }
    }
  }

  lemma HeadBelow(rows: seq<Row>)
    requires IdsIncreasing(rows) && rows != []
    ensures forall x :: x in rows[1..] ==> rows[0].id < x.id
  {
    forall x | x in rows[1..]
      ensures rows[0].id < x.id
    {
      var m :| 0 <= m < |rows[1..]| && rows[1..][m] == x;
      assert rows[m + 1] == x;
    }
  }

  lemma PrependIncreasing(x: Row, rest: seq<Row>)
    requires IdsIncreasing(rest)
    requires forall y :: y in rest ==> x.id < y.id
    ensures IdsIncreasing([x] + rest)
  {
    var r := [x] + rest;
    forall i, j | 0 <= i < j < |r|
      ensures r[i].id < r[j].id
    {
      assert r[j] == rest[j - 1];
      if i > 0 {
        assert r[i] == rest[i - 1];
      }
    }
  }

  class EmbeddingTable {
    var rows: seq<Row>
    var nextId: int

    ghost predicate Valid()
      reads this
    {
      IdsIncreasing(rows) && forall i :: 0 <= i < |rows| ==> rows[i].id < nextId
    }

    constructor()
      ensures rows == [] && nextId == 1 && Valid()
    {
      rows := [];
      nextId := 1;
    }

    /** `save` of a new entity: it gets the next identity value. */
    method Save(embedding: Embedding, chunk: string, fileName: string, createdAt: int) returns (saved: Row)
      requires Valid()
      modifies this
      ensures Valid()
      ensures saved == Row(old(nextId), embedding, chunk, fileName, createdAt)
      ensures rows == old(rows) + [saved] && nextId == old(nextId) + 1
    {
      saved := Row(nextId, embedding, chunk, fileName, createdAt);
      rows := rows + [saved];
      nextId := nextId + 1;
    }

    /** `delete` of an entity: its row goes, if it is still there. */
    method Delete(entity: Row)
      requires Valid()
      modifies this
      ensures Valid()
      ensures rows == WithoutId(old(rows), entity.id) && nextId == old(nextId)
    {
      WithoutIdIncreasing(rows, entity.id);
      rows := WithoutId(rows, entity.id);
    }
  }
}
