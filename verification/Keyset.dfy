/** Filling an index from the database by keyset pagination: each query asks for the rows after the
    last id seen, while the table may change between queries. */
module Keyset {
  import opened Wrappers
  import opened Integers

  /** One row of the select: its integer primary key, and the document built from it. */
  datatype Row = Row(id: int, slug: string, document: string)

  /** A table at one instant, in the order of its primary key. */
  ghost predicate IsTable(rows: seq<Row>) {
    && (forall i :: 0 <= i < |rows| ==> rows[i].id <= I32_MAX)
    && (forall i, j :: 0 <= i < j < |rows| ==> rows[i].id < rows[j].id)
  }

  /** How many rows, from the i-th on, are at or below the cursor before the first that is beyond it. */
  function Skip(rows: seq<Row>, cursor: int, i: nat): (first: nat)
    requires i <= |rows|
    ensures i <= first <= |rows|
    ensures forall j :: i <= j < first ==> rows[j].id <= cursor
    ensures first < |rows| ==> rows[first].id > cursor
    decreases |rows| - i
  {
    if i == |rows| || rows[i].id > cursor then i else Skip(rows, cursor, i + 1)
  }

  /** `WHERE id > cursor ORDER BY id`. */
  function Beyond(rows: seq<Row>, cursor: int): seq<Row> {
    rows[Skip(rows, cursor, 0)..]
  }

  /** `… LIMIT limit`. */
  function Batch(rows: seq<Row>, cursor: int, limit: nat): seq<Row> {
    var rest := Beyond(rows, cursor);
    if |rest| <= limit then rest else rest[..limit]
  }

  lemma SkippedOrBeyond(rows: seq<Row>, cursor: int, i: nat)
    requires IsTable(rows) && i < |rows|
    ensures rows[i].id > cursor <==> i >= Skip(rows, cursor, 0)
  {
    var first := Skip(rows, cursor, 0);
    if i > first {
      assert rows[first].id < rows[i].id;
    }
  }

  /** A row is beyond the cursor exactly when it is in the table with a larger id. */
  lemma BeyondMembers(rows: seq<Row>, cursor: int, row: Row)
    requires IsTable(rows)
    ensures row in Beyond(rows, cursor) <==> row in rows && row.id > cursor
  {
    hide IsTable, Skip;
    var first := Skip(rows, cursor, 0);
    var rest := rows[first..];
    if row in rest {
      var i :| 0 <= i < |rest| && rest[i] == row;
      assert rows[first + i] == row;
      SkippedOrBeyond(rows, cursor, first + i);
    }
    if row in rows && row.id > cursor {
      var i :| 0 <= i < |rows| && rows[i] == row;
      SkippedOrBeyond(rows, cursor, i);
      assert rest[i - first] == row;
    }
  }

  /** A batch is a slice of the table that starts at the first row beyond the cursor. */
  lemma BatchIsSlice(rows: seq<Row>, cursor: int, limit: nat)
    ensures
      var first, batch := Skip(rows, cursor, 0), Batch(rows, cursor, limit);
      first + |batch| <= |rows| && batch == rows[first..first + |batch|]
  {
  }

  lemma SkipIs(rows: seq<Row>, cursor: int, first: nat)
    requires IsTable(rows) && first <= |rows|
    requires first > 0 ==> rows[first - 1].id <= cursor
    requires first < |rows| ==> rows[first].id > cursor
    ensures Skip(rows, cursor, 0) == first
  {
    if first > 0 {
      SkippedOrBeyond(rows, cursor, first - 1);
    }
    if first < |rows| {
      SkippedOrBeyond(rows, cursor, first);
    }
  }

  /** A non-empty batch is the rows up to its last id, and what remains is the next query's. */
  lemma BatchSplits(rows: seq<Row>, cursor: int, limit: nat)
    requires IsTable(rows) && Batch(rows, cursor, limit) != []
    ensures
      var batch := Batch(rows, cursor, limit);
      var last := batch[|batch| - 1].id;
      && cursor < last <= I32_MAX
      && Beyond(rows, cursor) == batch + Beyond(rows, last)
  {
    hide Skip, Batch;
    var batch := Batch(rows, cursor, limit);
    var first := Skip(rows, cursor, 0);
    var end := first + |batch|;
    BatchIsSlice(rows, cursor, limit);
    var last := batch[|batch| - 1].id;
    assert last == rows[end - 1].id;
    SkippedOrBeyond(rows, cursor, end - 1);
    SkipIs(rows, last, end);
    assert rows[first..] == rows[first..end] + rows[end..];
  }

  lemma IdsAscend(rows: seq<Row>, i: nat, j: nat)
    requires IsTable(rows) && i <= j < |rows|
    ensures rows[i].id <= rows[j].id
    ensures i < j ==> rows[i].id < rows[j].id
  {
  }

  lemma BatchAscends(rows: seq<Row>, cursor: int, limit: nat)
    requires IsTable(rows)
    ensures
      var batch := Batch(rows, cursor, limit);
      && (forall i, j :: 0 <= i < j < |batch| ==> batch[i].id < batch[j].id)
      && (forall i :: 0 <= i < |batch| ==>
            batch[i] in rows && cursor < batch[i].id <= batch[|batch| - 1].id)
  {
    hide Skip, Batch, IsTable;
    var first, batch := Skip(rows, cursor, 0), Batch(rows, cursor, limit);
    BatchIsSlice(rows, cursor, limit);
    forall i | 0 <= i < |batch|
      ensures batch[i] in rows && cursor < batch[i].id <= batch[|batch| - 1].id
    {
      assert batch[i] == rows[first + i];
      SkippedOrBeyond(rows, cursor, first + i);
      IdsAscend(rows, first + i, first + |batch| - 1);
    }
    forall i, j | 0 <= i < j < |batch|
      ensures batch[i].id < batch[j].id
    {
      IdsAscend(rows, first + i, first + j);
    }
  }

  // ---------------------------------------------------------------------------------------------
  // The index and the loop

  function Stored(docs: map<string, Row>, batch: seq<Row>): map<string, Row> {
    if batch == [] then docs
    else
      var last := batch[|batch| - 1];
      Stored(docs, batch[..|batch| - 1])[last.slug := last]
  }

  lemma {:induction false} StoredInTwo(docs: map<string, Row>, first: seq<Row>, second: seq<Row>)
    ensures Stored(Stored(docs, first), second) == Stored(docs, first + second)
  {
    if second == [] {
      assert first + second == first;
    } else {
      StoredInTwo(docs, first, second[..|second| - 1]);
      assert (first + second)[..|first + second| - 1] == first + second[..|second| - 1];
    }
  }

  ghost predicate UniqueSlugs(rows: seq<Row>) {
    forall i, j :: 0 <= i < j < |rows| ==> rows[i].slug != rows[j].slug
  }

  lemma {:induction false} StoredSlugs(rows: seq<Row>, slug: string)
    ensures slug in Stored(map[], rows) <==> exists i :: 0 <= i < |rows| && rows[i].slug == slug
  {
    if rows == [] {
    } else {
      var front, last := rows[..|rows| - 1], rows[|rows| - 1];
      StoredSlugs(front, slug);
      if slug in Stored(map[], front) {
        var i :| 0 <= i < |front| && front[i].slug == slug;
        assert rows[i].slug == slug;
      } else if exists i :: 0 <= i < |rows| && rows[i].slug == slug {
        var i :| 0 <= i < |rows| && rows[i].slug == slug;
        if i < |front| {
          assert front[i].slug == slug;
        }
      }
    }
  }

  /** With unique slugs no document overwrites another. */
  lemma {:induction false} StoredUnique(rows: seq<Row>)
    requires UniqueSlugs(rows)
    ensures |Stored(map[], rows)| == |rows|
    ensures forall i :: 0 <= i < |rows| ==>
              rows[i].slug in Stored(map[], rows) && Stored(map[], rows)[rows[i].slug] == rows[i]
  {
    if rows == [] {
    } else {
      var front, last := rows[..|rows| - 1], rows[|rows| - 1];
      StoredUnique(front);
      StoredSlugs(front, last.slug);
      assert Stored(map[], rows).Keys == Stored(map[], front).Keys + {last.slug};
      forall i | 0 <= i < |rows|
        ensures rows[i].slug in Stored(map[], rows) && Stored(map[], rows)[rows[i].slug] == rows[i]
      {
        if i < |front| {
          assert front[i] == rows[i] && rows[i].slug != last.slug;
        }
      }
    }
  }

  class SearchIndex {
    var docs: map<string, Row>

    constructor ()
      ensures docs == map[]
    {
      docs := map[];
    }

    /** One bulk request: a document per row, under its slug. */
    method Bulk(batch: seq<Row>)
      modifies this
      ensures docs == Stored(old(docs), batch)
    {
      var i := 0;
      while i < |batch|
        invariant 0 <= i <= |batch| && docs == Stored(old(docs), batch[..i])
      {
        assert batch[..i + 1][..i] == batch[..i];
        docs := docs[batch[i].slug := batch[i]];
        i := i + 1;
      }
      assert batch[..i] == batch;
    }
  }

  function BatchSize(configured: nat): Result<nat, string> {
    if configured == 0 then Err("bulkBatchSize must be at least 1") else Ok(configured)
  }

  ghost predicate HasId(rows: seq<Row>, id: int) {
    exists i :: 0 <= i < |rows| && rows[i].id == id
  }

  /** A row with this id was in the table at each of the first queries, whatever else it held. */
  ghost predicate Throughout(table: nat -> seq<Row>, queries: nat, id: int) {
    forall q: nat :: q < queries ==> HasId(table(q), id)
  }

  /** The row was in the table at some of the first queries. */
  ghost predicate Sometime(table: nat -> seq<Row>, queries: nat, row: Row) {
    exists q: nat :: q < queries && row in table(q)
  }

  /** What the loop has indexed after some queries: positive ids in ascending order, each row as some
      query saw it, and every id that all the queries saw, up to the cursor. */
  ghost predicate Complete(table: nat -> seq<Row>, queries: nat, cursor: int, indexed: seq<Row>) {
    && (forall i :: 0 <= i < |indexed| ==> 0 < indexed[i].id <= cursor)
    && (forall i, j :: 0 <= i < j < |indexed| ==> indexed[i].id < indexed[j].id)
    && (forall i :: 0 <= i < |indexed| ==> Sometime(table, queries, indexed[i]))
    && (forall id :: 0 < id <= cursor && Throughout(table, queries, id) ==> HasId(indexed, id))
  }

  lemma OneMoreQuery(table: nat -> seq<Row>, queries: nat, row: Row)
    ensures Sometime(table, queries, row) || row in table(queries) ==> Sometime(table, queries + 1, row)
  {
    if Sometime(table, queries, row) {
      var q: nat :| q < queries && row in table(q);
    }
  }

  lemma OneMoreId(table: nat -> seq<Row>, queries: nat, id: int)
    requires Throughout(table, queries + 1, id)
    ensures Throughout(table, queries, id) && HasId(table(queries), id)
  {
  }

  lemma HasMember(rows: seq<Row>, row: Row)
    requires row in rows
    ensures HasId(rows, row.id)
  {
  }

  lemma IdMember(rows: seq<Row>, id: int) returns (row: Row)
    requires HasId(rows, id)
    ensures row in rows && row.id == id
  {
    var i :| 0 <= i < |rows| && rows[i].id == id;
    row := rows[i];
  }

  /** One more query whose batch covers everything up to the new cursor. */
  lemma CompleteExtends(table: nat -> seq<Row>, queries: nat, cursor: int, indexed: seq<Row>, batch: seq<Row>,
                        last: int)
    requires Complete(table, queries, cursor, indexed) && 0 <= cursor <= last
    requires forall i :: 0 <= i < |batch| ==> batch[i] in table(queries) && cursor < batch[i].id <= last
    requires forall i, j :: 0 <= i < j < |batch| ==> batch[i].id < batch[j].id
    requires forall row :: row in table(queries) && cursor < row.id <= last ==> row in batch
    ensures Complete(table, queries + 1, last, indexed + batch)
  {
    hide Sometime, Throughout, HasId;
    var all := indexed + batch;
    forall i | 0 <= i < |all|
      ensures Sometime(table, queries + 1, all[i])
    {
      OneMoreQuery(table, queries, all[i]);
    }
    forall id | 0 < id <= last && Throughout(table, queries + 1, id)
      ensures HasId(all, id)
    {
      OneMoreId(table, queries, id);
      var row := IdMember(if id <= cursor then indexed else table(queries), id);
      HasMember(all, row);
    }
  }

  lemma SameId(rows: seq<Row>, row: Row, other: Row)
    requires IsTable(rows) && row in rows && other in rows && row.id == other.id
    ensures row == other
  {
    var i :| 0 <= i < |rows| && rows[i] == row;
    var j :| 0 <= j < |rows| && rows[j] == other;
    assert i == j;
  }

  /** A row that no query saw changed is indexed as it is. */
  lemma UnchangedIsIndexed(table: nat -> seq<Row>, queries: nat, cursor: int, indexed: seq<Row>, row: Row)
    requires Complete(table, queries, cursor, indexed) && forall q: nat :: IsTable(table(q))
    requires 0 < row.id <= cursor && forall q: nat :: q < queries ==> row in table(q)
    ensures row in indexed
  {
    hide IsTable;
    forall q: nat | q < queries
      ensures HasId(table(q), row.id)
    {
      HasMember(table(q), row);
    }
    var found := IdMember(indexed, row.id);
    assert Sometime(table, queries, found);
    var q: nat :| q < queries && found in table(q);
    SameId(table(q), row, found);
  }

  lemma CompleteAfterBatch(table: nat -> seq<Row>, queries: nat, cursor: int, indexed: seq<Row>, limit: nat)
    requires IsTable(table(queries)) && Complete(table, queries, cursor, indexed)
    requires cursor >= 0 && Batch(table(queries), cursor, limit) != []
    ensures
      var batch := Batch(table(queries), cursor, limit);
      Complete(table, queries + 1, batch[|batch| - 1].id, indexed + batch)
  {
    hide Complete, IsTable, Beyond, Batch;
    var rows := table(queries);
    var batch := Batch(rows, cursor, limit);
    var last := batch[|batch| - 1].id;
    BatchSplits(rows, cursor, limit);
    BatchAscends(rows, cursor, limit);
    forall row | row in rows && cursor < row.id <= last
      ensures row in batch
    {
      BeyondMembers(rows, cursor, row);
      BeyondMembers(rows, last, row);
    }
    CompleteExtends(table, queries, cursor, indexed, batch, last);
  }

  /** An empty batch means that nothing lies beyond the cursor, so the work is complete. */
  lemma CompleteAtTheEnd(table: nat -> seq<Row>, queries: nat, cursor: int, indexed: seq<Row>)
    requires IsTable(table(queries)) && Complete(table, queries, cursor, indexed)
    requires 0 <= cursor <= I32_MAX && Beyond(table(queries), cursor) == []
    ensures Complete(table, queries + 1, I32_MAX, indexed)
  {
    hide Complete, IsTable, Beyond;
    forall row | row in table(queries) && cursor < row.id <= I32_MAX
      ensures row in []
    {
      BeyondMembers(table(queries), cursor, row);
    }
    CompleteExtends(table, queries, cursor, indexed, [], I32_MAX);
    assert indexed + [] == indexed;
  }

  lemma {:induction false} AscendingFits(rows: seq<Row>, cursor: int)
    requires forall i :: 0 <= i < |rows| ==> 0 < rows[i].id <= cursor
    requires forall i, j :: 0 <= i < j < |rows| ==> rows[i].id < rows[j].id
    requires cursor >= 0
    ensures |rows| <= cursor
  {
    if rows == [] {
    } else {
      AscendingFits(rows[..|rows| - 1], rows[|rows| - 1].id - 1);
    }
  }

  lemma CompleteFits(table: nat -> seq<Row>, queries: nat, cursor: int, indexed: seq<Row>)
    requires Complete(table, queries, cursor, indexed) && cursor >= 0
    ensures |indexed| <= cursor
  {
    AscendingFits(indexed, cursor);
  }

  /** The table is the same at every query. */
  ghost predicate Still(table: nat -> seq<Row>) {
    forall q: nat :: table(q) == table(0)
  }

  lemma StandsStill(table: nat -> seq<Row>, query: nat)
    ensures Still(table) ==> table(query) == table(0)
  {
  }

  /** On a table that stands still, what is indexed and what is left are all there is. */
  lemma StillSplits(table: nat -> seq<Row>, query: nat, cursor: int, indexed: seq<Row>, limit: nat)
    requires Still(table) && IsTable(table(query)) && Batch(table(query), cursor, limit) != []
    requires indexed + Beyond(table(0), cursor) == Beyond(table(0), 0)
    ensures
      var batch := Batch(table(query), cursor, limit);
      indexed + batch + Beyond(table(0), batch[|batch| - 1].id) == Beyond(table(0), 0)
  {
    hide IsTable, Beyond, Batch;
    BatchSplits(table(query), cursor, limit);
    assert table(query) == table(0);
    var batch := Batch(table(0), cursor, limit);
    var rest := Beyond(table(0), batch[|batch| - 1].id);
    assert indexed + batch + rest == indexed + (batch + rest);
  }

  /** An empty batch of a positive size means that nothing is left. */
  lemma NothingLeft(rows: seq<Row>, cursor: int, limit: nat)
    requires limit >= 1 && Batch(rows, cursor, limit) == []
    ensures Beyond(rows, cursor) == []
  {
  }

  lemma BatchOfNone(rows: seq<Row>, cursor: int)
    ensures Batch(rows, cursor, 0) == []
  {
  }

  lemma CompleteAtFirst(table: nat -> seq<Row>)
    ensures Complete(table, 0, 0, [])
  {
  }

  lemma StoredNothing(docs: map<string, Row>)
    ensures Stored(docs, []) == docs
  {
  }

  /** The loop of `populate`. `table(q)` is the table as the q-th query finds it, and `fails(q)` says
      that the q-th query or its bulk request fails. The loop always ends, never overflows its count,
      and misses no positive id that was there throughout, edited in between or not; with the batch size of zero that
      BatchSize refuses it would report success and index nothing. */
  method Populate(table: nat -> seq<Row>, fails: nat -> bool, limit: nat, target: SearchIndex)
    returns (total: Result<nat, string>, ghost indexed: seq<Row>, ghost queries: nat)
    requires forall q: nat :: IsTable(table(q))
    modifies target
    ensures total.Ok? ==> total.value == |indexed| <= I32_MAX
    ensures total.Ok? ==> target.docs == Stored(old(target.docs), indexed)
    ensures total.Ok? && limit == 0 ==> indexed == []
    ensures total.Ok? && limit >= 1 ==> queries >= 1 && Complete(table, queries, I32_MAX, indexed)
    ensures total.Ok? && limit >= 1 && Still(table) ==> indexed == Beyond(table(0), 0)
    ensures total.Err? ==> limit > I64_MAX || exists q: nat :: fails(q)
  {
    hide Complete, IsTable, Beyond, Stored, Batch, Still;
    indexed, queries := [], 0;
    if limit > I64_MAX {
      return Err("bulkBatchSize exceeds i64"), indexed, queries;
    }
    var cursor := 0;
    var count := 0;
    var query: nat := 0;
    CompleteAtFirst(table);
    StoredNothing(target.docs);
    while true
      invariant 0 <= cursor <= I32_MAX && query == queries
      invariant Complete(table, query, cursor, indexed)
      invariant count == |indexed| && (limit == 0 ==> indexed == [])
      invariant target.docs == Stored(old(target.docs), indexed)
      invariant Still(table) ==> indexed + Beyond(table(0), cursor) == Beyond(table(0), 0)
      decreases I32_MAX - cursor
    {
      if fails(query) {
        return Err("streamBatch"), indexed, queries;
      }
      var batch := Batch(table(query), cursor, limit);
      if batch == [] {
        break;
      }
      BatchOfNone(table(query), cursor);
      BatchSplits(table(query), cursor, limit);
      if Still(table) {
        StillSplits(table, query, cursor, indexed, limit);
      }
      CompleteAfterBatch(table, query, cursor, indexed, limit);
      StoredInTwo(old(target.docs), indexed, batch);
      cursor := batch[|batch| - 1].id;
      indexed := indexed + batch;
      CompleteFits(table, query + 1, cursor, indexed);
      if count + |batch| > USIZE_MAX {
        assert false;
        return Err("indexed count overflow"), indexed, queries;
      }
      count := count + |batch|;
      target.Bulk(batch);
      query := query + 1;
      queries := query;
    }
    CompleteFits(table, query, cursor, indexed);
    if limit >= 1 {
      NothingLeft(table(query), cursor, limit);
      CompleteAtTheEnd(table, query, cursor, indexed);
      assert Still(table) ==> table(query) == table(0) by {
        StandsStill(table, query);
      }
    }
    queries := query + 1;
    total := Ok(count);
  }

  /** The whole job: the configured batch size is checked before any query runs, so a job that reports
      success has indexed every positive id that was there throughout. */
  method PopulateConfigured(table: nat -> seq<Row>, fails: nat -> bool, configured: nat, target: SearchIndex)
    returns (total: Result<nat, string>, ghost indexed: seq<Row>, ghost queries: nat)
    requires forall q: nat :: IsTable(table(q))
    modifies target
    ensures configured == 0 ==> total.Err? && target.docs == old(target.docs)
    ensures total.Ok? ==>
              && total.value == |indexed| && target.docs == Stored(old(target.docs), indexed)
              && queries >= 1 && Complete(table, queries, I32_MAX, indexed)
    ensures total.Ok? && Still(table) ==> indexed == Beyond(table(0), 0)
    ensures 1 <= configured <= I64_MAX && (forall q: nat :: !fails(q)) ==> total.Ok?
  {
    hide Complete, IsTable, Beyond, Stored, Still;
    indexed, queries := [], 0;
    var limit := BatchSize(configured);
    if limit.Err? {
      return Err(limit.error), indexed, queries;
    }
    total, indexed, queries := Populate(table, fails, limit.value, target);
  }

  /** On a table that stands still, what a run indexes is exactly the rows with positive ids: a row is
      missed if and only if its id is zero or negative. With unique slugs the index then holds one
      document for each. */
  lemma StaticTable(rows: seq<Row>)
    requires IsTable(rows) && UniqueSlugs(rows)
    ensures forall row :: row in Beyond(rows, 0) <==> row in rows && row.id > 0
    ensures |Stored(map[], Beyond(rows, 0))| == |Beyond(rows, 0)|
    ensures forall row :: row in rows && row.id > 0 ==>
              row.slug in Stored(map[], Beyond(rows, 0)) && Stored(map[], Beyond(rows, 0))[row.slug] == row
  {
    hide Stored, Skip, IsTable;
    forall row
      ensures row in Beyond(rows, 0) <==> row in rows && row.id > 0
    {
      BeyondMembers(rows, 0, row);
    }
    StoredUnique(Beyond(rows, 0));
  }
}
