/** Batched publisher into a capped database: scripts/d1_sync.py.

    Rows are cut into statements under the database's bound-parameter and byte caps and upserted
    one statement at a time.  The serialised sizes are arbitrary functions, and any call to the
    database may fail, before or after it has taken effect. */
module D1Sync {
  import opened Collections

  const PARAMS_PER_ROW := 11
  const MAX_BOUND_PARAMS := 100
  const MAX_STATEMENT_BYTES := 100_000
  const MAX_ROW_BYTES := 2_000_000

  /** A row to publish: its primary key and its ten other columns. */
  datatype Row = Row(path: string, columns: seq<string>)

  datatype Result<T> = Ok(value: T) | Err(message: string)

  /** `_row_bytes` and `_statement_bytes`. */
  datatype Sizes = Sizes(row: Row -> nat, statement: seq<Row> -> nat)

  function Flatten(batches: seq<seq<Row>>): seq<Row> {
    if batches == [] then [] else Flatten(batches[..|batches| - 1]) + batches[|batches| - 1]
  }

  lemma {:induction false} FlattenConcat(a: seq<seq<Row>>, b: seq<seq<Row>>)
    ensures Flatten(a + b) == Flatten(a) + Flatten(b)
  {
    if b == [] {
      assert a + b == a;
    } else {
      var n := |b| - 1;
      assert (a + b)[..|a + b| - 1] == a + b[..n] && (a + b)[|a + b| - 1] == b[n];
      FlattenConcat(a, b[..n]);
    }
  }

  // ----- cutting rows into statements -----

  function PerBatch(paramsPerRow: int, maxParams: nat): (n: nat)
    requires paramsPerRow > 0
    ensures n >= 1
    ensures paramsPerRow <= maxParams ==> n * paramsPerRow <= maxParams
    ensures (n + 1) * paramsPerRow > maxParams
  {
    if maxParams / paramsPerRow > 1 then maxParams / paramsPerRow else 1
  }

  /** Batches of `n` rows, the last one shorter, that rebuild the rows. */
  ghost predicate AreBatches(rows: seq<Row>, n: nat, batches: seq<seq<Row>>) {
    && Flatten(batches) == rows
    && (forall i :: 0 <= i < |batches| ==> 1 <= |batches[i]| <= n)
    && (forall i :: 0 <= i < |batches| - 1 ==> |batches[i]| == n)
  }

  ghost predicate FullBatches(rows: seq<Row>, n: nat, batches: seq<seq<Row>>) {
    Flatten(batches) == rows && forall i :: 0 <= i < |batches| ==> |batches[i]| == n
  }

  lemma NextBatch(rows: seq<Row>, n: nat, start: nat, batches: seq<seq<Row>>)
    requires n >= 1 && start < |rows| && FullBatches(rows[..start], n, batches)
    ensures start + n <= |rows| ==> FullBatches(rows[..start + n], n, batches + [rows[start..start + n]])
    ensures start + n >= |rows| ==> AreBatches(rows, n, batches + [rows[start..]])
  {
    var stop := if start + n <= |rows| then start + n else |rows|;
    assert rows[..start] + rows[start..stop] == rows[..stop];
    assert rows[..|rows|] == rows && rows[start..|rows|] == rows[start..];
  }

  method ChunkStatements(rows: seq<Row>, paramsPerRow: int, maxParams: nat) returns (r: Result<seq<seq<Row>>>)
    ensures r.Err? <==> paramsPerRow <= 0
    ensures r.Ok? ==> AreBatches(rows, PerBatch(paramsPerRow, maxParams), r.value)
  {
    if paramsPerRow <= 0 {
      return Err("params_per_row must be positive");
    }
    var perBatch := PerBatch(paramsPerRow, maxParams);
    var batches: seq<seq<Row>> := [];
    var start := 0;
    while start < |rows|
      invariant start <= |rows| ==> FullBatches(rows[..start], perBatch, batches)
      invariant start >= |rows| ==> AreBatches(rows, perBatch, batches)
    {
      NextBatch(rows, perBatch, start, batches);
      batches := batches + [if start + perBatch <= |rows| then rows[start..start + perBatch] else rows[start..]];
      start := start + perBatch;
    }
    return Ok(batches);
  }

  function SplitToFit(sizes: Sizes, batch: seq<Row>, maxBytes: nat): seq<seq<Row>>
    decreases |batch|
  {
    if |batch| <= 1 || sizes.statement(batch) <= maxBytes then [batch]
    else
      var mid := |batch| / 2;
      SplitToFit(sizes, batch[..mid], maxBytes) + SplitToFit(sizes, batch[mid..], maxBytes)
  }

  /** A batch is only cut when it is over the cap, and then in the middle. */
  lemma SplitOnlyWhenOver(sizes: Sizes, batch: seq<Row>, maxBytes: nat)
    ensures |batch| <= 1 || sizes.statement(batch) <= maxBytes ==> SplitToFit(sizes, batch, maxBytes) == [batch]
    ensures |batch| > 1 && sizes.statement(batch) > maxBytes ==> exists a, b ::
      a + b == batch && 0 <= |b| - |a| <= 1 &&
      SplitToFit(sizes, batch, maxBytes) == SplitToFit(sizes, a, maxBytes) + SplitToFit(sizes, b, maxBytes)
  {
    if |batch| > 1 && sizes.statement(batch) > maxBytes {
      var a, b := batch[..|batch| / 2], batch[|batch| / 2..];
      assert a + b == batch && 0 <= |b| - |a| <= 1;
    }
  }

  predicate FitsAlone(sizes: Sizes, row: Row, maxBytes: nat) {
    sizes.statement([row]) <= maxBytes
  }

  /** The pieces rebuild the batch in order. */
  lemma {:induction false} SplitRebuilds(sizes: Sizes, batch: seq<Row>, maxBytes: nat)
    ensures Flatten(SplitToFit(sizes, batch, maxBytes)) == batch
    decreases |batch|
  {
    if |batch| <= 1 || sizes.statement(batch) <= maxBytes {
      assert SplitToFit(sizes, batch, maxBytes) == [] + [batch];
    } else {
      var mid := |batch| / 2;
      SplitRebuilds(sizes, batch[..mid], maxBytes);
      SplitRebuilds(sizes, batch[mid..], maxBytes);
      FlattenConcat(SplitToFit(sizes, batch[..mid], maxBytes), SplitToFit(sizes, batch[mid..], maxBytes));
      assert batch[..mid] + batch[mid..] == batch;
    }
  }

  /** No piece is empty or larger than the batch, and when every row fits alone every piece is
      under the cap. */
  lemma {:induction false} SplitFits(sizes: Sizes, batch: seq<Row>, maxBytes: nat, i: nat)
    requires batch != [] && i < |SplitToFit(sizes, batch, maxBytes)|
    ensures var piece := SplitToFit(sizes, batch, maxBytes)[i];
            && 1 <= |piece| <= |batch|
            && ((forall k :: 0 <= k < |batch| ==> FitsAlone(sizes, batch[k], maxBytes))
                ==> sizes.statement(piece) <= maxBytes)
    decreases |batch|
  {
    if |batch| == 1 {
      assert batch == [batch[0]];
    } else if sizes.statement(batch) > maxBytes {
      var mid := |batch| / 2;
      var n := |SplitToFit(sizes, batch[..mid], maxBytes)|;
      if i < n {
        SplitFits(sizes, batch[..mid], maxBytes, i);
      } else {
        SplitFits(sizes, batch[mid..], maxBytes, i - n);
      }
    }
  }

  /** A statement the database accepts: within both caps, and not empty. */
  predicate Acceptable(sizes: Sizes, statement: seq<Row>) {
    && statement != []
    && |statement| * PARAMS_PER_ROW <= MAX_BOUND_PARAMS
    && sizes.statement(statement) <= MAX_STATEMENT_BYTES
  }

  // ----- the guards -----

  predicate Publishable(sizes: Sizes, row: Row) {
    sizes.row(row) <= MAX_ROW_BYTES && FitsAlone(sizes, row, MAX_STATEMENT_BYTES)
  }

  ghost predicate AllFit(sizes: Sizes, rows: seq<Row>) {
    forall row :: row in rows ==> Publishable(sizes, row)
  }

  method AssertRowsWithinByteCap(sizes: Sizes, rows: seq<Row>) returns (r: Result<()>)
    ensures r.Ok? <==> AllFit(sizes, rows)
    ensures r.Ok? <==> forall row :: row in rows ==> sizes.row(row) <= 2_000_000 && sizes.statement([row]) <= 100_000
  {
    for k := 0 to |rows|
      invariant forall j :: 0 <= j < k ==> Publishable(sizes, rows[j])
    {
      var row := rows[k];
      if sizes.row(row) > MAX_ROW_BYTES {
        assert row in rows;
        return Err(row.path);
      }
      if sizes.statement([row]) > MAX_STATEMENT_BYTES {
        assert row in rows;
        return Err(row.path);
      }
    }
    return Ok(());
  }

  ghost predicate UniquePaths(rows: seq<Row>) {
    forall i, j :: 0 <= i < j < |rows| ==> rows[i].path != rows[j].path
  }

  function Occurrences(rows: seq<Row>, path: string): nat {
    if rows == [] then 0
    else Occurrences(rows[..|rows| - 1], path) + (if rows[|rows| - 1].path == path then 1 else 0)
  }

  lemma {:induction false} OccurrencesCount(rows: seq<Row>, path: string)
    ensures Occurrences(rows, path) > 0 <==> exists i :: 0 <= i < |rows| && rows[i].path == path
    ensures Occurrences(rows, path) > 1 <==> exists i, j :: 0 <= i < j < |rows| && rows[i].path == rows[j].path == path
  {
    if rows != [] {
      var n := |rows| - 1;
      var shorter := rows[..n];
      OccurrencesCount(shorter, path);
      if Occurrences(shorter, path) > 0 {
        var i :| 0 <= i < n && shorter[i].path == path;
        assert rows[i].path == path;
      }
      if Occurrences(shorter, path) > 1 {
        var i, j :| 0 <= i < j < n && shorter[i].path == shorter[j].path == path;
        assert rows[i].path == rows[j].path == path;
      }
      forall i, j | 0 <= i < j < |rows| && rows[i].path == rows[j].path == path
        ensures Occurrences(rows, path) > 1
      {
        assert shorter[i].path == path;
        if j < n {
          assert shorter[j].path == path;
        }
      }
      if i :| 0 <= i < n && rows[i].path == path {
        assert shorter[i].path == path;
      }
    }
  }

  method EnsureUniqueVaultPaths(rows: seq<Row>) returns (r: Result<()>)
    ensures r.Ok? <==> UniquePaths(rows)
  {
    var seen: map<string, nat> := map[];
    for k := 0 to |rows|
      invariant forall p :: p in seen <==> Occurrences(rows[..k], p) > 0
      invariant forall p :: p in seen ==> seen[p] == Occurrences(rows[..k], p)
    {
      var p := rows[k].path;
      assert rows[..k + 1][..k] == rows[..k];
      seen := seen[p := (if p in seen then seen[p] else 0) + 1];
    }
    assert rows[..|rows|] == rows;
    var dupes := set p | p in seen && seen[p] > 1;
    if dupes != {} {
      var p :| p in dupes;
      OccurrencesCount(rows, p);
      return Err("duplicate vault_path value(s)");
    }
    forall i, j | 0 <= i < j < |rows|
      ensures rows[i].path != rows[j].path
    {
      OccurrencesCount(rows, rows[i].path);
      assert rows[i].path !in dupes;
    }
    return Ok(());
  }

  // ----- the table and its index -----

  datatype Note = Note(rowid: nat, columns: seq<string>)

  /** The notes table: rows by primary key, and the next row id to hand out. */
  datatype Table = Table(notes: map<string, Note>, next: nat)

  ghost predicate ValidTable(t: Table) {
    && (forall p :: p in t.notes ==> t.notes[p].rowid < t.next)
    && (forall p, q :: p in t.notes && q in t.notes && p != q ==> t.notes[p].rowid != t.notes[q].rowid)
  }

  /** The search index: for each row id it was built from, the note that had it. */
  type Index = map<nat, string>

  function Rebuilt(t: Table): Index
    requires ValidTable(t)
  {
    map p | p in t.notes :: t.notes[p].rowid := p
  }

  /** Search joins an index entry to the note that has its row id: the entry is sound when that
      is the note it was built from. */
  ghost predicate Joins(t: Table, index: Index) {
    forall id :: id in index ==> index[id] in t.notes && t.notes[index[id]].rowid == id
  }

  /** Every note is found through the index, under its own row id. */
  ghost predicate FindsAll(t: Table, index: Index) {
    forall p :: p in t.notes ==> t.notes[p].rowid in index && index[t.notes[p].rowid] == p
  }

  /** A rebuilt index finds every note of the table and has no other entry. */
  lemma RebuiltFindsAll(t: Table)
    requires ValidTable(t)
    ensures FindsAll(t, Rebuilt(t)) && Joins(t, Rebuilt(t))
  {
  }

  /** There is only one such index. */
  lemma FindingIndexIsUnique(t: Table, index: Index)
    requires ValidTable(t) && FindsAll(t, index) && Joins(t, index)
    ensures index == Rebuilt(t)
  {
    RebuiltFindsAll(t);
  }

  /** `ON CONFLICT(vault_path) DO UPDATE`: in place when the path is there. */
  function Upsert(t: Table, row: Row): Table {
    if row.path in t.notes then
      t.(notes := t.notes[row.path := Note(t.notes[row.path].rowid, row.columns)])
    else
      Table(t.notes[row.path := Note(t.next, row.columns)], t.next + 1)
  }

  function UpsertAll(t: Table, rows: seq<Row>): Table {
    if rows == [] then t else Upsert(UpsertAll(t, rows[..|rows| - 1]), rows[|rows| - 1])
  }

  /** The table after any statements depends only on their rows in order, not on the batching. */
  lemma {:induction false} UpsertAllConcat(t: Table, a: seq<Row>, b: seq<Row>)
    ensures UpsertAll(t, a + b) == UpsertAll(UpsertAll(t, a), b)
  {
    if b == [] {
      assert a + b == a;
    } else {
      var n := |b| - 1;
      assert (a + b)[..|a + b| - 1] == a + b[..n] && (a + b)[|a + b| - 1] == b[n];
      UpsertAllConcat(t, a, b[..n]);
    }
  }

  ghost predicate RowidsKept(before: Table, after: Table) {
    forall p :: p in before.notes ==> p in after.notes && after.notes[p].rowid == before.notes[p].rowid
  }

  /** Upserts keep the table valid and every present path on its row id, so an index that
      joined before still joins. */
  lemma {:induction false} UpsertsKeepRowids(t: Table, rows: seq<Row>, index: Index)
    requires ValidTable(t)
    ensures var after := UpsertAll(t, rows);
            && ValidTable(after) && after.next >= t.next
            && RowidsKept(t, after)
            && (Joins(t, index) ==> Joins(after, index))
  {
    if rows != [] {
      UpsertsKeepRowids(t, rows[..|rows| - 1], index);
    }
  }

  /** The final content: the last row with a path decides its columns, and a path no row has
      keeps its note. */
  lemma {:induction false} FinalContent(t: Table, rows: seq<Row>, path: string)
    ensures var after := UpsertAll(t, rows);
            && (path in after.notes <==> path in t.notes || exists i :: 0 <= i < |rows| && rows[i].path == path)
            && (path in t.notes && (forall i :: 0 <= i < |rows| ==> rows[i].path != path)
                ==> after.notes[path] == t.notes[path])
            && (forall i | 0 <= i < |rows| && rows[i].path == path
                  && (forall j :: i < j < |rows| ==> rows[j].path != path) ::
                  after.notes[path].columns == rows[i].columns)
  {
    if rows != [] {
      var n := |rows| - 1;
      FinalContent(t, rows[..n], path);
      assert forall i :: 0 <= i < n ==> rows[..n][i] == rows[i];
      if i :| 0 <= i < n && rows[i].path == path {
        assert rows[..n][i].path == path;
      }
    }
  }

  function Paths(rows: seq<Row>): set<string> {
    set i | 0 <= i < |rows| :: rows[i].path
  }

  /** With unique paths the read-back count is the row count plus the untouched orphans. */
  lemma {:induction false} ReadBackCount(t: Table, rows: seq<Row>)
    requires UniquePaths(rows)
    ensures |UpsertAll(t, rows).notes| == |rows| + |t.notes.Keys - Paths(rows)|
  {
    var after := UpsertAll(t, rows);
    forall p
      ensures p in after.notes.Keys <==> p in Paths(rows) + (t.notes.Keys - Paths(rows))
    {
      FinalContent(t, rows, p);
    }
    assert after.notes.Keys == Paths(rows) + (t.notes.Keys - Paths(rows));
    UniquePathsCount(rows);
  }

  lemma {:induction false} UniquePathsCount(rows: seq<Row>)
    requires UniquePaths(rows)
    ensures |Paths(rows)| == |rows|
  {
    if rows != [] {
      var n := |rows| - 1;
      var shorter := rows[..n];
      UniquePathsCount(shorter);
      assert forall i :: 0 <= i < n ==> shorter[i] == rows[i];
      assert Paths(rows) == Paths(shorter) + {rows[n].path};
    }
  }

  /** What `INSERT OR REPLACE` would do instead: the row comes back under a new row id. */
  function Replace(t: Table, row: Row): Table {
    Table(t.notes[row.path := Note(t.next, row.columns)], t.next + 1)
  }

  /** Why the upsert updates in place: replacing a present path leaves the index entry of its
      old row id joining no note at all. */
  lemma ReplaceOrphansTheIndex(t: Table, row: Row)
    requires ValidTable(t) && row.path in t.notes
    ensures var id := t.notes[row.path].rowid;
            forall p :: p in Replace(t, row).notes ==> Replace(t, row).notes[p].rowid != id
  {
  }

  // ----- a run -----

  class Database {
    var table: Table
    var index: Index
    ghost var statements: seq<seq<Row>>     // every upsert that was executed

    ghost predicate Valid()
      reads this
    {
      ValidTable(table) && Joins(table, index)
    }

    method ExecuteUpsert(statement: seq<Row>)
      requires Valid()
      modifies this
      ensures Valid()
      ensures table == UpsertAll(old(table), statement) && index == old(index)
      ensures statements == old(statements) + [statement]
    {
      UpsertsKeepRowids(table, statement, index);
      table := UpsertAll(table, statement);
      statements := statements + [statement];
    }

    method RebuildIndex()
      requires Valid()
      modifies this`index
      ensures Valid() && index == Rebuilt(table)
      // Search finds every note, under its own row id.
      ensures forall p :: p in table.notes ==> table.notes[p].rowid in index && index[table.notes[p].rowid] == p
    {
      RebuiltFindsAll(table);
      index := Rebuilt(table);
    }
  }

  /** What the write loop has done to a table once the statements `sent` have gone out. */
  ghost predicate Wrote(sizes: Sizes, rows: seq<Row>, before: Table, sent: seq<seq<Row>>, after: Table, written: nat) {
    && written <= |rows|
    && Flatten(sent) == rows[..written]
    && after == UpsertAll(before, rows[..written])
    && forall i :: 0 <= i < |sent| ==> Acceptable(sizes, sent[i])
  }

  /** At eleven parameters a row, nine rows are the most that a statement may bind. */
  lemma SentWithinTheCaps(sizes: Sizes, rows: seq<Row>, before: Table, sent: seq<seq<Row>>, after: Table, written: nat,
                          i: nat)
    requires Wrote(sizes, rows, before, sent, after, written) && i < |sent|
    ensures 1 <= |sent[i]| <= 9 && sizes.statement(sent[i]) <= 100_000
  {
    assert Acceptable(sizes, sent[i]);
  }

  lemma WroteOneMore(sizes: Sizes, rows: seq<Row>, before: Table, sent: seq<seq<Row>>, after: Table, written: nat,
                     s: seq<Row>)
    requires Wrote(sizes, rows, before, sent, after, written) && Acceptable(sizes, s)
    requires written + |s| <= |rows| && rows[written..written + |s|] == s
    ensures Wrote(sizes, rows, before, sent + [s], UpsertAll(after, s), written + |s|)
  {
    UpsertAllConcat(before, rows[..written], s);
    assert rows[..written + |s|] == rows[..written] + s;
  }

  /** Since the table was `before` and the statements `base`, the first `written` rows went out. */
  ghost predicate Progress(db: Database, sizes: Sizes, rows: seq<Row>, before: Table, base: seq<seq<Row>>, written: nat)
    reads db
  {
    && db.Valid() && base <= db.statements
    && Wrote(sizes, rows, before, db.statements[|base|..], db.table, written)
  }

  method Send(db: Database, sizes: Sizes, rows: seq<Row>, piece: seq<Row>, ghost before: Table,
              ghost base: seq<seq<Row>>, ghost written: nat)
    requires Progress(db, sizes, rows, before, base, written) && Acceptable(sizes, piece)
    requires written + |piece| <= |rows| && rows[written..written + |piece|] == piece
    modifies db
    ensures db.index == old(db.index) && Progress(db, sizes, rows, before, base, written + |piece|)
  {
    ghost var sent := db.statements[|base|..];
    WroteOneMore(sizes, rows, before, sent, db.table, written, piece);
    db.ExecuteUpsert(piece);
    assert db.statements[|base|..] == sent + [piece];
  }

  /** A batch is the next stretch of the rows, within the parameter cap. */
  ghost predicate IsBatch(rows: seq<Row>, batch: seq<Row>, start: nat) {
    1 <= |batch| <= 9 && start + |batch| <= |rows| && rows[start..start + |batch|] == batch
  }

  /** The pieces of a batch before piece `j` are in. */
  ghost function PiecesDone(sizes: Sizes, batch: seq<Row>, start: nat, j: nat): nat
    requires j <= |SplitToFit(sizes, batch, MAX_STATEMENT_BYTES)|
  {
    start + |Flatten(SplitToFit(sizes, batch, MAX_STATEMENT_BYTES)[..j])|
  }

  method SendPiece(db: Database, sizes: Sizes, rows: seq<Row>, batch: seq<Row>, pieces: seq<seq<Row>>, j: nat,
                   ghost before: Table, ghost base: seq<seq<Row>>, ghost start: nat)
    requires AllFit(sizes, rows) && IsBatch(rows, batch, start)
    requires pieces == SplitToFit(sizes, batch, MAX_STATEMENT_BYTES) && j < |pieces|
    requires Progress(db, sizes, rows, before, base, PiecesDone(sizes, batch, start, j))
    modifies db
    ensures db.index == old(db.index)
    ensures Progress(db, sizes, rows, before, base, PiecesDone(sizes, batch, start, j + 1))
    ensures PiecesDone(sizes, batch, start, j + 1) == PiecesDone(sizes, batch, start, j) + |pieces[j]| <= |rows|
  {
    SplitRebuilds(sizes, batch, MAX_STATEMENT_BYTES);
    PieceInPlace(rows, batch, start, pieces, j);
    PieceAcceptable(sizes, rows, batch, start, j);
    Send(db, sizes, rows, pieces[j], before, base, PiecesDone(sizes, batch, start, j));
  }

  /** The inner write loop of `main`: a batch's pieces go out in order until a call fails.  `reached`
      rows are in the table, those of a piece whose answer was lost included. */
  method WriteBatch(db: Database, sizes: Sizes, rows: seq<Row>, batch: seq<Row>,
                    ghost before: Table, ghost base: seq<seq<Row>>, start: nat, network: Network, calls: nat)
    returns (failed: bool, written: nat, made: nat, ghost reached: nat)
    requires Progress(db, sizes, rows, before, base, start) && AllFit(sizes, rows) && IsBatch(rows, batch, start)
    modifies db
    ensures db.index == old(db.index) && Progress(db, sizes, rows, before, base, reached)
    ensures !failed ==> written == reached == start + |batch|
    ensures failed ==> network.fails(made) && written <= reached <= |rows|
    ensures failed && !network.applied(made) ==> written == reached
  {
    var pieces := SplitToFit(sizes, batch, MAX_STATEMENT_BYTES);
    written, made, reached := start, calls, start;
    for j := 0 to |pieces|
      invariant written == reached == PiecesDone(sizes, batch, start, j)
      invariant db.index == old(db.index) && Progress(db, sizes, rows, before, base, written)
    {
      if network.TakesEffect(made) {
        SendPiece(db, sizes, rows, batch, pieces, j, before, base, start);
        reached := PiecesDone(sizes, batch, start, j + 1);
      }
      if network.fails(made) {
        return true, written, made, reached;
      }
      made := made + 1;
      written := written + |pieces[j]|;
    }
    SplitRebuilds(sizes, batch, MAX_STATEMENT_BYTES);
    assert pieces[..|pieces|] == pieces;
    failed := false;
  }

  /** Piece `j` of a batch is the next stretch of the rows. */
  lemma PieceInPlace(rows: seq<Row>, batch: seq<Row>, start: nat, pieces: seq<seq<Row>>, j: nat)
    requires IsBatch(rows, batch, start) && Flatten(pieces) == batch && j < |pieces|
    ensures var at := start + |Flatten(pieces[..j])|;
            && at + |pieces[j]| <= |rows| && rows[at..at + |pieces[j]|] == pieces[j]
            && start + |Flatten(pieces[..j + 1])| == at + |pieces[j]|
  {
    FlattenPrefix(pieces, j);
    SubStretch(rows, start, batch, |Flatten(pieces[..j])|, |pieces[j]|);
  }

  lemma PieceAcceptable(sizes: Sizes, rows: seq<Row>, batch: seq<Row>, start: nat, j: nat)
    requires AllFit(sizes, rows)
    requires IsBatch(rows, batch, start)
    requires j < |SplitToFit(sizes, batch, MAX_STATEMENT_BYTES)|
    ensures Acceptable(sizes, SplitToFit(sizes, batch, MAX_STATEMENT_BYTES)[j])
  {
    SplitFits(sizes, batch, MAX_STATEMENT_BYTES, j);
    forall k | 0 <= k < |batch|
      ensures FitsAlone(sizes, batch[k], MAX_STATEMENT_BYTES)
    {
      assert batch[k] == rows[start + k];
      assert Publishable(sizes, rows[start + k]);
    }
  }

  lemma SubStretch(rows: seq<Row>, start: nat, batch: seq<Row>, from: nat, n: nat)
    requires start + |batch| <= |rows| && rows[start..start + |batch|] == batch && from + n <= |batch|
    ensures rows[start + from..start + from + n] == batch[from..from + n]
  {
    assert forall k :: from <= k < from + n ==> batch[k] == rows[start + k];
  }

  /** Piece `j` is the stretch of the whole that follows the pieces before it. */
  lemma {:induction false} FlattenPrefix(pieces: seq<seq<Row>>, j: nat)
    requires j < |pieces|
    ensures var done, all := Flatten(pieces[..j]), Flatten(pieces);
            && |done| + |pieces[j]| <= |all| && all[..|done|] == done
            && all[|done|..|done| + |pieces[j]|] == pieces[j]
            && Flatten(pieces[..j + 1]) == done + pieces[j]
  {
    assert pieces[..j] + [pieces[j]] == pieces[..j + 1];
    FlattenConcat(pieces[..j + 1], pieces[j + 1..]);
    assert pieces[..j + 1] + pieces[j + 1..] == pieces;
  }

  datatype Summary = Summary(notes: nat, written: nat, d1Notes: nat)

  /** `main` from the guards on. */
  method Publish(db: Database, sizes: Sizes, rows: seq<Row>, network: Network)
    returns (r: Result<Summary>, written: nat, ghost reached: nat)
    requires db.Valid()
    modifies db
    // Wherever the run stops, the table holds a prefix of the rows, every statement was
    // acceptable, every old path kept its row id and every index entry still joins.
    ensures Progress(db, sizes, rows, old(db.table), old(db.statements), reached) && written <= reached
    ensures (forall c :: !network.applied(c)) ==> written == reached
    ensures RowidsKept(old(db.table), db.table)
    ensures db.index == old(db.index) || db.index == Rebuilt(db.table)
    // Nothing is sent unless the rows are publishable; publishable rows fail only if a call does.
    ensures !AllPublishable(sizes, rows) ==>
      r.Err? && reached == 0 && db.index == old(db.index) && db.statements == old(db.statements)
    ensures AllPublishable(sizes, rows) && (forall c :: !network.fails(c)) ==> r.Ok?
    // After a finished run search finds every note in the table, under its own row id.
    ensures r.Ok? ==> forall p :: p in db.table.notes ==>
      db.table.notes[p].rowid in db.index && db.index[db.table.notes[p].rowid] == p
    // A finished run has written every row and reads back the rows and the untouched orphans.
    ensures r.Ok? ==>
      && written == |rows| && db.table == UpsertAll(old(db.table), rows) && db.index == Rebuilt(db.table)
      && r.value == Summary(|rows|, |rows|, |rows| + |old(db.table.notes.Keys) - Paths(rows)|)
  {
    written, reached := 0, 0;
    ghost var before, base, index := db.table, db.statements, db.index;
    var guarded := Guard(sizes, rows);
    if guarded.Err? {
      return Err(guarded.message), 0, 0;
    }
    var chunks := ChunkStatements(rows, PARAMS_PER_ROW, MAX_BOUND_PARAMS);
    var failed, calls;
    failed, written, calls, reached := WriteLoop(db, sizes, rows, chunks.value, before, base, network);
    UpsertsKeepRowids(before, rows[..reached], index);
    if failed {
      return Err("upsert failed"), written, reached;
    }
    var count := RebuildAndCount(db, network, calls, sizes, rows, before, base);
    if count.Err? {
      return Err(count.message), written, reached;
    }
    ReadBackCount(before, rows);
    RebuiltFindsAll(db.table);
    return Ok(Summary(|rows|, written, count.value)), written, reached;
  }

  /** Lines 466-475: the index is rebuilt, then the table is counted. */
  method RebuildAndCount(db: Database, network: Network, calls: nat,
                         ghost sizes: Sizes, ghost rows: seq<Row>, ghost before: Table, ghost base: seq<seq<Row>>)
    returns (count: Result<nat>)
    requires Progress(db, sizes, rows, before, base, |rows|)
    modifies db`index
    ensures Progress(db, sizes, rows, before, base, |rows|) && db.table == UpsertAll(before, rows)
    ensures db.index == old(db.index) || db.index == Rebuilt(db.table)
    ensures count.Err? ==> network.fails(calls) || network.fails(calls + 1)
    ensures count.Ok? ==> db.index == Rebuilt(db.table) && count.value == |db.table.notes|
  {
    assert rows[..|rows|] == rows;
    if network.TakesEffect(calls) {
      db.RebuildIndex();
    }
    if network.fails(calls) {
      return Err("rebuild_fts failed");
    }
    if network.fails(calls + 1) {
      return Err("count failed");
    }
    return Ok(|db.table.notes|);
  }

  /** The refusals of lines 413-433. */
  method Guard(sizes: Sizes, rows: seq<Row>) returns (r: Result<()>)
    ensures r.Ok? <==> AllPublishable(sizes, rows)
  {
    if rows == [] {
      return Err("no notes found; refusing to publish an empty corpus");
    }
    r := EnsureUniqueVaultPaths(rows);
    if r.Ok? {
      r := AssertRowsWithinByteCap(sizes, rows);
    }
  }

  ghost predicate AllPublishable(sizes: Sizes, rows: seq<Row>) {
    rows != [] && UniquePaths(rows) && AllFit(sizes, rows)
  }

  /** The outer write loop of `main`. */
  method WriteLoop(db: Database, sizes: Sizes, rows: seq<Row>, chunks: seq<seq<Row>>,
                   ghost before: Table, ghost base: seq<seq<Row>>, network: Network)
    returns (failed: bool, written: nat, calls: nat, ghost reached: nat)
    requires Progress(db, sizes, rows, before, base, 0) && AllFit(sizes, rows)
    requires Flatten(chunks) == rows && forall i :: 0 <= i < |chunks| ==> 1 <= |chunks[i]| <= 9
    modifies db
    ensures db.index == old(db.index) && Progress(db, sizes, rows, before, base, reached)
    ensures !failed ==> written == reached == |rows|
    ensures failed ==> network.fails(calls) && written <= reached <= |rows|
    ensures failed && !network.applied(calls) ==> written == reached
  {
    written, calls, reached := 0, 0, 0;
    for i := 0 to |chunks|
      invariant db.index == old(db.index) && Progress(db, sizes, rows, before, base, written)
      invariant written == reached == |Flatten(chunks[..i])|
    {
      FlattenPrefix(chunks, i);
      failed, written, calls, reached :=
        WriteBatch(db, sizes, rows, chunks[i], before, base, written, network, calls);
      if failed {
        return;
      }
    }
    assert chunks[..|chunks|] == chunks;
    failed := false;
  }
}
