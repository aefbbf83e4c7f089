/** Remote pruning: scripts/sync_onboard_vault.py.

    The local notes are upserted into a remote table, and then the remote children of every hub
    note that have no local counterpart are deleted.  Any call to the remote may fail, before or
    after it has taken effect. */
module VaultPrune {
  import opened Collections

  /** What the script reads of a note: its slug, the `parent_doc` of its frontmatter, the rest. */
  datatype Note = Note(slug: Option<string>, parent: Option<string>, content: string)
  datatype Row = Row(path: string, note: Note)

  type Table = map<string, Note>

  /** `path.rpartition("/")[0]`. */
  function Directory(path: string): string {
    if path == "" then ""
    else if path[|path| - 1] == '/' then path[..|path| - 1]
    else Directory(path[..|path| - 1])
  }

  /** The directory is what stands before the last slash, and nothing if there is none. */
  lemma {:induction false} DirectoryIs(path: string) returns (name: string)
    ensures '/' !in name
    ensures path == Directory(path) + "/" + name || (path == name && Directory(path) == "")
  {
    if path == "" {
      name := "";
    } else {
      var n := |path| - 1;
      assert path == path[..n] + [path[n]];
      if path[n] == '/' {
        name := "";
      } else {
        var shorter := DirectoryIs(path[..n]);
        name := shorter + [path[n]];
      }
    }
  }

  /** A hub has a slug and names no parent. */
  predicate IsHub(row: Row) {
    row.note.slug.Some? && (row.note.parent.None? || row.note.parent.value == "")
  }

  /** Whether a note with this path and content sits under the hub. */
  predicate IsChildOf(path: string, note: Note, hub: Row)
    requires hub.note.slug.Some?
  {
    note.parent == hub.note.slug && Directory(path) == Directory(hub.path)
  }

  /** The local children of a hub. */
  function Expected(rows: seq<Row>, hub: Row): set<string>
    requires hub.note.slug.Some?
  {
    set i | 0 <= i < |rows| && IsChildOf(rows[i].path, rows[i].note, hub) :: rows[i].path
  }

  /** The remote children of a hub, and those of them that no local row backs. */
  function RemoteChildren(table: Table, hub: Row): set<string>
    requires hub.note.slug.Some?
  {
    set p | p in table && IsChildOf(p, table[p], hub)
  }

  function StaleUnder(table: Table, rows: seq<Row>, hub: Row): set<string>
    requires hub.note.slug.Some?
  {
    RemoteChildren(table, hub) - Expected(rows, hub)
  }

  /** The paths stale under any of the first `k` rows that are hubs. */
  ghost predicate IsStale(table: Table, rows: seq<Row>, k: nat, path: string)
    requires k <= |rows|
  {
    exists i :: 0 <= i < k && IsHub(rows[i]) && path in StaleUnder(table, rows, rows[i])
  }

  // ----- the remote table -----

  class Remote {
    var table: Table

    method Select(parent: string) returns (paths: set<string>)
      ensures paths == set p | p in table && table[p].parent == Some(parent)
    {
      paths := set p | p in table && table[p].parent == Some(parent);
    }

    method Delete(paths: set<string>)
      modifies this
      ensures table == old(table) - paths
    {
      table := table - paths;
    }

    method Upsert(rows: seq<Row>)
      modifies this
      ensures table == Upserted(old(table), rows)
    {
      table := Upserted(table, rows);
    }
  }

  function Upserted(table: Table, rows: seq<Row>): Table {
    if rows == [] then table
    else var last := rows[|rows| - 1]; Upserted(table, rows[..|rows| - 1])[last.path := last.note]
  }

  /** The paths of a set in some order; the script sorts them. */
  method InOrder(paths: set<string>) returns (list: seq<string>)
    ensures (forall p :: p in list <==> p in paths) && Distinct(list)
  {
    list := [];
    var rest := paths;
    while rest != {}
      invariant rest <= paths
      invariant forall p :: p in list <==> p in paths && p !in rest
      invariant Distinct(list)
      decreases rest
    {
      var p :| p in rest;
      rest := rest - {p};
      list := list + [p];
    }
  }

  /** What is gone once the hubs among the first `k` rows are done: what was stale under one of them. */
  ghost predicate PrunedTo(before: Table, rows: seq<Row>, k: nat, after: Table, gone: set<string>)
    requires k <= |rows|
  {
    && (forall p :: p in gone <==> p in before && IsStale(before, rows, k, p))
    && after == before - gone
  }

  /** What is gone, in terms of the rows: a path whose note names the slug of a row that names no parent
      itself, in the same directory, while no local note does so at that path. */
  lemma GoneIff(before: Table, rows: seq<Row>, after: Table, gone: set<string>, p: string)
    requires PrunedTo(before, rows, |rows|, after, gone)
    ensures p in gone <==> p in before && exists i :: 0 <= i < |rows| && LosesTo(before, rows, p, rows[i])
    ensures p in after <==> p in before && p !in gone
    ensures p in after ==> after[p] == before[p]
  {
    if i :| 0 <= i < |rows| && IsHub(rows[i]) && p in StaleUnder(before, rows, rows[i]) {
      assert LosesTo(before, rows, p, rows[i]);
    }
    if p in before {
      if i :| 0 <= i < |rows| && LosesTo(before, rows, p, rows[i]) {
        assert IsHub(rows[i]) && p in StaleUnder(before, rows, rows[i]);
      }
    }
  }

  ghost predicate LosesTo(before: Table, rows: seq<Row>, p: string, hub: Row)
    requires p in before
  {
    && hub.note.slug.Some? && (hub.note.parent == None || hub.note.parent == Some(""))
    && before[p].parent == hub.note.slug && Directory(p) == Directory(hub.path)
    && forall k :: 0 <= k < |rows| && rows[k].path == p ==> rows[k].note.parent != hub.note.slug
  }

  /** The report names what is gone, each path once. */
  ghost predicate Lists(deleted: seq<string>, gone: set<string>) {
    Distinct(deleted) && forall p :: p in deleted <==> p in gone
  }

  /** One hub: `gone` grows by what is stale under it, unless a call did not take effect. */
  method PruneHub(remote: Remote, rows: seq<Row>, k: nat, network: Network, calls: nat,
                  ghost before: Table, ghost gone: set<string>)
    returns (failed: bool, stale: set<string>, made: nat, ghost more: set<string>)
    requires k < |rows| && IsHub(rows[k]) && PrunedTo(before, rows, k, remote.table, gone)
    modifies remote
    ensures !failed ==> PrunedTo(before, rows, k + 1, remote.table, gone + stale) && more == stale && stale !! gone
    ensures failed ==> network.fails(made)
    ensures failed ==> PrunedTo(before, rows, if more == {} then k else k + 1, remote.table, gone + more)
    ensures failed && !network.applied(made) ==> more == {}
  {
    var hub := rows[k];
    stale, made, more := {}, calls, {};
    if network.fails(calls) {
      return true, {}, calls, {};
    }
    var found := remote.Select(hub.note.slug.value);
    stale := set p | p in found && Directory(p) == Directory(hub.path) && p !in Expected(rows, hub);
    assert stale == StaleUnder(remote.table, rows, hub);
    HubStale(before, rows, k, remote.table, gone);
    made := calls + 1;
    if stale == {} {
      return false, stale, made, {};
    }
    if network.TakesEffect(made) {
      remote.Delete(stale);
      more := stale;
    }
    if network.fails(made) {
      return true, stale, made, more;
    }
    failed, made := false, made + 1;
  }

  /** `_prune_stale_children`.  A run that fails has reached the hubs of the first `done` rows. */
  method PruneStaleChildren(remote: Remote, rows: seq<Row>, network: Network, calls: nat)
    returns (failed: bool, deleted: seq<string>, ghost done: nat, ghost gone: set<string>)
    modifies remote
    ensures done <= |rows| && PrunedTo(old(remote.table), rows, done, remote.table, gone)
    ensures !failed ==> done == |rows| && Lists(deleted, gone)
    ensures (forall c :: !network.fails(c)) ==> !failed
  {
    deleted, done, gone := [], 0, {};
    var made := calls;
    for k := 0 to |rows|
      invariant PrunedTo(old(remote.table), rows, k, remote.table, gone) && Lists(deleted, gone)
    {
      done := k;
      if !IsHub(rows[k]) {
        continue;
      }
      var stale;
      ghost var more;
      failed, stale, made, more := PruneHub(remote, rows, k, network, made, old(remote.table), gone);
      if failed {
        done, gone := if more == {} then k else k + 1, gone + more;
        return;
      }
      var list := InOrder(stale);
      DistinctTogether(deleted, list);
      deleted, gone := deleted + list, gone + stale;
    }
    failed, done := false, |rows|;
  }

  lemma DistinctTogether(a: seq<string>, b: seq<string>)
    requires Distinct(a) && Distinct(b) && forall p :: p in b ==> p !in a
    ensures Distinct(a + b)
  {
    forall i, j | 0 <= i < j < |a + b|
      ensures (a + b)[i] != (a + b)[j]
    {
      if i < |a| <= j {
        assert (a + b)[i] in a && (a + b)[j] in b;
      }
    }
  }

  /** What is stale under the next hub is what was stale under it to begin with, less what is
      already gone. */
  lemma HubStale(before: Table, rows: seq<Row>, k: nat, now: Table, gone: set<string>)
    requires k < |rows| && IsHub(rows[k]) && PrunedTo(before, rows, k, now, gone)
    ensures var stale := StaleUnder(now, rows, rows[k]);
            stale !! gone && PrunedTo(before, rows, k + 1, now - stale, gone + stale)
  {
    var stale := StaleUnder(now, rows, rows[k]);
    forall p
      ensures p in gone + stale <==> p in before && IsStale(before, rows, k + 1, p)
    {
      if p in stale {
        assert p in StaleUnder(before, rows, rows[k]);
      }
    }
    assert now - stale == before - (gone + stale);
  }

  // ----- a whole run -----

  predicate IsLocal(rows: seq<Row>, path: string) {
    exists i :: 0 <= i < |rows| && rows[i].path == path
  }

  ghost predicate UniquePaths(rows: seq<Row>) {
    forall i, j :: 0 <= i < j < |rows| ==> rows[i].path != rows[j].path
  }

  /** After the upsert a local path holds the note of a local row, and any other path its own. */
  lemma {:induction false} UpsertedNote(table: Table, rows: seq<Row>, path: string)
    ensures path in Upserted(table, rows) <==> path in table || IsLocal(rows, path)
    ensures IsLocal(rows, path) ==>
      exists i :: 0 <= i < |rows| && rows[i].path == path && Upserted(table, rows)[path] == rows[i].note
    ensures !IsLocal(rows, path) && path in table ==> Upserted(table, rows)[path] == table[path]
  {
    if rows != [] {
      var n := |rows| - 1;
      var shorter := rows[..n];
      UpsertedNote(table, shorter, path);
      if i :| 0 <= i < n && shorter[i].path == path && Upserted(table, shorter)[path] == shorter[i].note {
        assert rows[i].path == path;
      }
      if i :| 0 <= i < n && rows[i].path == path {
        assert shorter[i].path == path;
      }
      assert rows[n].path == path ==> Upserted(table, rows)[path] == rows[n].note;
    }
  }

  /** Of several rows with a path the last decides. */
  lemma {:induction false} LastDecides(table: Table, rows: seq<Row>, i: nat)
    requires i < |rows| && forall j :: i < j < |rows| ==> rows[j].path != rows[i].path
    ensures rows[i].path in Upserted(table, rows) && Upserted(table, rows)[rows[i].path] == rows[i].note
  {
    var n := |rows| - 1;
    if i < n {
      LastDecides(table, rows[..n], i);
      assert rows[n].path != rows[i].path;
    }
  }

  lemma {:induction false} UpsertedAgree(a: Table, b: Table, rows: seq<Row>, path: string)
    requires IsLocal(rows, path)
    ensures path in Upserted(a, rows) && path in Upserted(b, rows) && Upserted(a, rows)[path] == Upserted(b, rows)[path]
  {
    var n := |rows| - 1;
    if rows[n].path != path {
      var i :| 0 <= i < |rows| && rows[i].path == path;
      assert rows[..n][i].path == path;
      UpsertedAgree(a, b, rows[..n], path);
    }
  }

  /** No local row is ever deleted, unique paths or not. */
  lemma LocalRowsAreNotStale(table: Table, rows: seq<Row>, k: nat, path: string)
    requires k <= |rows| && IsLocal(rows, path)
    ensures !IsStale(Upserted(table, rows), rows, k, path)
  {
    UpsertedNote(table, rows, path);
    var i :| 0 <= i < |rows| && rows[i].path == path && Upserted(table, rows)[path] == rows[i].note;
    forall h | 0 <= h < k && IsHub(rows[h])
      ensures path !in StaleUnder(Upserted(table, rows), rows, rows[h])
    {
      assert IsChildOf(path, rows[i].note, rows[h]) ==> rows[i].path in Expected(rows, rows[h]);
    }
  }

  /** Under every hub the remote ends with exactly the local children. */
  lemma ChildrenAreTheLocalOnes(table: Table, rows: seq<Row>, after: Table, gone: set<string>, h: nat)
    requires UniquePaths(rows) && PrunedTo(Upserted(table, rows), rows, |rows|, after, gone)
    requires h < |rows| && IsHub(rows[h])
    ensures RemoteChildren(after, rows[h]) == Expected(rows, rows[h])
  {
    var upserted := Upserted(table, rows);
    forall p | p in RemoteChildren(after, rows[h])
      ensures p in Expected(rows, rows[h])
    {
    }
    forall i | 0 <= i < |rows| && IsChildOf(rows[i].path, rows[i].note, rows[h])
      ensures rows[i].path in RemoteChildren(after, rows[h])
    {
      UpsertedNote(table, rows, rows[i].path);
      LocalRowsAreNotStale(table, rows, |rows|, rows[i].path);
      var j :| 0 <= j < |rows| && rows[j].path == rows[i].path && upserted[rows[i].path] == rows[j].note;
      assert i == j;
    }
  }

  /** A second run finds nothing to change: the upsert leaves the table as it is, and nothing in
      it is stale. */
  lemma SecondRunDeletesNothing(table: Table, rows: seq<Row>, after: Table, gone: set<string>)
    requires PrunedTo(Upserted(table, rows), rows, |rows|, after, gone)
    ensures Upserted(after, rows) == after
    ensures forall p :: p in after ==> !IsStale(after, rows, |rows|, p)
  {
    var upserted, again := Upserted(table, rows), Upserted(after, rows);
    forall p
      ensures p in again <==> p in after
      ensures p in after ==> again[p] == after[p]
    {
      UpsertedNote(after, rows, p);
      UpsertedNote(table, rows, p);
      if IsLocal(rows, p) {
        LocalRowsAreNotStale(table, rows, |rows|, p);
        UpsertedAgree(after, table, rows, p);
      }
    }
    forall p, i | p in after && 0 <= i < |rows| && IsHub(rows[i])
      ensures p !in StaleUnder(after, rows, rows[i])
    {
    }
  }

  /** `main` from the parsed rows on.  The upsert is call 0. */
  method Sync(remote: Remote, rows: seq<Row>, network: Network)
    returns (exit: int, deleted: seq<string>, ghost done: nat, ghost gone: set<string>)
    modifies remote
    ensures rows == [] || !network.TakesEffect(0) ==> exit == 1 && deleted == [] && remote.table == old(remote.table)
    ensures rows != [] && network.TakesEffect(0) ==>
      done <= |rows| && PrunedTo(Upserted(old(remote.table), rows), rows, done, remote.table, gone)
    // Even a run that fails part way has deleted no local row.
    ensures rows != [] && network.TakesEffect(0) ==> forall p :: IsLocal(rows, p) ==> p in remote.table && p !in gone
    ensures exit == 0 ==> rows != [] && !network.fails(0) && done == |rows| && Lists(deleted, gone)
    ensures rows != [] && (forall c :: !network.fails(c)) ==> exit == 0
  {
    exit, deleted, done, gone := 1, [], 0, {};
    if rows == [] {
      return;
    }
    ghost var upserted := Upserted(old(remote.table), rows);
    if network.TakesEffect(0) {
      remote.Upsert(rows);
    }
    if !network.fails(0) {
      var failed;
      failed, deleted, done, gone := PruneStaleChildren(remote, rows, network, 1);
      exit := if failed then 1 else 0;
    }
    forall p | network.TakesEffect(0) && IsLocal(rows, p)
      ensures p in remote.table && p !in gone
    {
      UpsertedNote(old(remote.table), rows, p);
      LocalRowsAreNotStale(old(remote.table), rows, done, p);
    }
  }
}
