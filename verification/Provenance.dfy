/** Scoped provenance: scripts/package_r5_image_inputs.py.

    A record holds the digests of the inputs an image was packaged from; a later check compares
    it with the working tree.  A record and a check may cover all the inputs or one image's.
    The digest of a source is an arbitrary function of its path. */
module Provenance {
  import opened Collections
  import opened Ordering

  const PROVENANCE_VERSION := 1

  /** The names and paths that the script packages: the packages of the stack and the one that only the
      runner has; the packed workspaces and the directories of the manifests; the files of the runner's
      payload; and what the stack bakes in besides, as a key and a source each. */
  datatype Inventory = Inventory(
    stack: seq<string>, runner: string, npm: seq<string>, dirs: seq<string>, payload: seq<string>,
    seedsKey: string, seedsSource: string, tenantKey: string, tenantSource: string,
    npmScope: string, stackScope: string)

  /** The working tree: the name in each package manifest that exists, by directory, which payload
      sources are there, and the digest of every source. */
  datatype Tree = Tree(manifest: map<string, string>, present: string -> bool, digest: string -> string)

  type Paths = map<string, string>

  datatype Scope = Full | Npm | Stack

  function ScopeName(inv: Inventory, scope: Scope): Option<string> {
    match scope
    case Full => None
    case Npm => Some(inv.npmScope)
    case Stack => Some(inv.stackScope)
  }

  // ----- the three path sets -----

  function PackagePaths(names: seq<string>): (paths: Paths)
    ensures forall n :: n in paths <==> n in names
    ensures forall n :: n in paths ==> paths[n] == n
  {
    map n | n in names :: n
  }

  /** The names of the manifests that exist, later ones overriding. */
  function ManifestPaths(manifest: map<string, string>, dirs: seq<string>): (paths: Paths)
    ensures |paths.Keys| <= |dirs|
    ensures forall n :: n in paths ==> paths[n] in dirs && paths[n] in manifest && manifest[paths[n]] == n
    ensures forall dir :: dir in dirs && dir in manifest ==> manifest[dir] in paths
  {
    if dirs == [] then map[]
    else
      var before := ManifestPaths(manifest, dirs[..|dirs| - 1]);
      var dir := dirs[|dirs| - 1];
      assert dirs == dirs[..|dirs| - 1] + [dir];
      if dir !in manifest then before
      else
        var paths := before[manifest[dir] := dir];
        assert paths.Keys == before.Keys + {manifest[dir]};
        paths
  }

  function PayloadPaths(present: string -> bool, rels: seq<string>): (paths: Paths)
    ensures forall n :: n in paths ==> paths[n] in rels && n == "payload:" + paths[n]
  {
    if rels == [] then map[]
    else
      var before := PayloadPaths(present, rels[..|rels| - 1]);
      var rel := rels[|rels| - 1];
      if present(rel) then before["payload:" + rel := rel] else before
  }

  /** Every payload source that is there has its key, and no other. */
  lemma {:induction false} PayloadIff(present: string -> bool, rels: seq<string>, n: string)
    ensures n in PayloadPaths(present, rels) <==> exists rel :: rel in rels && present(rel) && n == "payload:" + rel
    ensures n in PayloadPaths(present, rels) ==> n == "payload:" + PayloadPaths(present, rels)[n]
  {
    if rels != [] {
      var k := |rels| - 1;
      PayloadIff(present, rels[..k], n);
      assert rels == rels[..k] + [rels[k]];
    }
  }

  lemma ManifestStep(manifest: map<string, string>, dirs: seq<string>, dir: string)
    ensures ManifestPaths(manifest, dirs + [dir]) ==
      if dir in manifest then ManifestPaths(manifest, dirs)[manifest[dir] := dir] else ManifestPaths(manifest, dirs)
  {
    assert (dirs + [dir])[..|dirs|] == dirs;
  }

  /** Of two manifests with one name, the later directory's counts. */
  lemma {:induction false} LaterManifestCounts(manifest: map<string, string>, a: seq<string>, dir: string,
                                               b: seq<string>)
    requires dir in manifest && forall d :: d in b && d in manifest ==> manifest[d] != manifest[dir]
    ensures manifest[dir] in ManifestPaths(manifest, a + [dir] + b)
    ensures ManifestPaths(manifest, a + [dir] + b)[manifest[dir]] == dir
  {
    if b == [] {
      assert a + [dir] + b == a + [dir];
      ManifestStep(manifest, a, dir);
    } else {
      var n := |b| - 1;
      var last := b[n];
      assert a + [dir] + b == a + [dir] + b[..n] + [last];
      assert last in b;
      LaterManifestCounts(manifest, a, dir, b[..n]);
      ManifestStep(manifest, a + [dir] + b[..n], last);
    }
  }

  /** `input_paths`: None when a packed workspace has no manifest and the script stops. */
  function InputPaths(inv: Inventory, tree: Tree): Option<Paths> {
    var manifests := ManifestPaths(tree.manifest, inv.dirs);
    if exists name :: name in inv.npm && name !in manifests then None
    else Some(PackagePaths(inv.stack + [inv.runner]) + manifests + PayloadPaths(tree.present, inv.payload))
  }

  ghost predicate IsInput(inv: Inventory, tree: Tree, inputs: Paths, n: string) {
    var payload, manifests := PayloadPaths(tree.present, inv.payload), ManifestPaths(tree.manifest, inv.dirs);
    if n in payload then n in inputs && inputs[n] == payload[n]
    else if n in manifests then n in inputs && inputs[n] == manifests[n]
    else if n in inv.stack || n == inv.runner then n in inputs && inputs[n] == n
    else n !in inputs
  }

  /** The inputs stop when a packed workspace has no manifest.  Otherwise they are the packages, the manifests
      and the payload, a later one overriding an earlier one of its name. */
  lemma InputsAre(inv: Inventory, tree: Tree, n: string)
    ensures InputPaths(inv, tree).None? <==>
      exists name :: name in inv.npm && !ManifestNamed(inv, tree, name)
    ensures InputPaths(inv, tree).Some? ==> IsInput(inv, tree, InputPaths(inv, tree).value, n)
  {
    var manifests := ManifestPaths(tree.manifest, inv.dirs);
    forall name
      ensures name in manifests <==> ManifestNamed(inv, tree, name)
    {
      if name in manifests {
        assert manifests[name] in inv.dirs;
      }
    }
    assert n in inv.stack + [inv.runner] <==> n in inv.stack || n == inv.runner;
  }

  /** `npm_input_paths`: the inputs that are directories of a manifest. */
  function NpmPaths(inv: Inventory, inputs: Paths): Paths {
    map name | name in inputs && inputs[name] in inv.dirs :: inputs[name]
  }

  /** `stack_input_paths`. */
  function StackPaths(inv: Inventory): Paths {
    PackagePaths(inv.stack)[inv.seedsKey := inv.seedsSource][inv.tenantKey := inv.tenantSource]
  }

  /** The stack's inputs are its packages, its seeds and the tenant's. */
  lemma StackIs(inv: Inventory, n: string)
    ensures n in StackPaths(inv) <==> n in inv.stack || n == inv.seedsKey || n == inv.tenantKey
    ensures n in StackPaths(inv) ==>
      StackPaths(inv)[n] ==
        (if n == inv.tenantKey then inv.tenantSource else if n == inv.seedsKey then inv.seedsSource else n)
  {
  }

  /** The npm inputs are the inputs whose source is a directory of a manifest. */
  lemma NpmIs(inv: Inventory, inputs: Paths, n: string)
    ensures n in NpmPaths(inv, inputs) <==> n in inputs && inputs[n] in inv.dirs
    ensures n in NpmPaths(inv, inputs) ==> NpmPaths(inv, inputs)[n] == inputs[n]
  {
  }

  /** The sources the scope covers. */
  function ScopePaths(inv: Inventory, tree: Tree, scope: Scope): (paths: Option<Paths>)
    ensures InputPaths(inv, tree).Some? ==> paths.Some?
  {
    var inputs := InputPaths(inv, tree);
    match scope
    case Full => inputs
    case Npm => if inputs.None? then None else Some(NpmPaths(inv, inputs.value))
    case Stack => Some(StackPaths(inv))
  }

  // ----- writing and checking a record -----

  datatype Record = Record(version: int, packages: map<string, string>, scope: Option<string>)

  function Digests(tree: Tree, paths: Paths): map<string, string> {
    map name | name in paths :: tree.digest(paths[name])
  }

  /** The record the packaging step leaves last; None when it stopped. */
  function WriteRecord(inv: Inventory, tree: Tree, scope: Scope): Option<Record> {
    var paths := ScopePaths(inv, tree, scope);
    if paths.None? then None
    else Some(Record(PROVENANCE_VERSION, Digests(tree, paths.value), ScopeName(inv, scope)))
  }

  /** The comparison of `check_only` on a chosen path set: the exit code 0, 1 or 2.  None for a
      record stands for a file that cannot be read as one. */
  function CheckPaths(tree: Tree, paths: Paths, document: Option<Record>, asked: Option<string>): int {
    if document.None? || document.value.version != PROVENANCE_VERSION then 2
    else if asked.Some? && document.value.scope.Some? && document.value.scope != asked then 1
    else
      var recorded := document.value.packages;
      var current := Digests(tree, paths);
      var added := current.Keys - recorded.Keys;
      var removed := if asked.Some? then {} else recorded.Keys - current.Keys;
      var changed := set name | name in current && name in recorded && current[name] != recorded[name];
      if added == {} && removed == {} && changed == {} then 0 else 1
  }

  /** The exit code is 2 iff the record cannot be used, and 1 iff it can and does not match. */
  lemma ExitCodes(tree: Tree, paths: Paths, document: Option<Record>, asked: Option<string>)
    ensures CheckPaths(tree, paths, document, asked) == 2 <==> document.None? || document.value.version != 1
    ensures CheckPaths(tree, paths, document, asked) in {0, 1, 2}
  {
  }

  /** A record holds the digest of every input of its path set, and nothing else. */
  lemma DigestsAre(tree: Tree, paths: Paths, n: string)
    ensures n in Digests(tree, paths) <==> n in paths
    ensures n in paths ==> Digests(tree, paths)[n] == tree.digest(paths[n])
  {
  }

  /** `check_only`; None when it stops because a packed workspace has no manifest. */
  function CheckOnly(inv: Inventory, tree: Tree, document: Option<Record>, scope: Scope): Option<int> {
    if InputPaths(inv, tree).None? then None
    else Some(CheckPaths(tree, ScopePaths(inv, tree, scope).value, document, ScopeName(inv, scope)))
  }

  predicate HoldsEvery(recorded: map<string, string>, current: map<string, string>) {
    forall name :: name in current ==> name in recorded && recorded[name] == current[name]
  }

  /** A full check passes exactly on a record that is the current digests, input for input; a
      scoped one exactly on a record, full or of that scope, that holds every input of the scope
      with its current digest. */
  lemma PassesIff(tree: Tree, paths: Paths, document: Option<Record>, asked: Option<string>)
    ensures CheckPaths(tree, paths, document, asked) == 0 <==>
      document.Some? && document.value.version == PROVENANCE_VERSION &&
      (asked.None? ==> document.value.packages == Digests(tree, paths)) &&
      (asked.Some? ==> document.value.scope in {None, asked}) &&
      (asked.Some? ==> HoldsEvery(document.value.packages, Digests(tree, paths)))
  {
    if document.Some? {
      var recorded := document.value.packages;
      var current := Digests(tree, paths);
      var added := current.Keys - recorded.Keys;
      var changed := set name | name in current && name in recorded && current[name] != recorded[name];
      if HoldsEvery(recorded, current) {
        assert added == {} && changed == {};
      } else {
        var name :| name in current && !(name in recorded && recorded[name] == current[name]);
        assert name in added || name in changed;
      }
      if recorded.Keys - current.Keys == {} {
        assert recorded.Keys <= current.Keys by {
          forall name | name in recorded.Keys ensures name in current.Keys {
            assert name !in recorded.Keys - current.Keys;
          }
        }
      }
    }
  }

  /** The same sources under the same names, with contents that may differ. */
  predicate SameLayout(inv: Inventory, before: Tree, after: Tree) {
    before.manifest == after.manifest &&
    forall rel :: rel in inv.payload ==> (before.present(rel) <==> after.present(rel))
  }

  lemma {:induction false} SamePayload(before: string -> bool, after: string -> bool, rels: seq<string>)
    requires forall rel :: rel in rels ==> before(rel) == after(rel)
    ensures PayloadPaths(before, rels) == PayloadPaths(after, rels)
  {
    if rels != [] {
      SamePayload(before, after, rels[..|rels| - 1]);
    }
  }

  lemma LayoutDecidesPaths(inv: Inventory, before: Tree, after: Tree, scope: Scope)
    requires SameLayout(inv, before, after)
    ensures ScopePaths(inv, before, scope) == ScopePaths(inv, after, scope)
    ensures InputPaths(inv, before) == InputPaths(inv, after)
  {
    SamePayload(before.present, after.present, inv.payload);
  }

  predicate Unchanged(before: Tree, after: Tree, paths: Paths) {
    forall name :: name in paths ==> before.digest(paths[name]) == after.digest(paths[name])
  }

  lemma PathsRoundTrip(before: Tree, after: Tree, paths: Paths, scope: Option<string>)
    ensures CheckPaths(after, paths, Some(Record(PROVENANCE_VERSION, Digests(before, paths), scope)), scope) ==
      if Unchanged(before, after, paths) then 0 else 1
  {
    PassesIff(after, paths, Some(Record(PROVENANCE_VERSION, Digests(before, paths), scope)), scope);
    var was, now := Digests(before, paths), Digests(after, paths);
    if Unchanged(before, after, paths) {
      assert was == now;
    } else {
      var name :| name in paths && before.digest(paths[name]) != after.digest(paths[name]);
      assert was[name] != now[name];
    }
  }

  /** Writing a record for a scope and checking that scope passes iff no input of the scope changed
      in between. */
  lemma RoundTrip(inv: Inventory, before: Tree, after: Tree, scope: Scope)
    requires SameLayout(inv, before, after) && InputPaths(inv, before).Some?
    ensures ScopePaths(inv, before, scope).Some?
    ensures CheckOnly(inv, after, WriteRecord(inv, before, scope), scope) ==
      Some(if Unchanged(before, after, ScopePaths(inv, before, scope).value) then 0 else 1)
  {
    LayoutDecidesPaths(inv, before, after, scope);
    PathsRoundTrip(before, after, ScopePaths(inv, before, scope).value, ScopeName(inv, scope));
  }

  // ----- what the inventory must be like -----

  /** A directory of a packed manifest is no package and no payload file; the runner's package is no
      input of the stack; there are more packages than manifests; the key of the tenant seeds is no
      package and no payload key; and the two images have different scopes. */
  ghost predicate Sound(inv: Inventory) {
    && (forall dir :: dir in inv.dirs ==> dir !in inv.stack + [inv.runner] && dir !in inv.payload)
    && inv.runner !in StackPaths(inv)
    && |PackagePaths(inv.stack).Keys| > |inv.dirs|
    && inv.tenantKey !in inv.stack + [inv.runner]
    && (|inv.tenantKey| >= 8 ==> inv.tenantKey[8..] !in inv.payload)
    && inv.npmScope != inv.stackScope
  }

  /** A record of one image's inputs never passes the check of another image's. */
  lemma OtherScopeRefuses(inv: Inventory, before: Tree, after: Tree, written: Scope, asked: Scope)
    requires Sound(inv) && written != asked && !written.Full? && !asked.Full?
    requires WriteRecord(inv, before, written).Some? && InputPaths(inv, after).Some?
    ensures CheckOnly(inv, after, WriteRecord(inv, before, written), asked) == Some(1)
  {
    var document := WriteRecord(inv, before, written);
    ForeignRecord(after, ScopePaths(inv, after, asked).value, document.value, ScopeName(inv, asked));
  }

  lemma ForeignRecord(tree: Tree, paths: Paths, document: Record, asked: Option<string>)
    requires document.version == PROVENANCE_VERSION
    requires asked.Some? && document.scope.Some? && document.scope != asked
    ensures CheckPaths(tree, paths, Some(document), asked) == 1
  {
  }

  lemma NpmNamesAreManifestNames(inv: Inventory, tree: Tree)
    requires Sound(inv) && InputPaths(inv, tree).Some?
    ensures forall name :: name in NpmPaths(inv, InputPaths(inv, tree).value) ==>
      name in ManifestPaths(tree.manifest, inv.dirs)
      && NpmPaths(inv, InputPaths(inv, tree).value)[name] == ManifestPaths(tree.manifest, inv.dirs)[name]
    ensures |NpmPaths(inv, InputPaths(inv, tree).value).Keys| <= |inv.dirs|
  {
    var npm, manifests := NpmPaths(inv, InputPaths(inv, tree).value), ManifestPaths(tree.manifest, inv.dirs);
    forall name | name in npm ensures name in manifests && npm[name] == manifests[name] {
      assert npm[name] in inv.dirs;
    }
    SubsetIsNoLarger(npm.Keys, manifests.Keys);
  }

  lemma PackagesAreInputs(inv: Inventory, tree: Tree)
    requires InputPaths(inv, tree).Some?
    ensures forall name :: name in inv.stack || name == inv.runner ==> name in InputPaths(inv, tree).value
  {
    assert forall name :: name in inv.stack || name == inv.runner ==> name in inv.stack + [inv.runner];
  }

  lemma OtherNamesFail(tree: Tree, paths: Paths, document: Record)
    requires document.packages.Keys != paths.Keys
    requires document.version == PROVENANCE_VERSION
    ensures CheckPaths(tree, paths, Some(document), None) == 1
  {
    PassesIff(tree, paths, Some(document), None);
    assert Digests(tree, paths).Keys == paths.Keys;
  }

  /** A partial record never reads as a complete one, whatever the trees and the manifests' names:
      the stack's lacks the runner's package, and the npm one has fewer names than there are
      workspace packages. */
  lemma PartialNeverPassesFull(inv: Inventory, before: Tree, after: Tree, written: Scope)
    requires Sound(inv) && !written.Full?
    requires WriteRecord(inv, before, written).Some? && InputPaths(inv, after).Some?
    ensures CheckOnly(inv, after, WriteRecord(inv, before, written), Full) == Some(1)
  {
    PartialLacksNames(inv, before, after, written);
    OtherNamesFail(after, InputPaths(inv, after).value, WriteRecord(inv, before, written).value);
  }

  lemma PartialLacksNames(inv: Inventory, before: Tree, after: Tree, written: Scope)
    requires Sound(inv) && !written.Full?
    requires WriteRecord(inv, before, written).Some? && InputPaths(inv, after).Some?
    ensures WriteRecord(inv, before, written).value.packages.Keys != InputPaths(inv, after).value.Keys
  {
    var paths, inputs := ScopePaths(inv, before, written).value, InputPaths(inv, after).value;
    assert Digests(before, paths).Keys == paths.Keys;
    PackagesAreInputs(inv, after);
    if written.Stack? {
      assert inv.runner in inputs && inv.runner !in paths;
    } else {
      SubsetIsNoLarger(PackagePaths(inv.stack).Keys, inputs.Keys);
      NpmNamesAreManifestNames(inv, before);
    }
  }

  predicate ManifestNamed(inv: Inventory, tree: Tree, name: string) {
    exists dir :: dir in inv.dirs && dir in tree.manifest && tree.manifest[dir] == name
  }

  lemma TenantSeedsIsNotAnInput(inv: Inventory, tree: Tree)
    requires Sound(inv) && InputPaths(inv, tree).Some?
    ensures inv.tenantKey in InputPaths(inv, tree).value <==> ManifestNamed(inv, tree, inv.tenantKey)
  {
    PayloadKeys(tree.present, inv.payload, inv.tenantKey);
  }

  lemma PayloadKeys(present: string -> bool, rels: seq<string>, key: string)
    ensures key in PayloadPaths(present, rels) ==> |key| >= 8 && key[8..] in rels
  {
    var paths := PayloadPaths(present, rels);
    if key in paths {
      assert ("payload:" + paths[key])[8..] == paths[key];
    }
  }

  /** The script says that a full record satisfies the stack's check.  It does not: the full
      path set has no key for the tenant seeds.  The one way around is a package manifest that
      carries this key as its name. */
  lemma FullPassesStackIff(inv: Inventory, before: Tree, after: Tree)
    requires Sound(inv) && InputPaths(inv, before).Some? && InputPaths(inv, after).Some?
    ensures CheckOnly(inv, after, WriteRecord(inv, before, Full), Stack) == Some(0) <==>
      ManifestNamed(inv, before, inv.tenantKey) &&
      HoldsEvery(Digests(before, InputPaths(inv, before).value), Digests(after, StackPaths(inv)))
  {
    var inputs := InputPaths(inv, before).value;
    CheckStackIs(inv, after, WriteRecord(inv, before, Full));
    FullRecordIs(inv, before);
    PassesWithKeyIff(before, after, inputs, StackPaths(inv), inv.stackScope, inv.tenantKey);
    TenantSeedsIsNotAnInput(inv, before);
  }

  lemma CheckStackIs(inv: Inventory, tree: Tree, document: Option<Record>)
    requires InputPaths(inv, tree).Some?
    ensures CheckOnly(inv, tree, document, Stack)
      == Some(CheckPaths(tree, StackPaths(inv), document, Some(inv.stackScope)))
  {
  }

  lemma FullRecordIs(inv: Inventory, tree: Tree)
    requires InputPaths(inv, tree).Some?
    ensures WriteRecord(inv, tree, Full)
      == Some(Record(PROVENANCE_VERSION, Digests(tree, InputPaths(inv, tree).value), None))
  {
  }

  /** A full record against a scope one of whose inputs is `key`. */
  lemma PassesWithKeyIff(before: Tree, after: Tree, inputs: Paths, paths: Paths, asked: string, key: string)
    requires key in paths
    ensures CheckPaths(after, paths, Some(Record(PROVENANCE_VERSION, Digests(before, inputs), None)), Some(asked)) == 0
      <==> key in inputs && HoldsEvery(Digests(before, inputs), Digests(after, paths))
  {
    PassesIff(after, paths, Some(Record(PROVENANCE_VERSION, Digests(before, inputs), None)), Some(asked));
    assert key in Digests(after, paths);
  }

  /** Without such a manifest, packaging everything and checking the stack's inputs straight
      afterwards, with nothing changed, refuses. */
  lemma FreshFullRecordFailsStack(inv: Inventory, tree: Tree)
    requires Sound(inv) && InputPaths(inv, tree).Some? && !ManifestNamed(inv, tree, inv.tenantKey)
    ensures CheckOnly(inv, tree, WriteRecord(inv, tree, Full), Stack) == Some(1)
  {
    FullPassesStackIff(inv, tree, tree);
    CheckStackIs(inv, tree, WriteRecord(inv, tree, Full));
    FullRecordIs(inv, tree);
    KnownRecord(tree, StackPaths(inv), WriteRecord(inv, tree, Full), Some(inv.stackScope));
  }

  lemma KnownRecord(tree: Tree, paths: Paths, document: Option<Record>, asked: Option<string>)
    requires document.Some? && document.value.version == PROVENANCE_VERSION
    ensures CheckPaths(tree, paths, document, asked) in {0, 1}
  {
  }

  lemma SubsetServes(before: Tree, after: Tree, paths: Paths, some: Paths, asked: string)
    requires forall name :: name in some ==> name in paths && paths[name] == some[name]
    ensures CheckPaths(after, some, Some(Record(PROVENANCE_VERSION, Digests(before, paths), None)), Some(asked)) ==
      if Unchanged(before, after, some) then 0 else 1
  {
    PassesIff(after, some, Some(Record(PROVENANCE_VERSION, Digests(before, paths), None)), Some(asked));
    var was, now := Digests(before, paths), Digests(after, some);
    if Unchanged(before, after, some) {
      assert HoldsEvery(was, now);
    } else {
      var name :| name in some && before.digest(some[name]) != after.digest(some[name]);
      assert was[name] != now[name];
    }
  }

  /** A full record does satisfy the npm check, iff no npm input changed. */
  lemma FullServesNpm(inv: Inventory, before: Tree, after: Tree)
    requires SameLayout(inv, before, after) && InputPaths(inv, before).Some?
    ensures CheckOnly(inv, after, WriteRecord(inv, before, Full), Npm) ==
      Some(if Unchanged(before, after, ScopePaths(inv, before, Npm).value) then 0 else 1)
  {
    LayoutDecidesPaths(inv, before, after, Npm);
    SubsetServes(before, after, InputPaths(inv, before).value, ScopePaths(inv, before, Npm).value, inv.npmScope);
  }

  /** No two manifests share a name, and none is named like a payload source. */
  predicate NamesAreApart(inv: Inventory, tree: Tree) {
    (forall a, b | a in inv.dirs && b in inv.dirs && a in tree.manifest && b in tree.manifest ::
      tree.manifest[a] == tree.manifest[b] ==> a == b) &&
    (forall dir :: dir in inv.dirs && dir in tree.manifest ==>
      tree.manifest[dir] !in PayloadPaths(tree.present, inv.payload))
  }

  lemma NpmHoldsEveryManifest(inv: Inventory, tree: Tree, dir: string)
    requires InputPaths(inv, tree).Some? && NamesAreApart(inv, tree) && dir in inv.dirs && dir in tree.manifest
    ensures tree.manifest[dir] in NpmPaths(inv, InputPaths(inv, tree).value)
    ensures NpmPaths(inv, InputPaths(inv, tree).value)[tree.manifest[dir]] == dir
  {
    var name := tree.manifest[dir];
    assert ManifestPaths(tree.manifest, inv.dirs)[name] == dir;
  }

  /** The npm check notices a change in every manifest directory that is there, the ones that are
      only copied included, and in nothing else. */
  lemma NpmSeesEveryManifest(inv: Inventory, before: Tree, after: Tree)
    requires Sound(inv) && SameLayout(inv, before, after) && InputPaths(inv, before).Some? && NamesAreApart(inv, before)
    ensures CheckOnly(inv, after, WriteRecord(inv, before, Npm), Npm) == Some(0) <==>
      forall dir :: dir in inv.dirs && dir in before.manifest ==> before.digest(dir) == after.digest(dir)
  {
    RoundTrip(inv, before, after, Npm);
    NpmNamesAreManifestNames(inv, before);
    var npm := NpmPaths(inv, InputPaths(inv, before).value);
    if Unchanged(before, after, npm) {
      forall dir | dir in inv.dirs && dir in before.manifest ensures before.digest(dir) == after.digest(dir) {
        NpmHoldsEveryManifest(inv, before, dir);
      }
    } else {
      var name :| name in npm && before.digest(npm[name]) != after.digest(npm[name]);
      assert npm[name] in inv.dirs && npm[name] in before.manifest;
    }
  }

  // ----- the script's own inventory -----

  const STACK_PACKAGES := [
    "digibase", "digikey", "digitrace", "digillm", "digigraph", "digifetch", "digibot", "digisearch", "digivault"
  ]
  /** The packages of the runner that the stack does not have already. */
  const RUNNER_ONLY := "digiquant"
  const NPM_PACKAGES := [
    "@digithings/design", "@digithings/ui", "@digithings/digichat-ui", "@digithings/hero-banner", "@digithings/catalog"
  ]
  /** The directories of the manifests in NPM_MANIFESTS. */
  const MANIFEST_DIRS := [
    "packages/design", "packages/ui", "packages/digichat-ui", "packages/hero-banner", "packages/catalog",
    "apps/dashboard"
  ]
  const TENANT_SEEDS_KEY := "payload:tenant-seeds"
  const TENANT_SEEDS_SOURCE := "apps/digithings-stack-cloudflare/container/seed"

  const RUNNER_FILES := [
    "scripts/refresh_market_data_r2.py",
    "scripts/backfill_market_data_r2.py",
    "scripts/execution_cron_check.py",
    "scripts/digiquant_archive_checkpoints.py",
    "scripts/digiquant_checkpoint_size_gate.py",
    "config/byok-providers.json",
    "config/model-policy.json",
    "config/digiquant-model-prices.json",
    ".github/digiquant-pipeline.yml",
    ".github/workflows/pipeline-digiquant-allocation-shadow.yml"
  ]
  const RUNNER_OPT := [
    "apps/digiquant-runner/container/exec_job.py",
    "apps/digiquant-runner/container/house_chain_step.py",
    "apps/digiquant-runner/container/wake_stack.py",
    "apps/digiquant-runner/container/web_search_preflight.py",
    "apps/digiquant-runner/commands.json"
  ]
  const PAYLOAD_DIRS := ["digiquant/scripts", "digisearch/seeds"]
  /** What the runner image copies file by file, then the two directories it copies whole. */
  const PAYLOAD := RUNNER_FILES + RUNNER_OPT + PAYLOAD_DIRS

  const SEEDS_KEY := "payload:digisearch/seeds"
  const NPM_SCOPE := "npm-only"
  const STACK_SCOPE := "stack-only"

  const R5 := Inventory(STACK_PACKAGES, RUNNER_ONLY, NPM_PACKAGES, MANIFEST_DIRS, PAYLOAD,
                        SEEDS_KEY, "digisearch/seeds", TENANT_SEEDS_KEY, TENANT_SEEDS_SOURCE, NPM_SCOPE, STACK_SCOPE)

  lemma R5IsSound()
    ensures Sound(R5)
  {
    forall dir | dir in MANIFEST_DIRS ensures dir !in STACK_PACKAGES + [RUNNER_ONLY] && dir !in PAYLOAD {
      ManifestDirsAreApart(dir);
    }
    RunnerIsNotInTheStack();
    SevenNames();
    TenantKeyIsNoPackage();
    NoSuchPayload();
    ScopeNamesDiffer();
  }

  lemma TenantKeyIsNoPackage()
    ensures TENANT_SEEDS_KEY !in STACK_PACKAGES + [RUNNER_ONLY]
  {
    assert TENANT_SEEDS_KEY[0] == 'p';
  }

  lemma ScopeNamesDiffer()
    ensures NPM_SCOPE != STACK_SCOPE
  {
    assert NPM_SCOPE[0] != STACK_SCOPE[0];
  }

  /** A directory of a packed manifest is none of the other sources. */
  lemma ManifestDirsAreApart(path: string)
    requires path in MANIFEST_DIRS
    ensures path !in STACK_PACKAGES + [RUNNER_ONLY] && path !in PAYLOAD
  {
    assert path[0] == 'p' || path[..6] == "apps/d";
    assert path[4] in "a/";
  }

  lemma RunnerIsNotInTheStack()
    ensures var packages := PackagePaths(STACK_PACKAGES);
            RUNNER_ONLY !in packages[SEEDS_KEY := "digisearch/seeds"][TENANT_SEEDS_KEY := TENANT_SEEDS_SOURCE]
  {
    assert RUNNER_ONLY[4] == 'q';
  }

  lemma SevenNames()
    ensures |PackagePaths(STACK_PACKAGES).Keys| >= 7
  {
    var names := STACK_PACKAGES[..7];
    assert names[0][4] == 'b' && |names[0]| == 8;
    assert names[1][4] == 'k';
    assert names[2][4] == 't';
    assert names[3][4] == 'l';
    assert names[4][4] == 'g';
    assert names[5][4] == 'f';
    assert names[6][4] == 'b' && |names[6]| == 7;
    var seven := {names[0], names[1], names[2], names[3], names[4], names[5], names[6]};
    assert |seven| == 7;
    SubsetIsNoLarger(seven, PackagePaths(STACK_PACKAGES).Keys);
  }

  predicate AllLong(rels: seq<string>) {
    forall rel :: rel in rels ==> |rel| > 12
  }

  lemma FilesAreLong()
    ensures AllLong(RUNNER_FILES)
  {
  }

  lemma OptionsAreLong()
    ensures AllLong(RUNNER_OPT) && AllLong(PAYLOAD_DIRS)
  {
  }

  lemma JoinLong(a: seq<string>, b: seq<string>, c: seq<string>)
    requires AllLong(a) && AllLong(b) && AllLong(c)
    ensures AllLong(a + b + c)
  {
  }

  lemma PayloadIsLong()
    ensures AllLong(PAYLOAD)
  {
    FilesAreLong();
    OptionsAreLong();
    JoinLong(RUNNER_FILES, RUNNER_OPT, PAYLOAD_DIRS);
  }

  lemma NoSuchPayload()
    ensures |TENANT_SEEDS_KEY| >= 8 && TENANT_SEEDS_KEY[8..] !in PAYLOAD
  {
    PayloadIsLong();
    KeyLength();
  }

  lemma KeyLength()
    ensures |TENANT_SEEDS_KEY| == 20
  {
  }

  /** The scopes and the stack's further inputs, by name. */
  lemma R5Names(before: Tree)
    ensures WriteRecord(R5, before, Full).Some? ==>
      WriteRecord(R5, before, Full).value.version == 1 && WriteRecord(R5, before, Full).value.scope == None
    ensures WriteRecord(R5, before, Npm).Some? ==> WriteRecord(R5, before, Npm).value.scope == Some("npm-only")
    ensures WriteRecord(R5, before, Stack).Some? && WriteRecord(R5, before, Stack).value.scope == Some("stack-only")
  {
  }

  lemma R5StackSeeds()
    ensures StackPaths(R5)["payload:tenant-seeds"] == "apps/digithings-stack-cloudflare/container/seed"
  {
  }

  /** So, of the images as they are packaged: a partial record never passes the full check, and another
      image's record never passes. */
  lemma R5PartialRecordsRefused(before: Tree, after: Tree, written: Scope, asked: Scope)
    requires !written.Full? && written != asked
    requires WriteRecord(R5, before, written).Some? && InputPaths(R5, after).Some?
    ensures CheckOnly(R5, after, WriteRecord(R5, before, written), asked) == Some(1)
  {
    R5IsSound();
    if asked.Full? {
      PartialNeverPassesFull(R5, before, after, written);
    } else {
      OtherScopeRefuses(R5, before, after, written, asked);
    }
  }

  /** The first directories, each with a manifest of the name beside it. */
  ghost function Manifests(dirs: seq<string>, names: seq<string>): (manifest: map<string, string>)
    requires |names| <= |dirs| && Distinct(dirs)
    ensures forall i :: 0 <= i < |names| ==> dirs[i] in manifest && manifest[dirs[i]] == names[i]
    ensures forall dir :: dir in manifest ==> manifest[dir] in names
  {
    map i | 0 <= i < |names| :: dirs[i] := names[i]
  }

  /** The packed workspaces and no other manifest: a tree in which the check refuses. */
  ghost function PackedTree(inv: Inventory): Tree
    requires |inv.npm| <= |inv.dirs| && Distinct(inv.dirs)
  {
    Tree(Manifests(inv.dirs, inv.npm), rel => true, path => path)
  }

  lemma PackedTreeNames(inv: Inventory)
    requires |inv.npm| <= |inv.dirs| && Distinct(inv.dirs) && inv.tenantKey !in inv.npm
    ensures InputPaths(inv, PackedTree(inv)).Some? && !ManifestNamed(inv, PackedTree(inv), inv.tenantKey)
  {
    NamesAreCovered(inv.dirs, inv.npm);
    CoveredInputs(inv, PackedTree(inv));
  }

  predicate AllIn(names: seq<string>, paths: Paths) {
    forall name :: name in names ==> name in paths
  }

  lemma NamesAreCovered(dirs: seq<string>, names: seq<string>)
    requires |names| <= |dirs| && Distinct(dirs)
    ensures AllIn(names, ManifestPaths(Manifests(dirs, names), dirs))
  {
  }

  lemma CoveredInputs(inv: Inventory, tree: Tree)
    requires AllIn(inv.npm, ManifestPaths(tree.manifest, inv.dirs))
    ensures InputPaths(inv, tree).Some?
  {
  }

  lemma PackedTreeFailsStack()
    ensures Distinct(R5.dirs) && InputPaths(R5, PackedTree(R5)).Some?
    ensures CheckOnly(R5, PackedTree(R5), WriteRecord(R5, PackedTree(R5), Full), Stack) == Some(1)
  {
    R5IsSound();
    DirsDiffer();
    NpmNamesAreScoped();
    PackedTreeNames(R5);
    FreshFullRecordFailsStack(R5, PackedTree(R5));
  }

  lemma DirsDiffer()
    ensures Distinct(MANIFEST_DIRS)
  {
    assert |MANIFEST_DIRS[0]| == 15 && |MANIFEST_DIRS[1]| == 11 && |MANIFEST_DIRS[2]| == 20;
    assert |MANIFEST_DIRS[3]| == 20 && |MANIFEST_DIRS[4]| == 16 && |MANIFEST_DIRS[5]| == 14;
    assert MANIFEST_DIRS[2][9] == 'd' && MANIFEST_DIRS[3][9] == 'h';
  }

  lemma NpmNamesAreScoped()
    ensures TENANT_SEEDS_KEY !in NPM_PACKAGES
  {
    assert TENANT_SEEDS_KEY[0] == 'p';
  }

  // ----- merging the frozen exports -----

  datatype Key = Key(name: string, marker: string)
  datatype Pin = Pin(key: Key, version: string)
  datatype Line = Blank | Malformed | Requirement(pin: Pin)

  predicate KeyLess(a: Key, b: Key) {
    Less(a.name, b.name) || (a.name == b.name && Less(a.marker, b.marker))
  }

  lemma KeyLessTransitive(a: Key, b: Key, c: Key)
    requires KeyLess(a, b) && KeyLess(b, c)
    ensures KeyLess(a, c)
  {
    if Less(a.name, b.name) && Less(b.name, c.name) {
      LessTransitive(a.name, b.name, c.name);
    }
    if Less(a.marker, b.marker) && Less(b.marker, c.marker) {
      LessTransitive(a.marker, b.marker, c.marker);
    }
  }

  predicate Ascending(pins: seq<Pin>) {
    forall i, j :: 0 <= i < j < |pins| ==> KeyLess(pins[i].key, pins[j].key)
  }

  ghost predicate HasLine(files: seq<seq<Line>>, line: Line) {
    exists k :: 0 <= k < |files| && line in files[k]
  }

  ghost predicate HasPin(files: seq<seq<Line>>, pin: Pin) {
    HasLine(files, Requirement(pin))
  }

  ghost predicate Conflict(files: seq<seq<Line>>) {
    exists a, b :: HasPin(files, a) && HasPin(files, b) && a.key == b.key && a.version != b.version
  }

  /** What `_merge` promises: it stops iff a line is no pin or two lines pin one name and marker at
      two versions, and otherwise gives every pin once, sorted by name and marker. */
  ghost predicate Merged(files: seq<seq<Line>>, result: Option<seq<Pin>>) {
    (result.None? <==> HasLine(files, Malformed) || Conflict(files)) &&
    (result.Some? ==> Ascending(result.value) && forall pin :: pin in result.value <==> HasPin(files, pin))
  }

  /** The line pins a name and marker that these lines pin at another version. */
  ghost predicate Clashes(files: seq<seq<Line>>, line: Line) {
    line.Requirement? && exists version :: version != line.pin.version && HasPin(files, Pin(line.pin.key, version))
  }

  /** `chosen` is exactly the pins of these lines. */
  ghost predicate Chosen(files: seq<seq<Line>>, chosen: map<Key, string>) {
    !HasLine(files, Malformed) &&
    forall pin: Pin :: HasPin(files, pin) <==> pin.key in chosen && chosen[pin.key] == pin.version
  }

  lemma OneMoreLine(files: seq<seq<Line>>, part: seq<Line>, line: Line, x: Line)
    ensures HasLine(files + [part + [line]], x) <==> HasLine(files + [part], x) || x == line
  {
    var before, after := files + [part], files + [part + [line]];
    if HasLine(before, x) {
      var k :| 0 <= k < |before| && x in before[k];
      assert x in after[k];
    }
    if x == line {
      assert x in after[|files|];
    }
    if HasLine(after, x) {
      var k :| 0 <= k < |after| && x in after[k];
      assert k < |files| ==> x in before[k];
      assert k == |files| && x != line ==> x in before[k];
    }
  }

  /** What the lines so far hold, all the lines hold. */
  lemma PrefixHas(files: seq<seq<Line>>, i: nat, part: seq<Line>, x: Line)
    requires i < |files| && part <= files[i] && HasLine(files[..i] + [part], x)
    ensures HasLine(files, x)
  {
    var before := files[..i] + [part];
    var k :| 0 <= k < |before| && x in before[k];
    assert x in files[k];
  }

  method MergeLine(chosen: map<Key, string>, line: Line, ghost files: seq<seq<Line>>, ghost part: seq<Line>)
    returns (ok: bool, now: map<Key, string>)
    requires Chosen(files + [part], chosen)
    ensures ok ==> Chosen(files + [part + [line]], now)
    ensures !ok ==> line == Malformed || Clashes(files + [part], line)
  {
    forall x ensures HasLine(files + [part + [line]], x) <==> HasLine(files + [part], x) || x == line {
      OneMoreLine(files, part, line, x);
    }
    match line
    case Blank => return true, chosen;
    case Malformed => return false, chosen;
    case Requirement(pin) =>
      if pin.key in chosen && chosen[pin.key] != pin.version {
        assert HasPin(files + [part], Pin(pin.key, chosen[pin.key]));
        return false, chosen;
      }
      return true, chosen[pin.key := pin.version];
  }

  /** `_merge` on the lines of each export. */
  method Merge(files: seq<seq<Line>>) returns (result: Option<seq<Pin>>)
    ensures Merged(files, result)
  {
    var chosen: map<Key, string> := map[];
    for i := 0 to |files|
      invariant Chosen(files[..i], chosen)
    {
      NoLinesYet(files[..i]);
      for j := 0 to |files[i]|
        invariant Chosen(files[..i] + [files[i][..j]], chosen)
      {
        var line := files[i][j];
        var ok, now := MergeLine(chosen, line, files[..i], files[i][..j]);
        if !ok {
          Stops(files, i, j);
          return None;
        }
        assert files[i][..j + 1] == files[i][..j] + [line];
        chosen := now;
      }
      assert files[i][..|files[i]|] == files[i] && files[..i + 1] == files[..i] + [files[i]];
    }
    assert files[..|files|] == files;
    var pins := SortedItems(chosen);
    return Some(pins);
  }

  lemma NoLinesYet(files: seq<seq<Line>>)
    ensures forall x :: HasLine(files + [[]], x) <==> HasLine(files, x)
  {
    forall x ensures HasLine(files + [[]], x) <==> HasLine(files, x) {
      if HasLine(files, x) {
        var k :| 0 <= k < |files| && x in files[k];
        assert x in (files + [[]])[k];
      }
    }
  }

  lemma Stops(files: seq<seq<Line>>, i: nat, j: nat)
    requires i < |files| && j < |files[i]|
    requires files[i][j] == Malformed || Clashes(files[..i] + [files[i][..j]], files[i][j])
    ensures HasLine(files, Malformed) || Conflict(files)
  {
    var line := files[i][j];
    assert HasLine(files, line) by { assert line in files[i]; }
    if line.Requirement? {
      var version :| version != line.pin.version && HasPin(files[..i] + [files[i][..j]], Pin(line.pin.key, version));
      var other := Pin(line.pin.key, version);
      PrefixHas(files, i, files[i][..j], Requirement(other));
      assert HasPin(files, other) && HasPin(files, line.pin);
    }
  }

  function Insert(pin: Pin, pins: seq<Pin>): seq<Pin> {
    if pins == [] || KeyLess(pin.key, pins[0].key) then [pin] + pins else [pins[0]] + Insert(pin, pins[1..])
  }

  lemma {:induction false} InsertAscends(pin: Pin, pins: seq<Pin>)
    requires Ascending(pins) && forall p :: p in pins ==> p.key != pin.key
    ensures Ascending(Insert(pin, pins)) && forall p :: p in Insert(pin, pins) <==> p in pins || p == pin
  {
    if pins != [] {
      var first, rest := pins[0], pins[1..];
      assert pins == [first] + rest;
      if KeyLess(pin.key, first.key) {
        forall p | p in rest ensures KeyLess(pin.key, p.key) {
          KeyLessTransitive(pin.key, first.key, p.key);
        }
      } else {
        LessTotal(pin.key.name, first.key.name);
        LessTotal(pin.key.marker, first.key.marker);
        InsertAscends(pin, rest);
        var inserted := Insert(pin, rest);
        forall p | p in inserted ensures KeyLess(first.key, p.key) {
        }
      }
    }
  }

  /** `sorted(chosen.items())`. */
  method SortedItems(chosen: map<Key, string>) returns (pins: seq<Pin>)
    ensures Ascending(pins)
    ensures forall p: Pin :: p in pins <==> p.key in chosen && chosen[p.key] == p.version
  {
    pins := [];
    var keys := chosen.Keys;
    while keys != {}
      invariant keys <= chosen.Keys && Ascending(pins)
      invariant forall p: Pin :: p in pins <==> p.key in chosen.Keys - keys && chosen[p.key] == p.version
      decreases |keys|
    {
      var key :| key in keys;
      InsertAscends(Pin(key, chosen[key]), pins);
      pins := Insert(Pin(key, chosen[key]), pins);
      keys := keys - {key};
    }
  }

  lemma {:induction false} AscendingIsUnique(a: seq<Pin>, b: seq<Pin>)
    requires Ascending(a) && Ascending(b) && forall p :: p in a <==> p in b
    ensures a == b
  {
    BothOrNeither(a, b);
    if a != [] {
      FirstIsLeast(a, b);
      FirstIsLeast(b, a);
      if a[0] != b[0] {
        KeyLessTransitive(a[0].key, b[0].key, a[0].key);
        LessIrreflexive(a[0].key.name);
        LessIrreflexive(a[0].key.marker);
      }
      TailKeepsRest(a);
      TailKeepsRest(b);
      AscendingIsUnique(a[1..], b[1..]);
      assert a == [a[0]] + a[1..] && b == [b[0]] + b[1..];
    }
  }

  lemma BothOrNeither(a: seq<Pin>, b: seq<Pin>)
    requires forall p :: p in a <==> p in b
    ensures a == [] <==> b == []
  {
    if a != [] {
      assert a[0] in b;
    }
    if b != [] {
      assert b[0] in a;
    }
  }

  lemma FirstIsLeast(a: seq<Pin>, b: seq<Pin>)
    requires a != [] && b != [] && Ascending(a) && forall p :: p in a <==> p in b
    ensures b[0] == a[0] || KeyLess(a[0].key, b[0].key)
  {
    assert b[0] in a;
  }

  lemma TailKeepsRest(a: seq<Pin>)
    requires a != [] && Ascending(a)
    ensures forall p :: p in a[1..] <==> p in a && p != a[0]
  {
    LessIrreflexive(a[0].key.name);
    LessIrreflexive(a[0].key.marker);
    assert a == [a[0]] + a[1..];
  }

  /** The order of the list: by name, and by marker where the names are equal. */
  lemma MergedAscends(files: seq<seq<Line>>, result: Option<seq<Pin>>, i: nat, j: nat)
    requires Merged(files, result) && result.Some? && i < j < |result.value|
    ensures var a, b := result.value[i].key, result.value[j].key;
            Less(a.name, b.name) || (a.name == b.name && Less(a.marker, b.marker))
  {
  }

  /** The merge depends only on which lines there are: not on the order of the exports, the order of
      the lines or how often one is repeated. */
  lemma MergeIgnoresOrder(a: seq<seq<Line>>, b: seq<seq<Line>>, fromA: Option<seq<Pin>>, fromB: Option<seq<Pin>>)
    requires Merged(a, fromA) && Merged(b, fromB)
    requires forall line :: HasLine(a, line) <==> HasLine(b, line)
    ensures fromA == fromB
  {
    assert forall pin :: HasPin(a, pin) <==> HasPin(b, pin);
    if fromA.Some? && fromB.Some? {
      AscendingIsUnique(fromA.value, fromB.value);
    }
  }

  /** In particular, the exports may be listed in any order. */
  lemma FileOrderDoesNotMatter(a: seq<seq<Line>>, b: seq<seq<Line>>, fromA: Option<seq<Pin>>, fromB: Option<seq<Pin>>)
    requires Merged(a, fromA) && Merged(b, fromB) && multiset(a) == multiset(b)
    ensures fromA == fromB
  {
    SameFilesSameLines(a, b);
    SameFilesSameLines(b, a);
    MergeIgnoresOrder(a, b, fromA, fromB);
  }

  lemma SameFilesSameLines(a: seq<seq<Line>>, b: seq<seq<Line>>)
    requires multiset(a) == multiset(b)
    ensures forall line :: HasLine(a, line) ==> HasLine(b, line)
  {
    forall line | HasLine(a, line) ensures HasLine(b, line) {
      var k :| 0 <= k < |a| && line in a[k];
      assert a[k] in multiset(a);
      assert a[k] in multiset(b);
      assert a[k] in b;
    }
  }
}
