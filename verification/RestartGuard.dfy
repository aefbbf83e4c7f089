/** Duplicate-work guard: scripts/branch_restart_check.py.

    A push that creates a branch is refused when another unmerged branch already holds at least
    three of its unmerged patches.  Git's answers come from an arbitrary commit graph, and any
    query may fail. */
module RestartGuard {
  import opened Collections
  import opened Ordering

  const MIN_UNMERGED_PATCH_OVERLAP := 3

  // ----- branch names -----

  predicate StartsWith(s: string, prefix: string) {
    |prefix| <= |s| && s[..|prefix|] == prefix
  }

  function Drop(s: string, prefix: string): string {
    if StartsWith(s, prefix) then s[|prefix|..] else s
  }

  function Lstrip(space: char -> bool, s: string): (r: string)
    ensures |r| <= |s| && (|r| == |s| ==> r == s && (s != [] ==> !space(s[0])))
  {
    if s != [] && space(s[0]) then Lstrip(space, s[1..]) else s
  }

  /** What is taken off the front is white space, and all of it. */
  lemma {:induction false} LstripIs(space: char -> bool, s: string)
    ensures var n := |s| - |Lstrip(space, s)|;
            && s[n..] == Lstrip(space, s) && (forall i :: 0 <= i < n ==> space(s[i]))
            && (n < |s| ==> !space(s[n]))
  {
    if s != [] && space(s[0]) {
      LstripIs(space, s[1..]);
      assert forall i :: 1 <= i < |s| ==> s[i] == s[1..][i - 1];
    }
  }

  function Rstrip(drop: char -> bool, s: string): (r: string)
    ensures |r| <= |s| && (|r| == |s| ==> r == s && (s != [] ==> !drop(s[|s| - 1])))
  {
    if s != [] && drop(s[|s| - 1]) then Rstrip(drop, s[..|s| - 1]) else s
  }

  /** What is taken off the end is characters to drop, and all of them. */
  lemma {:induction false} RstripIs(drop: char -> bool, s: string)
    ensures var n := |Rstrip(drop, s)|;
            && s[..n] == Rstrip(drop, s) && (forall i :: n <= i < |s| ==> drop(s[i]))
            && (n > 0 ==> !drop(s[n - 1]))
  {
    if s != [] && drop(s[|s| - 1]) {
      RstripIs(drop, s[..|s| - 1]);
    }
  }

  /** `normalize_branch_ref`; `space` is what Python's `str.strip` takes off. */
  function NormalizeBranchRef(space: char -> bool, name: string): string {
    Rstrip(c => c == '/', Unprefixed(Rstrip(space, Lstrip(space, name))))
  }

  function Unprefixed(name: string): string {
    Drop(Drop(Drop(Drop(name, "refs/remotes/"), "refs/heads/"), "refs/tags/"), "origin/")
  }

  /** How a shell user may type a branch name. */
  datatype Spelling = Origin | Head | Tag | Remote | RemoteOrigin | HeadOrigin

  function Spelled(spelling: Spelling, name: string): string {
    match spelling
    case Origin => "origin/" + name
    case Head => "refs/heads/" + name
    case Tag => "refs/tags/" + name
    case Remote => "refs/remotes/" + name
    case RemoteOrigin => "refs/remotes/" + ("origin/" + name)
    case HeadOrigin => "refs/heads/" + ("origin/" + name)
  }

  /** The spellings of one branch: a name that is already in the reported form comes back from
      each of its spellings. */
  lemma SpellingsAgree(space: char -> bool, name: string, spelling: Spelling)
    requires name != "" && NormalizeBranchRef(space, name) == name
    requires !space('r') && !space('o')
    ensures NormalizeBranchRef(space, Spelled(spelling, name)) == name
  {
    Reported(space, name);
    SpelledEnds(spelling, name);
    NothingToStrip(space, Spelled(spelling, name));
    SpelledDrops(spelling, name);
    assert Rstrip(c => c == '/', name) == name;
  }

  lemma SpelledEnds(spelling: Spelling, name: string)
    requires name != ""
    ensures var full := Spelled(spelling, name);
            full != "" && (full[0] == 'r' || full[0] == 'o') && full[|full| - 1] == name[|name| - 1]
  {
  }

  lemma NothingToStrip(space: char -> bool, full: string)
    requires full != "" && !space(full[0]) && !space(full[|full| - 1])
    ensures Rstrip(space, Lstrip(space, full)) == full
  {
  }

  /** A name in the reported form has nothing to strip. */
  lemma Reported(space: char -> bool, name: string)
    requires name != "" && NormalizeBranchRef(space, name) == name
    ensures !space(name[0]) && !space(name[|name| - 1]) && name[|name| - 1] != '/'
    ensures NoRefs(name) && !StartsWith(name, "origin/")
  {
  }

  lemma Differs(prefix: string, rest: string, other: string, k: nat)
    requires k < |prefix| && k < |other| && prefix[k] != other[k]
    ensures !StartsWith(prefix + rest, other)
  {
    var full := prefix + rest;
    var start := if |other| <= |full| then full[..|other|] else full;
    assert start[k] == prefix[k];
  }

  lemma OriginDrops(name: string)
    ensures Unprefixed("origin/" + name) == name
  {
    Differs("origin/", name, "refs/remotes/", 0);
    Differs("origin/", name, "refs/heads/", 0);
    Differs("origin/", name, "refs/tags/", 0);
  }

  predicate NoRefs(name: string) {
    !StartsWith(name, "refs/remotes/") && !StartsWith(name, "refs/heads/") && !StartsWith(name, "refs/tags/")
  }

  lemma OriginIsNoRef(name: string)
    ensures NoRefs("origin/" + name)
  {
    Differs("origin/", name, "refs/remotes/", 0);
    Differs("origin/", name, "refs/heads/", 0);
    Differs("origin/", name, "refs/tags/", 0);
  }

  lemma RemotesDrop(rest: string)
    requires NoRefs(rest)
    ensures Unprefixed("refs/remotes/" + rest) == Unprefixed(rest)
  {
  }

  lemma HeadsDrop(rest: string)
    requires NoRefs(rest)
    ensures Unprefixed("refs/heads/" + rest) == Unprefixed(rest)
  {
    Differs("refs/heads/", rest, "refs/remotes/", 5);
  }

  lemma TagsDrop(rest: string)
    requires NoRefs(rest)
    ensures Unprefixed("refs/tags/" + rest) == Unprefixed(rest)
  {
    Differs("refs/tags/", rest, "refs/remotes/", 5);
    Differs("refs/tags/", rest, "refs/heads/", 5);
  }

  lemma SpelledDrops(spelling: Spelling, name: string)
    requires NoRefs(name) && !StartsWith(name, "origin/")
    ensures Unprefixed(Spelled(spelling, name)) == name
  {
    OriginDrops(name);
    OriginIsNoRef(name);
    match spelling
    case Origin =>
    case Head => HeadsDrop(name);
    case Tag => TagsDrop(name);
    case Remote => RemotesDrop(name);
    case RemoteOrigin => RemotesDrop("origin/" + name);
    case HeadOrigin => HeadsDrop("origin/" + name);
  }

  const PROTECTED_BRANCH_PREFIXES := ["main", "develop", "module/", "release/", "release-please--branches--", "bot/"]

  predicate IsProtectedBranch(space: char -> bool, name: string) {
    var branch := NormalizeBranchRef(space, name);
    exists i :: 0 <= i < |PROTECTED_BRANCH_PREFIXES| && StartsWith(branch, PROTECTED_BRANCH_PREFIXES[i])
  }

  /** Which remote branches are protected: any whose name starts with one of the prefixes, whether or
      not the prefix is a whole part of the name. */
  lemma ProtectedIff(space: char -> bool, name: string)
    requires name != "" && NormalizeBranchRef(space, name) == name && !space('r') && !space('o')
    ensures IsProtectedBranch(space, "origin/" + name) <==>
      || StartsWith(name, "main") || StartsWith(name, "develop")
      || StartsWith(name, "module/") || StartsWith(name, "release/")
      || StartsWith(name, "release-please--branches--") || StartsWith(name, "bot/")
  {
    SpellingsAgree(space, name, Origin);
    PrefixesAre(name);
  }

  lemma PrefixesAre(name: string)
    ensures (exists i :: 0 <= i < |PROTECTED_BRANCH_PREFIXES| && StartsWith(name, PROTECTED_BRANCH_PREFIXES[i])) <==>
      || StartsWith(name, "main") || StartsWith(name, "develop")
      || StartsWith(name, "module/") || StartsWith(name, "release/")
      || StartsWith(name, "release-please--branches--") || StartsWith(name, "bot/")
  {
    var p := PROTECTED_BRANCH_PREFIXES;
    assert |p| == 6 && p[0] == "main" && p[1] == "develop" && p[2] == "module/" && p[3] == "release/";
    assert p[4] == "release-please--branches--" && p[5] == "bot/";
  }

  const MAINTENANCE := "maintenance"

  lemma MaintenanceIsReported(space: char -> bool)
    requires !space('m') && !space('e')
    ensures NormalizeBranchRef(space, MAINTENANCE) == MAINTENANCE
  {
    var name := MAINTENANCE;
    assert |name| == 11 && name[0] == 'm' && name[10] == 'e';
    NothingToStrip(space, name);
    assert Unprefixed(name) == name;
    assert Rstrip(c => c == '/', name) == name;
  }

  lemma MaintenanceStartsWithMain()
    ensures StartsWith(MAINTENANCE, "main")
  {
    assert MAINTENANCE[..4] == "main";
  }

  /** A branch that is no integration branch, and is protected all the same. */
  lemma MaintenanceIsProtected(space: char -> bool)
    requires !space('m') && !space('e') && !space('r') && !space('o')
    ensures IsProtectedBranch(space, "origin/" + MAINTENANCE)
  {
    MaintenanceIsReported(space);
    MaintenanceStartsWithMain();
    ProtectedIff(space, MAINTENANCE);
  }

  // ----- the commit graph -----

  /** What git knows: each commit's ancestors, itself included, its patch-id if it has a patch of
      its own, the tip of the base branch, and the remote branches in listing order. */
  datatype Ref = Ref(name: string, tip: string)
  datatype Repo = Repo(ancestors: string -> set<string>, patchId: string -> Option<string>, base: string,
                       refs: seq<Ref>)

  ghost predicate IsGraph(repo: Repo) {
    forall c, d :: d in repo.ancestors(c) ==> repo.ancestors(d) <= repo.ancestors(c)
  }

  /** The commits of `git log <tip> ^base`. */
  function UnmergedCommits(repo: Repo, tip: string): set<string> {
    repo.ancestors(tip) - repo.ancestors(repo.base)
  }

  function UnmergedPatchIds(repo: Repo, tip: string): set<string> {
    set c | c in UnmergedCommits(repo, tip) && repo.patchId(c).Some? :: repo.patchId(c).value
  }

  /** Work that a branch has and the base has not: a patch of a commit that the tip reaches and the base
      does not. */
  ghost predicate Carries(repo: Repo, tip: string, patch: string) {
    exists c :: c in repo.ancestors(tip) && c !in repo.ancestors(repo.base) && repo.patchId(c) == Some(patch)
  }

  lemma PatchIdsAreCarried(repo: Repo, tip: string, patch: string)
    ensures patch in UnmergedPatchIds(repo, tip) <==> Carries(repo, tip, patch)
  {
  }

  function Overlap(repo: Repo, a: string, b: string): nat {
    |UnmergedPatchIds(repo, a) * UnmergedPatchIds(repo, b)|
  }

  lemma {:induction false} ImageIsNoLarger(f: string -> Option<string>, s: set<string>)
    ensures |set c | c in s && f(c).Some? :: f(c).value| <= |s|
    decreases |s|
  {
    if s != {} {
      var x :| x in s;
      var rest := s - {x};
      ImageIsNoLarger(f, rest);
      var whole := set c | c in s && f(c).Some? :: f(c).value;
      var smaller := set c | c in rest && f(c).Some? :: f(c).value;
      if f(x).Some? {
        assert whole == smaller + {f(x).value};
      } else {
        assert whole == smaller;
      }
    }
  }

  /** Distinct unmerged patches never outnumber unmerged commits, so neither does an overlap. */
  lemma OverlapIsAtMostAhead(repo: Repo, candidate: string, tip: string)
    ensures Overlap(repo, candidate, tip) <= |UnmergedPatchIds(repo, tip)| <= |UnmergedCommits(repo, tip)|
  {
    ImageIsNoLarger(repo.patchId, UnmergedCommits(repo, tip));
    SubsetIsNoLarger(UnmergedPatchIds(repo, candidate) * UnmergedPatchIds(repo, tip), UnmergedPatchIds(repo, tip));
  }

  /** Three different patches that both branches carry. */
  ghost predicate ShareThree(repo: Repo, a: string, b: string) {
    exists p, q, r :: p != q && q != r && p != r
      && Carries(repo, a, p) && Carries(repo, b, p) && Carries(repo, a, q) && Carries(repo, b, q)
      && Carries(repo, a, r) && Carries(repo, b, r)
  }

  lemma ShareThreeIff(repo: Repo, a: string, b: string)
    ensures Overlap(repo, a, b) >= MIN_UNMERGED_PATCH_OVERLAP <==> ShareThree(repo, a, b)
  {
    var both := UnmergedPatchIds(repo, a) * UnmergedPatchIds(repo, b);
    forall p ensures p in both <==> Carries(repo, a, p) && Carries(repo, b, p) {
      PatchIdsAreCarried(repo, a, p);
      PatchIdsAreCarried(repo, b, p);
    }
    if |both| >= 3 {
      var p, q, r := ThreeOf(both);
      assert p in both && q in both && r in both;
    }
    if p, q, r :| p != q && q != r && p != r && p in both && q in both && r in both {
      SubsetIsNoLarger({p, q, r}, both);
    }
  }

  lemma ThreeOf(s: set<string>) returns (p: string, q: string, r: string)
    requires |s| >= 3
    ensures p in s && q in s && r in s && p != q && q != r && p != r
  {
    p :| p in s;
    var rest := s - {p};
    assert |rest| == |s| - 1;
    q :| q in rest;
    assert |rest - {q}| == |rest| - 1;
    r :| r in rest - {q};
  }

  predicate Reachable(repo: Repo, tip: string) {
    tip in repo.ancestors(repo.base)
  }

  lemma ReachableHoldsNothing(repo: Repo, candidate: string, tip: string)
    requires IsGraph(repo) && Reachable(repo, tip)
    ensures Overlap(repo, candidate, tip) == 0
  {
    assert UnmergedCommits(repo, tip) == {};
    assert UnmergedPatchIds(repo, tip) == {};
  }

  // ----- the verdict, without pruning -----

  datatype Sibling = Sibling(branch: string, tip: string, overlap: nat)

  /** A push: its tip, the restart reasons of the environment and the tip message (empty for
      none), the branch names that are excluded, and whether the remote already has the ref. */
  datatype Push = Push(tip: string, envReason: string, tipReason: string, branchName: string, resumeFrom: string,
                       isUpdate: bool)

  function Excluded(space: char -> bool, push: Push): set<string> {
    (if push.branchName != "" then {NormalizeBranchRef(space, push.branchName)} else {})
    + (if push.resumeFrom != "" then {NormalizeBranchRef(space, push.resumeFrom)} else {})
  }

  predicate Escapes(repo: Repo, push: Push) {
    push.isUpdate || push.envReason != "" || push.tipReason != "" || Reachable(repo, push.tip)
  }

  predicate IsBranch(space: char -> bool, ref: Ref) {
    ref.name != "origin" && ref.name != "origin/HEAD" && !IsProtectedBranch(space, ref.name)
  }

  /** A branch that holds at least three of the push's unmerged patches. */
  predicate HoldsSameWork(space: char -> bool, repo: Repo, push: Push, ref: Ref) {
    && IsBranch(space, ref)
    && ref.tip != push.tip && NormalizeBranchRef(space, ref.name) !in Excluded(space, push)
    && Overlap(repo, push.tip, ref.tip) >= MIN_UNMERGED_PATCH_OVERLAP
  }

  function SiblingsIn(space: char -> bool, repo: Repo, push: Push, refs: seq<Ref>): seq<Sibling> {
    if refs == [] then []
    else
      var ref := refs[|refs| - 1];
      SiblingsIn(space, repo, push, refs[..|refs| - 1])
      + (if HoldsSameWork(space, repo, push, ref)
         then [Sibling(ref.name, ref.tip, Overlap(repo, push.tip, ref.tip))] else [])
  }

  ghost predicate Refused(space: char -> bool, repo: Repo, push: Push) {
    !Escapes(repo, push) && exists ref :: ref in repo.refs && HoldsSameWork(space, repo, push, ref)
  }

  /** When a push is refused, in terms of the graph and the environment. */
  lemma RefusedIff(space: char -> bool, repo: Repo, push: Push)
    ensures Refused(space, repo, push) <==>
      && !push.isUpdate && push.envReason == "" && push.tipReason == ""
      && push.tip !in repo.ancestors(repo.base)
      && exists ref :: ref in repo.refs && IsOtherBranch(space, push, ref) && ShareThree(repo, push.tip, ref.tip)
  {
    forall ref
      ensures HoldsSameWork(space, repo, push, ref)
        <==> IsOtherBranch(space, push, ref) && ShareThree(repo, push.tip, ref.tip)
    {
      ShareThreeIff(repo, push.tip, ref.tip);
    }
  }

  /** A branch that is not protected, and is neither the one pushed nor the one resumed. */
  predicate IsOtherBranch(space: char -> bool, push: Push, ref: Ref) {
    && ref.name != "origin" && ref.name != "origin/HEAD" && !IsProtectedBranch(space, ref.name)
    && ref.tip != push.tip
    && (push.branchName != "" ==> NormalizeBranchRef(space, ref.name) != NormalizeBranchRef(space, push.branchName))
    && (push.resumeFrom != "" ==> NormalizeBranchRef(space, ref.name) != NormalizeBranchRef(space, push.resumeFrom))
  }

  /** The siblings are the branches that hold the same work, with their shared patches counted, in listing
      order. */
  lemma {:induction false} SiblingsAre(space: char -> bool, repo: Repo, push: Push, a: seq<Ref>, b: seq<Ref>)
    ensures SiblingsIn(space, repo, push, a + b) == SiblingsIn(space, repo, push, a) + SiblingsIn(space, repo, push, b)
    ensures forall s :: s in SiblingsIn(space, repo, push, b) <==>
      exists ref :: ref in b && HoldsSameWork(space, repo, push, ref)
        && s == Sibling(ref.name, ref.tip, |UnmergedPatchIds(repo, push.tip) * UnmergedPatchIds(repo, ref.tip)|)
  {
    if b == [] {
      assert a + b == a;
    } else {
      var n := |b| - 1;
      assert (a + b)[..|a + b| - 1] == a + b[..n] && (a + b)[|a + b| - 1] == b[n];
      SiblingsAre(space, repo, push, a, b[..n]);
      assert b == b[..n] + [b[n]];
    }
  }

  lemma {:induction false} SiblingsAreTheHolders(space: char -> bool, repo: Repo, push: Push, refs: seq<Ref>)
    ensures SiblingsIn(space, repo, push, refs) != [] <==>
      exists ref :: ref in refs && HoldsSameWork(space, repo, push, ref)
  {
    if refs != [] {
      var shorter, last := refs[..|refs| - 1], refs[|refs| - 1];
      SiblingsAreTheHolders(space, repo, push, shorter);
      assert refs == shorter + [last];
    }
  }

  /** Naming a branch to resume never turns an allowed push into a refused one. */
  lemma ResumingNeverRefuses(space: char -> bool, repo: Repo, push: Push, resumeFrom: string)
    requires push.resumeFrom == "" && Refused(space, repo, push.(resumeFrom := resumeFrom))
    ensures Refused(space, repo, push)
  {
    var ref :| ref in repo.refs && HoldsSameWork(space, repo, push.(resumeFrom := resumeFrom), ref);
    assert HoldsSameWork(space, repo, push, ref);
  }

  /** A push that repeats only the work of protected branches is allowed: among them is a branch like
      `maintenance`, however many patches it shares. */
  lemma ProtectedWorkMayBeRepeated(space: char -> bool, repo: Repo, push: Push)
    requires forall ref :: ref in repo.refs ==>
      IsProtectedBranch(space, ref.name) || Overlap(repo, push.tip, ref.tip) < MIN_UNMERGED_PATCH_OVERLAP
    ensures !Refused(space, repo, push)
  {
  }

  lemma MaintenanceMayBeRepeated(space: char -> bool, repo: Repo, push: Push)
    requires !space('m') && !space('e') && !space('r') && !space('o')
    requires forall ref :: ref in repo.refs ==> ref.name == "origin/" + MAINTENANCE
    ensures !Refused(space, repo, push)
  {
    MaintenanceIsProtected(space);
    ProtectedWorkMayBeRepeated(space, repo, push);
  }

  // ----- the order of the report -----

  /** The sort key: larger overlap first, then the branch name. */
  predicate Before(a: Sibling, b: Sibling) {
    a.overlap > b.overlap || (a.overlap == b.overlap && Less(a.branch, b.branch))
  }

  function Insert(s: Sibling, sorted: seq<Sibling>): seq<Sibling> {
    if sorted == [] || Before(s, sorted[0]) then [s] + sorted else [sorted[0]] + Insert(s, sorted[1..])
  }

  function Sorted(siblings: seq<Sibling>): seq<Sibling> {
    if siblings == [] then [] else Insert(siblings[|siblings| - 1], Sorted(siblings[..|siblings| - 1]))
  }

  ghost predicate InOrder(s: seq<Sibling>) {
    forall i :: 0 <= i < |s| - 1 ==> !Before(s[i + 1], s[i])
  }

  lemma {:induction false} InsertKeepsOrder(s: Sibling, sorted: seq<Sibling>)
    requires InOrder(sorted)
    ensures InOrder(Insert(s, sorted)) && multiset(Insert(s, sorted)) == multiset(sorted) + multiset{s}
    ensures Insert(s, sorted)[0] == s || (sorted != [] && Insert(s, sorted)[0] == sorted[0])
  {
    if sorted != [] && !Before(s, sorted[0]) {
      var rest := sorted[1..];
      assert forall i :: 0 <= i < |rest| ==> rest[i] == sorted[i + 1];
      InsertKeepsOrder(s, rest);
      assert sorted == [sorted[0]] + rest;
    } else if sorted != [] {
      BeforeAsymmetric(s, sorted[0]);
    }
  }

  lemma BeforeAsymmetric(a: Sibling, b: Sibling)
    requires Before(a, b)
    ensures !Before(b, a)
  {
    if Less(a.branch, b.branch) && Less(b.branch, a.branch) {
      LessTransitive(a.branch, b.branch, a.branch);
    }
    LessIrreflexive(a.branch);
  }

  /** The report lists every sibling once, the largest overlap first, and by name among equals. */
  lemma SortedReport(siblings: seq<Sibling>)
    ensures multiset(Sorted(siblings)) == multiset(siblings)
    ensures var s := Sorted(siblings); forall i, j :: 0 <= i < j < |s| ==>
      s[i].overlap > s[j].overlap || (s[i].overlap == s[j].overlap && !Less(s[j].branch, s[i].branch))
  {
    SortedIsOrdered(siblings);
    var s := Sorted(siblings);
    forall i, j | 0 <= i < j < |s| ensures !Before(s[j], s[i]) {
      NeverBefore(s, i, j);
    }
  }

  lemma {:induction false} NeverBefore(s: seq<Sibling>, i: nat, j: nat)
    requires InOrder(s) && i < j < |s|
    ensures !Before(s[j], s[i])
  {
    if i + 1 < j {
      NeverBefore(s, i, j - 1);
      if Before(s[j], s[i]) && !Before(s[j], s[j - 1]) {
        LessTotal(s[j].branch, s[j - 1].branch);
        BeforeTransitive(s[j - 1], s[j], s[i]);
      }
    }
  }

  /** If `b` is not before `a`, and is before `c`, then `a` is before `c`. */
  lemma BeforeTransitive(a: Sibling, b: Sibling, c: Sibling)
    requires !Before(b, a) && Before(b, c)
    ensures Before(a, c)
  {
    LessTotal(a.branch, b.branch);
    if Less(a.branch, b.branch) && Less(b.branch, c.branch) {
      LessTransitive(a.branch, b.branch, c.branch);
    }
  }

  lemma {:induction false} SortedIsOrdered(siblings: seq<Sibling>)
    ensures InOrder(Sorted(siblings)) && multiset(Sorted(siblings)) == multiset(siblings)
  {
    if siblings != [] {
      var shorter, last := siblings[..|siblings| - 1], siblings[|siblings| - 1];
      SortedIsOrdered(shorter);
      InsertKeepsOrder(last, Sorted(shorter));
      assert siblings == shorter + [last];
    }
  }

  // ----- the guard, with its pruning and its failing queries -----

  datatype Query = RevParse | TipMessage | Listing | IsReachable(tip: string) | PatchIds(ref: string)

  datatype Decision = Decision(allowed: bool, siblings: seq<Sibling>)

  /** The branches worth asking about: not merged, and at least three commits ahead. */
  predicate Prunes(space: char -> bool, repo: Repo, ref: Ref) {
    || !IsBranch(space, ref)
    || |UnmergedCommits(repo, ref.tip)| < MIN_UNMERGED_PATCH_OVERLAP
    || Reachable(repo, ref.tip)
  }

  function Unpruned(space: char -> bool, repo: Repo, refs: seq<Ref>): seq<Ref> {
    if refs == [] then []
    else
      var ref := refs[|refs| - 1];
      Unpruned(space, repo, refs[..|refs| - 1]) + (if Prunes(space, repo, ref) then [] else [ref])
  }

  /** A branch is worth asking about iff it is not protected, is at least three commits ahead and is not
      merged. */
  lemma PrunesIff(space: char -> bool, repo: Repo, ref: Ref)
    ensures !Prunes(space, repo, ref) <==>
      && ref.name != "origin" && ref.name != "origin/HEAD" && !IsProtectedBranch(space, ref.name)
      && |repo.ancestors(ref.tip) - repo.ancestors(repo.base)| >= 3 && ref.tip !in repo.ancestors(repo.base)
  {
  }

  /** Those branches are left, in listing order. */
  lemma {:induction false} UnprunedAre(space: char -> bool, repo: Repo, a: seq<Ref>, b: seq<Ref>)
    ensures Unpruned(space, repo, a + b) == Unpruned(space, repo, a) + Unpruned(space, repo, b)
  {
    if b == [] {
      assert a + b == a;
    } else {
      var n := |b| - 1;
      assert (a + b)[..|a + b| - 1] == a + b[..n] && (a + b)[|a + b| - 1] == b[n];
      UnprunedAre(space, repo, a, b[..n]);
    }
  }

  lemma {:induction false} UnprunedHas(space: char -> bool, repo: Repo, refs: seq<Ref>, ref: Ref)
    ensures ref in Unpruned(space, repo, refs) <==> ref in refs && !Prunes(space, repo, ref)
  {
    if refs != [] {
      var n := |refs| - 1;
      UnprunedHas(space, repo, refs[..n], ref);
      assert refs == refs[..n] + [refs[n]];
    }
  }

  predicate IsAskedAbout(space: char -> bool, repo: Repo, ref: Ref) {
    && ref in repo.refs && IsBranch(space, ref)
    && |UnmergedCommits(repo, ref.tip)| >= MIN_UNMERGED_PATCH_OVERLAP
  }

  ghost predicate ListingFails(space: char -> bool, repo: Repo, broken: Query -> bool) {
    broken(Listing) || exists ref :: IsAskedAbout(space, repo, ref) && broken(IsReachable(ref.tip))
  }

  /** The query about one of the first `k` branches fails. */
  ghost predicate AskingFails(space: char -> bool, repo: Repo, k: nat, broken: Query -> bool)
    requires k <= |repo.refs|
  {
    exists i :: 0 <= i < k && IsAskedAbout(space, repo, repo.refs[i]) && broken(IsReachable(repo.refs[i].tip))
  }

  lemma AskingOneMore(space: char -> bool, repo: Repo, k: nat, broken: Query -> bool)
    requires k < |repo.refs|
    ensures AskingFails(space, repo, k + 1, broken) <==>
      || AskingFails(space, repo, k, broken)
      || (IsAskedAbout(space, repo, repo.refs[k]) && broken(IsReachable(repo.refs[k].tip)))
    ensures AskingFails(space, repo, k + 1, broken) ==> ListingFails(space, repo, broken)
  {
  }

  method UnmergedRemoteBranches(space: char -> bool, repo: Repo, broken: Query -> bool) returns (r: Option<seq<Ref>>)
    ensures r.Some? ==> r.value == Unpruned(space, repo, repo.refs)
    // It fails iff the listing does, or the query about a branch that is far enough ahead.
    ensures r.None? <==> ListingFails(space, repo, broken)
  {
    if broken(Listing) {
      return None;
    }
    var branches: seq<Ref> := [];
    for k := 0 to |repo.refs|
      invariant branches == Unpruned(space, repo, repo.refs[..k])
      invariant !AskingFails(space, repo, k, broken)
    {
      AskingOneMore(space, repo, k, broken);
      var ref := repo.refs[k];
      assert repo.refs[..k + 1][..k] == repo.refs[..k];
      if !IsBranch(space, ref) || |UnmergedCommits(repo, ref.tip)| < MIN_UNMERGED_PATCH_OVERLAP {
        continue;
      }
      if broken(IsReachable(ref.tip)) {
        return None;
      }
      if Reachable(repo, ref.tip) {
        continue;
      }
      branches := branches + [ref];
    }
    assert repo.refs[..|repo.refs|] == repo.refs;
    return Some(branches);
  }

  /** Pruning changes nothing: the pruned listing has the same siblings in the same order. */
  lemma {:induction false} PruningChangesNothing(space: char -> bool, repo: Repo, push: Push, refs: seq<Ref>)
    requires IsGraph(repo)
    ensures SiblingsIn(space, repo, push, Unpruned(space, repo, refs)) == SiblingsIn(space, repo, push, refs)
  {
    if refs != [] {
      var shorter, last := refs[..|refs| - 1], refs[|refs| - 1];
      PruningChangesNothing(space, repo, push, shorter);
      var kept := Unpruned(space, repo, shorter);
      if Prunes(space, repo, last) {
        OverlapIsAtMostAhead(repo, push.tip, last.tip);
        if Reachable(repo, last.tip) {
          ReachableHoldsNothing(repo, push.tip, last.tip);
        }
        assert Unpruned(space, repo, refs) == kept;
      } else {
        assert (kept + [last])[..|kept|] == kept;
      }
    }
  }

  predicate IsCompared(space: char -> bool, push: Push, ref: Ref) {
    ref.tip != push.tip && NormalizeBranchRef(space, ref.name) !in Excluded(space, push)
  }

  ghost predicate ComparingFails(space: char -> bool, push: Push, branches: seq<Ref>, broken: Query -> bool) {
    exists ref :: ref in branches && IsCompared(space, push, ref) && broken(PatchIds(ref.name))
  }

  lemma ComparingOneMore(space: char -> bool, push: Push, branches: seq<Ref>, k: nat, broken: Query -> bool)
    requires k < |branches|
    ensures ComparingFails(space, push, branches[..k + 1], broken) <==>
      || ComparingFails(space, push, branches[..k], broken)
      || (IsCompared(space, push, branches[k]) && broken(PatchIds(branches[k].name)))
    ensures ComparingFails(space, push, branches[..k + 1], broken) ==> ComparingFails(space, push, branches, broken)
  {
    assert branches[..k + 1] == branches[..k] + [branches[k]];
  }

  /** The sibling loop of `check`. */
  method FindSiblings(space: char -> bool, repo: Repo, push: Push, branches: seq<Ref>, broken: Query -> bool)
    returns (r: Option<seq<Sibling>>)
    requires forall ref :: ref in branches ==> IsBranch(space, ref)
    ensures r.Some? ==> r.value == SiblingsIn(space, repo, push, branches)
    ensures r.None? <==> ComparingFails(space, push, branches, broken)
  {
    var candidateIds := UnmergedPatchIds(repo, push.tip);
    var excluded := Excluded(space, push);
    var siblings: seq<Sibling> := [];
    for k := 0 to |branches|
      invariant siblings == SiblingsIn(space, repo, push, branches[..k])
      invariant !ComparingFails(space, push, branches[..k], broken)
    {
      ComparingOneMore(space, push, branches, k, broken);
      var ref := branches[k];
      assert ref in branches;
      assert branches[..k + 1][..k] == branches[..k];
      if ref.tip == push.tip || NormalizeBranchRef(space, ref.name) in excluded {
        continue;
      }
      if broken(PatchIds(ref.name)) {
        return None;
      }
      var overlap := |candidateIds * UnmergedPatchIds(repo, ref.tip)|;
      if overlap >= MIN_UNMERGED_PATCH_OVERLAP {
        siblings := siblings + [Sibling(ref.name, ref.tip, overlap)];
      }
    }
    assert branches[..|branches|] == branches;
    return Some(siblings);
  }

  lemma {:induction false} UnprunedAreBranches(space: char -> bool, repo: Repo, refs: seq<Ref>)
    ensures forall ref :: ref in Unpruned(space, repo, refs) ==> IsBranch(space, ref)
  {
    if refs != [] {
      UnprunedAreBranches(space, repo, refs[..|refs| - 1]);
    }
  }

  /** The queries a refusal rests on: the tip's own, the listing, whether each branch far enough ahead is
      merged, and the patches of each one left that is not excluded. */
  ghost predicate IsAsked(space: char -> bool, repo: Repo, push: Push, q: Query) {
    match q
    case RevParse => true
    case TipMessage => true
    case Listing => true
    case IsReachable(tip) => tip == push.tip || exists ref :: IsAskedAbout(space, repo, ref) && ref.tip == tip
    case PatchIds(name) =>
      name == push.tip ||
      exists ref :: IsAskedAbout(space, repo, ref) && !Reachable(repo, ref.tip) && IsCompared(space, push, ref)
        && ref.name == name
  }

  lemma UnprunedIff(space: char -> bool, repo: Repo)
    ensures forall ref :: ref in Unpruned(space, repo, repo.refs) <==>
      IsAskedAbout(space, repo, ref) && !Reachable(repo, ref.tip)
  {
    forall ref ensures ref in Unpruned(space, repo, repo.refs) <==> ref in repo.refs && !Prunes(space, repo, ref) {
      UnprunedHas(space, repo, repo.refs, ref);
    }
  }

  /** One of those queries fails. */
  ghost predicate Undecided(space: char -> bool, repo: Repo, push: Push, broken: Query -> bool) {
    exists q :: IsAsked(space, repo, push, q) && broken(q)
  }

  /** It is about the push itself, or it stops the listing or the comparing. */
  lemma UndecidedIff(space: char -> bool, repo: Repo, push: Push, broken: Query -> bool)
    ensures Undecided(space, repo, push, broken) <==>
      || broken(RevParse) || broken(TipMessage) || broken(IsReachable(push.tip)) || broken(PatchIds(push.tip))
      || ListingFails(space, repo, broken)
      || ComparingFails(space, push, Unpruned(space, repo, repo.refs), broken)
  {
    UnprunedIff(space, repo);
    StopsIsUndecided(space, repo, push, broken);
    if q :| IsAsked(space, repo, push, q) && broken(q) {
      match q
      case PatchIds(name) =>
        if name != push.tip {
          var ref :| IsAskedAbout(space, repo, ref) && !Reachable(repo, ref.tip) && IsCompared(space, push, ref)
            && ref.name == name;
          assert ref in Unpruned(space, repo, repo.refs);
        }
      case _ =>
    }
  }

  lemma StopsIsUndecided(space: char -> bool, repo: Repo, push: Push, broken: Query -> bool)
    ensures broken(RevParse) || broken(TipMessage) || broken(IsReachable(push.tip)) || broken(PatchIds(push.tip))
      ==> Undecided(space, repo, push, broken)
    ensures ListingFails(space, repo, broken) ==> Undecided(space, repo, push, broken)
    ensures ComparingFails(space, push, Unpruned(space, repo, repo.refs), broken) ==>
      Undecided(space, repo, push, broken)
  {
    UnprunedIff(space, repo);
    forall q | IsAsked(space, repo, push, q) && broken(q)
      ensures Undecided(space, repo, push, broken)
    {
    }
    assert IsAsked(space, repo, push, RevParse) && IsAsked(space, repo, push, TipMessage);
    assert IsAsked(space, repo, push, Listing);
    assert IsAsked(space, repo, push, IsReachable(push.tip)) && IsAsked(space, repo, push, PatchIds(push.tip));
    assert forall ref :: IsAskedAbout(space, repo, ref) ==> IsAsked(space, repo, push, IsReachable(ref.tip));
    if ComparingFails(space, push, Unpruned(space, repo, repo.refs), broken) {
      var ref :| ref in Unpruned(space, repo, repo.refs) && IsCompared(space, push, ref) && broken(PatchIds(ref.name));
      assert IsAsked(space, repo, push, PatchIds(ref.name));
    }
  }

  /** `check`: a refusal is always backed by the graph, and a failing query allows the push iff it is one
      that the refusal rests on. */
  method Check(space: char -> bool, repo: Repo, push: Push, broken: Query -> bool) returns (d: Decision)
    requires IsGraph(repo)
    ensures !d.allowed ==> Refused(space, repo, push) && d.siblings == Sorted(SiblingsIn(space, repo, push, repo.refs))
    ensures d.allowed ==> d.siblings == []
    ensures d.allowed <==> !Refused(space, repo, push) || Undecided(space, repo, push, broken)
  {
    var allow := Decision(true, []);
    UndecidedIff(space, repo, push, broken);
    if push.isUpdate {
      return allow;
    }
    if broken(RevParse) || push.envReason != "" {
      return allow;
    }
    if broken(TipMessage) || push.tipReason != "" {
      return allow;
    }
    if broken(IsReachable(push.tip)) || Reachable(repo, push.tip) {
      return allow;
    }
    if broken(PatchIds(push.tip)) {
      return allow;
    }
    SiblingsAreTheHolders(space, repo, push, repo.refs);
    PruningChangesNothing(space, repo, push, repo.refs);
    if UnmergedPatchIds(repo, push.tip) == {} {
      NothingToShare(space, repo, push, repo.refs);
      return allow;
    }
    var branches := UnmergedRemoteBranches(space, repo, broken);
    if branches.None? {
      return allow;
    }
    UnprunedAreBranches(space, repo, repo.refs);
    var siblings := FindSiblings(space, repo, push, branches.value, broken);
    if siblings.None? || siblings.value == [] {
      return allow;
    }
    return Decision(false, Sorted(siblings.value));
  }

  lemma NothingToShare(space: char -> bool, repo: Repo, push: Push, refs: seq<Ref>)
    requires UnmergedPatchIds(repo, push.tip) == {}
    ensures forall ref :: ref in refs ==> !HoldsSameWork(space, repo, push, ref)
  {
    forall ref | ref in refs
      ensures Overlap(repo, push.tip, ref.tip) == 0
    {
      assert UnmergedPatchIds(repo, push.tip) * UnmergedPatchIds(repo, ref.tip) == {};
    }
  }
}
