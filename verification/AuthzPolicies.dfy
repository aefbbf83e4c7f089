/** Policy translation: scripts/gen_d1_authz_policies.py.

    Row policies written as SQL expressions are split at their top-level OR, classified into a
    few predicate classes, and folded to one class per table. */
module AuthzPolicies {
  import opened Collections

  // ----- parentheses -----

  /** Opening minus closing parentheses in the first `k` characters. */
  function Depth(s: string, k: nat): int
    requires k <= |s|
  {
    if k == 0 then 0
    else Depth(s, k - 1) + (if s[k - 1] == '(' then 1 else if s[k - 1] == ')' then -1 else 0)
  }

  /** The depth counts the parentheses. */
  lemma {:induction false} DepthCounts(s: string, k: nat)
    requires k <= |s|
    ensures Depth(s, k) + multiset(s[..k])[')'] == multiset(s[..k])['(']
  {
    if k > 0 {
      DepthCounts(s, k - 1);
      assert s[..k] == s[..k - 1] + [s[k - 1]];
    }
  }

  ghost predicate Balanced(s: string) {
    Depth(s, |s|) == 0 && forall k :: 0 <= k <= |s| ==> Depth(s, k) >= 0
  }

  lemma {:induction false} DepthOfSlice(s: string, from: nat, to: nat, k: nat)
    requires from <= to <= |s| && k <= to - from
    ensures Depth(s[from..to], k) == Depth(s, from + k) - Depth(s, from)
    decreases k
  {
    if k > 0 {
      DepthOfSlice(s, from, to, k - 1);
      assert s[from..to][k - 1] == s[from + k - 1];
    }
  }

  /** The scan of lines 194-202 for the end of a USING clause that opens just before `start`. */
  method ScanUsing(sql: string, start: nat) returns (using: string)
    requires start <= |sql|
    // A balanced body and its closing parenthesis: exactly the body is read.
    ensures forall e :: start <= e < |sql| && sql[e] == ')' && Balanced(sql[start..e]) ==> using == sql[start..e]
  {
    var depth, i := 1, start;
    while i < |sql| && depth != 0
      invariant start <= i <= |sql|
      invariant depth == 1 + Depth(sql, i) - Depth(sql, start)
      invariant depth == 0 ==> i > start && sql[i - 1] == ')'
      invariant forall k :: start <= k < i ==> Depth(sql, k) - Depth(sql, start) >= 0
      invariant depth >= 0
    {
      if sql[i] == '(' {
        depth := depth + 1;
      } else if sql[i] == ')' {
        depth := depth - 1;
      }
      i := i + 1;
    }
    using := if i > start then sql[start..i - 1] else "";
    forall e | start <= e < |sql| && sql[e] == ')' && Balanced(sql[start..e])
      ensures using == sql[start..e]
    {
      DepthOfSlice(sql, start, e, e - start);
      assert Depth(sql, e + 1) == Depth(sql, e) - 1;
      if start < i <= e {
        DepthOfSlice(sql, start, e, i - start);
      }
      assert i == e + 1;
    }
  }

  // ----- the top-level split -----

  /** `body[k:k+4].upper() == " OR "`. */
  predicate OrAt(body: string, k: nat) {
    && k + 4 <= |body|
    && body[k] == ' ' && body[k + 3] == ' '
    && (body[k + 1] == 'O' || body[k + 1] == 'o')
    && (body[k + 2] == 'R' || body[k + 2] == 'r')
  }

  lemma OrAtIs(body: string, k: nat)
    ensures OrAt(body, k) <==> k + 4 <= |body| && body[k..k + 4] in {" OR ", " Or ", " oR ", " or "}
  {
    if k + 4 <= |body| {
      var cut := body[k..k + 4];
      assert cut == [body[k], body[k + 1], body[k + 2], body[k + 3]];
    }
  }

  predicate Separates(body: string, k: nat) {
    OrAt(body, k) && Depth(body, k) == 0
  }

  /** The first separator at or after `i`, or the end. */
  function NextSeparator(body: string, i: nat): (k: nat)
    requires i <= |body|
    ensures i <= k <= |body|
    ensures k < |body| ==> Separates(body, k)
    ensures forall j :: i <= j < k ==> !Separates(body, j)
    decreases |body| - i
  {
    if i == |body| || Separates(body, i) then i else NextSeparator(body, i + 1)
  }

  /** The text between the separators, from `start` on. */
  function RawParts(body: string, start: nat): seq<string>
    requires start <= |body|
    decreases |body| - start
  {
    var k := NextSeparator(body, start);
    if k == |body| then [body[start..k]] else [body[start..k]] + RawParts(body, k + 4)
  }

  /** The separators themselves, in the case they are written in. */
  function Separators(body: string, start: nat): (seps: seq<string>)
    requires start <= |body|
    ensures |seps| + 1 == |RawParts(body, start)|
    decreases |body| - start
  {
    var k := NextSeparator(body, start);
    if k == |body| then [] else [body[k..k + 4]] + Separators(body, k + 4)
  }

  /** What is removed between the parts is an OR, in any case. */
  lemma {:induction false} SeparatorsAreOrs(body: string, start: nat, i: nat)
    requires start <= |body| && i < |Separators(body, start)|
    ensures Separators(body, start)[i] in {" OR ", " Or ", " oR ", " or "}
    decreases |body| - start
  {
    var k := NextSeparator(body, start);
    if i == 0 {
      OrAtIs(body, k);
    } else {
      SeparatorsAreOrs(body, k + 4, i - 1);
    }
  }

  function Interleaved(parts: seq<string>, seps: seq<string>): string
    requires |parts| == |seps| + 1
  {
    if seps == [] then parts[0] else parts[0] + seps[0] + Interleaved(parts[1..], seps[1..])
  }

  lemma InterleavedCons(part: string, sep: string, parts: seq<string>, seps: seq<string>)
    requires |parts| == |seps| + 1
    ensures Interleaved([part] + parts, [sep] + seps) == part + sep + Interleaved(parts, seps)
  {
    assert ([part] + parts)[1..] == parts && ([sep] + seps)[1..] == seps;
  }

  lemma SlicesJoin(s: string, a: nat, b: nat, c: nat)
    requires a <= b <= c <= |s|
    ensures s[a..b] + s[b..c] + s[c..] == s[a..]
  {
  }

  /** The parts joined by the separators are the text. */
  ghost predicate Rebuilds(body: string, start: nat) {
    start <= |body| && Interleaved(RawParts(body, start), Separators(body, start)) == body[start..]
  }

  /** The parts joined by the separators rebuild the text. */
  lemma {:induction false} PartsRebuild(body: string, start: nat)
    requires start <= |body|
    ensures Rebuilds(body, start)
    decreases |body| - start
  {
    var k := NextSeparator(body, start);
    if k == |body| {
      RebuildLast(body, start);
    } else {
      PartsRebuild(body, k + 4);
      RebuildFirst(body, start, k);
    }
  }

  lemma RebuildLast(body: string, start: nat)
    requires start <= |body| && NextSeparator(body, start) == |body|
    ensures Rebuilds(body, start)
  {
    OnlyPart(body, start);
    OneInterleaved(body[start..]);
  }

  lemma RebuildFirst(body: string, start: nat, k: nat)
    requires start <= |body| && k == NextSeparator(body, start) && k < |body| && Rebuilds(body, k + 4)
    ensures Rebuilds(body, start)
  {
    FirstPart(body, start, k);
    InterleavedCons(body[start..k], body[k..k + 4], RawParts(body, k + 4), Separators(body, k + 4));
    SlicesJoin(body, start, k, k + 4);
  }

  lemma OneInterleaved(part: string)
    ensures Interleaved([part], []) == part
  {
  }

  lemma FirstPart(body: string, start: nat, k: nat)
    requires start <= |body| && k == NextSeparator(body, start) && k < |body|
    ensures RawParts(body, start) == [body[start..k]] + RawParts(body, k + 4)
    ensures Separators(body, start) == [body[k..k + 4]] + Separators(body, k + 4)
  {
  }

  lemma OnlyPart(body: string, start: nat)
    requires start <= |body| && NextSeparator(body, start) == |body|
    ensures RawParts(body, start) == [body[start..]] && Separators(body, start) == []
  {
    assert body[start..|body|] == body[start..];
  }

  /** Of a balanced text, every part is balanced and has no separator of its own left. */
  lemma {:induction false} PartsBalanced(body: string, start: nat, p: nat)
    requires Balanced(body) && start <= |body| && Depth(body, start) == 0 && p < |RawParts(body, start)|
    ensures var part := RawParts(body, start)[p];
            Balanced(part) && forall j :: 0 <= j < |part| ==> !Separates(part, j)
    decreases |body| - start
  {
    var k := NextSeparator(body, start);
    if p == 0 {
      SliceBalanced(body, start, k);
    } else {
      SeparatorIsFlat(body, k);
      PartsBalanced(body, k + 4, p - 1);
    }
  }

  lemma SeparatorIsFlat(body: string, k: nat)
    requires OrAt(body, k)
    ensures Depth(body, k + 4) == Depth(body, k)
  {
    assert Depth(body, k + 1) == Depth(body, k);
    assert Depth(body, k + 2) == Depth(body, k + 1);
    assert Depth(body, k + 3) == Depth(body, k + 2);
  }

  lemma SliceBalanced(body: string, start: nat, k: nat)
    requires Balanced(body) && start <= |body| && Depth(body, start) == 0 && k == NextSeparator(body, start)
    ensures Balanced(body[start..k]) && forall j :: 0 <= j < k - start ==> !Separates(body[start..k], j)
  {
    var part := body[start..k];
    assert Depth(body, k) == 0;
    forall j | 0 <= j <= |part|
      ensures Depth(part, j) == Depth(body, start + j)
    {
      DepthOfSlice(body, start, k, j);
    }
    forall j | 0 <= j < |part|
      ensures !Separates(part, j)
    {
      assert !Separates(body, start + j);
    }
  }

  /** The stripped parts that are not blank. */
  function NonBlank(strip: string -> string, parts: seq<string>): seq<string> {
    if parts == [] then []
    else
      var last := strip(parts[|parts| - 1]);
      NonBlank(strip, parts[..|parts| - 1]) + (if last != "" then [last] else [])
  }

  /** Parts are dropped one by one: the order of the others stays. */
  lemma {:induction false} NonBlankConcat(strip: string -> string, a: seq<string>, b: seq<string>)
    ensures NonBlank(strip, a + b) == NonBlank(strip, a) + NonBlank(strip, b)
  {
    if b == [] {
      assert a + b == a;
    } else {
      var n := |b| - 1;
      assert (a + b)[..|a + b| - 1] == a + b[..n] && (a + b)[|a + b| - 1] == b[n];
      NonBlankConcat(strip, a, b[..n]);
    }
  }

  /** What is left is the stripped parts that are not blank. */
  lemma {:induction false} NonBlankIs(strip: string -> string, parts: seq<string>, t: string)
    ensures t in NonBlank(strip, parts) <==> t != "" && exists part :: part in parts && strip(part) == t
  {
    if parts != [] {
      var n := |parts| - 1;
      NonBlankIs(strip, parts[..n], t);
      assert parts == parts[..n] + [parts[n]];
    }
  }

  method DropBlank(strip: string -> string, parts: seq<string>) returns (stripped: seq<string>)
    ensures stripped == NonBlank(strip, parts)
  {
    stripped := [];
    for p := 0 to |parts|
      invariant stripped == NonBlank(strip, parts[..p])
    {
      assert parts[..p + 1][..p] == parts[..p];
      if strip(parts[p]) != "" {
        stripped := stripped + [strip(parts[p])];
      }
    }
    assert parts[..|parts|] == parts;
  }

  /** Before character `i`: `parts` are cut off, and `buf` is the text since the last cut. */
  ghost predicate SplitSoFar(body: string, start: nat, i: nat, parts: seq<string>, buf: string, depth: int) {
    && start <= i <= |body| && buf == body[start..i] && depth == Depth(body, i)
    && (forall j :: start <= j < i ==> !Separates(body, j))
    && parts + RawParts(body, start) == RawParts(body, 0)
  }

  /** Cutting at the first separator after `start` leaves the rest to be cut. */
  lemma Cut(body: string, start: nat, i: nat, parts: seq<string>, buf: string, depth: int)
    requires SplitSoFar(body, start, i, parts, buf, depth) && i < |body| && Separates(body, i)
    ensures SplitSoFar(body, i + 4, i + 4, parts + [buf], [], 0)
  {
    assert NextSeparator(body, start) == i;
    SeparatorIsFlat(body, i);
    assert [buf] + RawParts(body, i + 4) == RawParts(body, start);
    assert parts + [buf] + RawParts(body, i + 4) == parts + ([buf] + RawParts(body, i + 4));
  }

  method SplitTopLevel(strip: string -> string, body: string) returns (stripped: seq<string>)
    ensures stripped == NonBlank(strip, RawParts(body, 0))
  {
    var parts: seq<string>, depth, buf: string := [], 0, [];
    var i := 0;
    ghost var start := 0;
    while i < |body|
      invariant SplitSoFar(body, start, i, parts, buf, depth)
    {
      var ch := body[i];
      if ch == '(' {
        depth := depth + 1;
      } else if ch == ')' {
        depth := depth - 1;
      }
      if depth == 0 && OrAt(body, i) {
        Cut(body, start, i, parts, buf, depth);
        parts := parts + [buf];
        buf := [];
        i := i + 4;
        start := i;
      } else {
        buf := buf + [ch];
        i := i + 1;
      }
    }
    parts := parts + [buf];
    stripped := DropBlank(strip, parts);
  }

  // ----- what a term and a class grant -----

  datatype Caller = Caller(uid: string, memberships: set<string>)
  datatype Row = Row(userId: string, workspaceId: string, id: string, kind: string)

  /** What the classifier's patterns recognise a term as. */
  datatype Kind =
    | UserIsCaller                     // user_id = auth.uid()
    | OwnWorkspace                     // workspace_id IN (my memberships)
    | Workspace(literal: string)       // workspace_id = '<uuid>'
    | RowIsOwnWorkspace                // id IN (my memberships)
    | SystemKind                       // type = 'system'
    | Unrecognised

  datatype Class = MEMBER_SELF | SYSTEM_ONLY | OWN_WORKSPACE | WORKSPACES_ROW | OWN_OR_SYSTEM | PUBLIC

  /** The regular expressions and string methods of the script, as arbitrary functions. */
  datatype Reader = Reader(
    normalise: string -> string, strip: string -> string, isTrue: string -> bool, recognise: string -> Kind)

  /** What a term the classifier does not recognise grants is unknown: `other` is arbitrary. */
  type Unknown = (string, Caller, Row) -> bool

  predicate TermGrants(reader: Reader, term: string, other: Unknown, caller: Caller, row: Row) {
    match reader.recognise(term)
    case UserIsCaller => row.userId == caller.uid
    case OwnWorkspace => row.workspaceId in caller.memberships
    case Workspace(literal) => row.workspaceId == literal
    case RowIsOwnWorkspace => row.id in caller.memberships
    case SystemKind => row.kind == "system"
    case Unrecognised => other(term, caller, row)
  }

  /** An expression grants what any of its top-level terms grants. */
  predicate Grants(reader: Reader, terms: seq<string>, other: Unknown, caller: Caller, row: Row) {
    exists i :: 0 <= i < |terms| && TermGrants(reader, terms[i], other, caller, row)
  }

  predicate ClassGrants(c: Class, system: string, caller: Caller, row: Row) {
    match c
    case MEMBER_SELF => row.userId == caller.uid
    case SYSTEM_ONLY => row.workspaceId == system
    case OWN_WORKSPACE => row.workspaceId in caller.memberships
    case WORKSPACES_ROW => row.id in caller.memberships || row.kind == "system"
    case OWN_OR_SYSTEM => row.workspaceId in caller.memberships || row.workspaceId == system
    case PUBLIC => true
  }

  // ----- classification -----

  predicate Has(reader: Reader, terms: seq<string>, kind: Kind) {
    exists i :: 0 <= i < |terms| && reader.recognise(terms[i]) == kind
  }

  predicate HasWorkspace(reader: Reader, terms: seq<string>) {
    exists i :: 0 <= i < |terms| && reader.recognise(terms[i]).Workspace?
  }

  predicate OneDistinct(terms: seq<string>) {
    terms != [] && forall i :: 0 <= i < |terms| ==> terms[i] == terms[0]
  }

  function ClassOf(reader: Reader, terms: seq<string>): Option<Class> {
    var memberships, system := Has(reader, terms, OwnWorkspace), HasWorkspace(reader, terms);
    if Has(reader, terms, UserIsCaller) && OneDistinct(terms) then Some(MEMBER_SELF)
    else if Has(reader, terms, RowIsOwnWorkspace) && Has(reader, terms, SystemKind) then Some(WORKSPACES_ROW)
    else if memberships && system then Some(OWN_OR_SYSTEM)
    else if memberships then Some(OWN_WORKSPACE)
    else if system then Some(SYSTEM_ONLY)
    else None
  }

  predicate IsRow(reader: Reader, terms: seq<string>) {
    Has(reader, terms, RowIsOwnWorkspace) && Has(reader, terms, SystemKind)
  }

  /** The class is decided by the kinds that are present, whatever stands beside them. */
  lemma ClassFromKinds(reader: Reader, terms: seq<string>)
    ensures ClassOf(reader, terms) == Some(MEMBER_SELF) <==> Has(reader, terms, UserIsCaller) && OneDistinct(terms)
    ensures ClassOf(reader, terms) == Some(WORKSPACES_ROW) <==> IsRow(reader, terms)
    ensures ClassOf(reader, terms) == Some(OWN_OR_SYSTEM) <==>
      Has(reader, terms, OwnWorkspace) && HasWorkspace(reader, terms) && !IsRow(reader, terms)
    ensures ClassOf(reader, terms) == Some(OWN_WORKSPACE) <==>
      Has(reader, terms, OwnWorkspace) && !HasWorkspace(reader, terms) && !IsRow(reader, terms)
    ensures ClassOf(reader, terms) == Some(SYSTEM_ONLY) <==>
      !Has(reader, terms, OwnWorkspace) && HasWorkspace(reader, terms) && !IsRow(reader, terms)
    ensures ClassOf(reader, terms) == None <==>
      !Has(reader, terms, OwnWorkspace) && !HasWorkspace(reader, terms) && !IsRow(reader, terms)
      && !(Has(reader, terms, UserIsCaller) && OneDistinct(terms))
    ensures ClassOf(reader, terms) != Some(PUBLIC)
  {
    if OneDistinct(terms) {
      forall kind | Has(reader, terms, kind) ensures reader.recognise(terms[0]) == kind {
      }
      assert HasWorkspace(reader, terms) ==> reader.recognise(terms[0]).Workspace?;
    }
  }

  function Normalised(reader: Reader, parts: seq<string>): seq<string> {
    if parts == [] then [] else [reader.normalise(parts[0])] + Normalised(reader, parts[1..])
  }

  lemma {:induction false} NormalisedAt(reader: Reader, parts: seq<string>)
    ensures |Normalised(reader, parts)| == |parts|
    ensures forall i :: 0 <= i < |parts| ==> Normalised(reader, parts)[i] == reader.normalise(parts[i])
  {
    if parts != [] {
      NormalisedAt(reader, parts[1..]);
    }
  }

  /** The terms of an expression are its parts between the top-level ORs, stripped and normalised, without
      the blank ones. */
  lemma TermsAre(reader: Reader, using: string, t: string)
    ensures t in Terms(reader, using) <==>
      exists part :: part in RawParts(reader.normalise(using), 0) && reader.strip(part) != ""
        && t == reader.normalise(reader.strip(part))
  {
    var parts := RawParts(reader.normalise(using), 0);
    var kept := NonBlank(reader.strip, parts);
    NormalisedAt(reader, kept);
    if t in Terms(reader, using) {
      var i :| 0 <= i < |kept| && t == reader.normalise(kept[i]);
      NonBlankIs(reader.strip, parts, kept[i]);
    }
    if part :| part in parts && reader.strip(part) != "" && t == reader.normalise(reader.strip(part)) {
      NonBlankIs(reader.strip, parts, reader.strip(part));
      var i :| 0 <= i < |kept| && kept[i] == reader.strip(part);
      assert Terms(reader, using)[i] == t;
    }
  }

  function Terms(reader: Reader, using: string): seq<string> {
    Normalised(reader, NonBlank(reader.strip, RawParts(reader.normalise(using), 0)))
  }

  function ClassOfUsing(reader: Reader, using: string): Option<Class> {
    if reader.isTrue(reader.normalise(using)) then Some(PUBLIC) else ClassOf(reader, Terms(reader, using))
  }

  /** The first occurrences of the terms, in order. */
  method Unique(terms: seq<string>) returns (unique: seq<string>)
    ensures forall t :: t in unique <==> t in terms
    ensures forall i, j :: 0 <= i < j < |unique| ==> unique[i] != unique[j]
  {
    unique := [];
    for k := 0 to |terms|
      invariant forall t :: t in unique <==> t in terms[..k]
      invariant forall i, j :: 0 <= i < j < |unique| ==> unique[i] != unique[j]
    {
      if terms[k] !in unique {
        unique := unique + [terms[k]];
      }
    }
    assert terms[..|terms|] == terms;
  }

  method AnyOf(reader: Reader, terms: seq<string>, kind: Kind) returns (any: bool)
    ensures any == Has(reader, terms, kind)
  {
    any := exists i :: 0 <= i < |terms| && reader.recognise(terms[i]) == kind;
  }

  /** Dropping repeated terms changes no flag of the classifier. */
  lemma SameFlags(reader: Reader, terms: seq<string>, unique: seq<string>)
    requires forall t :: t in unique <==> t in terms
    requires forall i, j :: 0 <= i < j < |unique| ==> unique[i] != unique[j]
    ensures forall kind :: Has(reader, unique, kind) <==> Has(reader, terms, kind)
    ensures HasWorkspace(reader, unique) <==> HasWorkspace(reader, terms)
    ensures |unique| == 1 <==> OneDistinct(terms)
  {
    assert forall i :: 0 <= i < |terms| ==> terms[i] in unique;
    assert forall i :: 0 <= i < |unique| ==> unique[i] in terms;
    if |unique| >= 2 {
      var i :| 0 <= i < |terms| && terms[i] == unique[0];
      var j :| 0 <= j < |terms| && terms[j] == unique[1];
      assert terms[i] != terms[j];
    }
  }

  method Classify(reader: Reader, using: string) returns (c: Option<Class>)
    ensures c == ClassOfUsing(reader, using)
    // If some class means what the expression means, it is found.
    ensures forall k, system :: UsingMeans(reader, using, k, system) && k != MEMBER_SELF ==> c == Some(k)
    ensures forall system :: UsingMeans(reader, using, MEMBER_SELF, system) ==>
      c == if OneDistinct(Terms(reader, using)) then Some(MEMBER_SELF) else None
  {
    forall k, system | UsingMeans(reader, using, k, system)
      ensures k != MEMBER_SELF ==> ClassOfUsing(reader, using) == Some(k)
      ensures k == MEMBER_SELF ==>
        ClassOfUsing(reader, using) == if OneDistinct(Terms(reader, using)) then Some(k) else None
    {
      ClassOfUsingIsFound(reader, using, k, system);
    }
    c := ClassifyTerms(reader, using);
  }

  /** The body of `classify`. */
  method ClassifyTerms(reader: Reader, using: string) returns (c: Option<Class>)
    ensures c == ClassOfUsing(reader, using)
  {
    var body := reader.normalise(using);
    if reader.isTrue(body) {
      return Some(PUBLIC);
    }
    var parts := SplitTopLevel(reader.strip, body);
    var terms := Normalised(reader, parts);
    var unique := Unique(terms);
    SameFlags(reader, terms, unique);
    var isMember := AnyOf(reader, unique, UserIsCaller);
    var isMemberships := AnyOf(reader, unique, OwnWorkspace);
    var isSystemWs := HasWorkspace(reader, unique);
    var isWorkspacesRow := AnyOf(reader, unique, RowIsOwnWorkspace);
    var isSystemType := AnyOf(reader, unique, SystemKind);
    if isMember && |unique| == 1 {
      return Some(MEMBER_SELF);
    }
    if isWorkspacesRow && isSystemType {
      return Some(WORKSPACES_ROW);
    }
    if isMemberships && isSystemWs {
      return Some(OWN_OR_SYSTEM);
    }
    if isMemberships && !isSystemWs {
      return Some(OWN_WORKSPACE);
    }
    if isSystemWs && !isMemberships {
      return Some(SYSTEM_ONLY);
    }
    return None;
  }

  // ----- is meaning preserved? -----

  /** The class grants no row the expression does not. */
  ghost predicate NeverWidens(reader: Reader, terms: seq<string>, c: Class, system: string) {
    forall other, caller, row :: ClassGrants(c, system, caller, row) ==> Grants(reader, terms, other, caller, row)
  }

  ghost predicate SameMeaning(reader: Reader, terms: seq<string>, c: Class, system: string) {
    forall other, caller, row :: ClassGrants(c, system, caller, row) <==> Grants(reader, terms, other, caller, row)
  }

  predicate NamesSystem(c: Class) {
    c == SYSTEM_ONLY || c == OWN_OR_SYSTEM
  }

  ghost function Nothing(): Unknown {
    (term, caller, row) => false
  }

  lemma GrantsBy(reader: Reader, terms: seq<string>, kind: Kind, other: Unknown, caller: Caller, row: Row)
    requires Has(reader, terms, kind)
    ensures match kind
            case UserIsCaller => row.userId == caller.uid ==> Grants(reader, terms, other, caller, row)
            case OwnWorkspace => row.workspaceId in caller.memberships ==> Grants(reader, terms, other, caller, row)
            case Workspace(literal) => row.workspaceId == literal ==> Grants(reader, terms, other, caller, row)
            case RowIsOwnWorkspace => row.id in caller.memberships ==> Grants(reader, terms, other, caller, row)
            case SystemKind => row.kind == "system" ==> Grants(reader, terms, other, caller, row)
            case Unrecognised => true
  {
    var i :| 0 <= i < |terms| && reader.recognise(terms[i]) == kind;
    assert TermGrants(reader, terms[i], other, caller, row) ==> Grants(reader, terms, other, caller, row);
  }

  /** The class never widens the expression exactly when, if the class speaks of the system
      workspace, some literal of the expression is that workspace. */
  lemma {:induction false} NeverWidensIff(reader: Reader, terms: seq<string>, c: Class, system: string)
    requires ClassOf(reader, terms) == Some(c)
    ensures NeverWidens(reader, terms, c, system) <==> (NamesSystem(c) ==> Has(reader, terms, Workspace(system)))
  {
    if NamesSystem(c) && !Has(reader, terms, Workspace(system)) {
      var caller, row := Caller("", {}), Row("someone", system, "", "");
      assert ClassGrants(c, system, caller, row);
      assert !Grants(reader, terms, Nothing(), caller, row);
    } else {
      forall other, caller, row | ClassGrants(c, system, caller, row)
        ensures Grants(reader, terms, other, caller, row)
      {
        if NamesSystem(c) {
          GrantsBy(reader, terms, Workspace(system), other, caller, row);
        }
        match c
        case MEMBER_SELF => GrantsBy(reader, terms, UserIsCaller, other, caller, row);
        case SYSTEM_ONLY =>
        case OWN_WORKSPACE => GrantsBy(reader, terms, OwnWorkspace, other, caller, row);
        case WORKSPACES_ROW =>
          GrantsBy(reader, terms, RowIsOwnWorkspace, other, caller, row);
          GrantsBy(reader, terms, SystemKind, other, caller, row);
        case OWN_OR_SYSTEM => GrantsBy(reader, terms, OwnWorkspace, other, caller, row);
      }
    }
  }

  /** The terms whose rows class `c` grants. */
  predicate Covers(c: Class, kind: Kind, system: string) {
    match kind
    case UserIsCaller => c == MEMBER_SELF
    case OwnWorkspace => c == OWN_WORKSPACE || c == OWN_OR_SYSTEM
    case Workspace(literal) => literal == system && NamesSystem(c)
    case RowIsOwnWorkspace => c == WORKSPACES_ROW
    case SystemKind => c == WORKSPACES_ROW
    case Unrecognised => false
  }

  /** A caller and a row that a term of the given kind grants and nothing else does. */
  function OnlyCaller(kind: Kind, system: string): Caller {
    Caller("me", if kind.OwnWorkspace? || kind.RowIsOwnWorkspace? then {system + "+"} else {})
  }

  function OnlyRow(kind: Kind, system: string): Row {
    Row(if kind.UserIsCaller? then "me" else "you",
        match kind { case Workspace(literal) => literal case OwnWorkspace => system + "+" case _ => system + "-" },
        if kind.RowIsOwnWorkspace? then system + "+" else system + "-",
        if kind.SystemKind? then "system" else "")
  }

  lemma UncoveredIsLost(c: Class, kind: Kind, system: string)
    requires c != PUBLIC && !Covers(c, kind, system)
    requires kind.Workspace? ==> kind.literal != system || !NamesSystem(c)
    ensures !ClassGrants(c, system, OnlyCaller(kind, system), OnlyRow(kind, system))
  {
    assert |system + "+"| == |system + "-"| == |system| + 1;
    assert (system + "+")[|system|] != (system + "-")[|system|];
  }

  predicate CoversTerms(reader: Reader, terms: seq<string>, c: Class, system: string) {
    forall j :: 0 <= j < |terms| ==> Covers(c, reader.recognise(terms[j]), system)
  }

  lemma CoveredTermsGrantLess(reader: Reader, terms: seq<string>, c: Class, system: string, other: Unknown,
                              caller: Caller, row: Row)
    requires CoversTerms(reader, terms, c, system) && Grants(reader, terms, other, caller, row)
    ensures ClassGrants(c, system, caller, row)
  {
    var j :| 0 <= j < |terms| && TermGrants(reader, terms[j], other, caller, row);
    assert Covers(c, reader.recognise(terms[j]), system);
  }

  ghost function Everything(): Unknown {
    (term, caller, row) => true
  }

  lemma UncoveredTermsGrantMore(reader: Reader, terms: seq<string>, c: Class, system: string)
    returns (caller: Caller, row: Row)
    requires c != PUBLIC && !CoversTerms(reader, terms, c, system)
    ensures Grants(reader, terms, Everything(), caller, row) && !ClassGrants(c, system, caller, row)
  {
    var j :| 0 <= j < |terms| && !Covers(c, reader.recognise(terms[j]), system);
    var kind := reader.recognise(terms[j]);
    UncoveredIsLost(c, kind, system);
    caller, row := OnlyCaller(kind, system), OnlyRow(kind, system);
    assert TermGrants(reader, terms[j], Everything(), caller, row);
  }

  /** The class means exactly what the expression means when, and only when, it covers every
      term: any further term, recognised or not, grants a row that the class loses. */
  lemma {:induction false} SameMeaningIff(reader: Reader, terms: seq<string>, c: Class, system: string)
    requires ClassOf(reader, terms) == Some(c)
    ensures SameMeaning(reader, terms, c, system)
            <==> CoversTerms(reader, terms, c, system)
  {
    NeverWidensIff(reader, terms, c, system);
    if !CoversTerms(reader, terms, c, system) {
      var caller, row := UncoveredTermsGrantMore(reader, terms, c, system);
    } else {
      forall other, caller, row | Grants(reader, terms, other, caller, row)
        ensures ClassGrants(c, system, caller, row)
      {
        CoveredTermsGrantLess(reader, terms, c, system, other, caller, row);
      }
    }
  }

  // ----- the best class is found -----

  /** A string that is longer than every workspace named in the terms, and so none of them. */
  lemma {:induction false} Stranger(reader: Reader, terms: seq<string>) returns (w: string)
    ensures forall i :: 0 <= i < |terms| ==> reader.recognise(terms[i]) != Workspace(w)
    ensures forall i :: 0 <= i < |terms| ==>
      (reader.recognise(terms[i]).Workspace? ==> |reader.recognise(terms[i]).literal| < |w|)
  {
    w := "x";
    if terms != [] {
      var n := |terms| - 1;
      var shorter := Stranger(reader, terms[..n]);
      var kind := reader.recognise(terms[n]);
      w := shorter + "x" + (if kind.Workspace? then kind.literal else "");
      forall i | 0 <= i < |terms|
        ensures reader.recognise(terms[i]).Workspace? ==> |reader.recognise(terms[i]).literal| < |w|
      {
        if i < n {
          assert terms[..n][i] == terms[i];
        }
      }
    }
  }

  /** Terms alone never mean the public class: they grant nothing to a caller that is no member, of a row
      of another user and of a workspace that none of them names. */
  lemma TermsAreNotPublic(reader: Reader, terms: seq<string>, system: string)
    ensures !SameMeaning(reader, terms, PUBLIC, system)
  {
    var w := Stranger(reader, terms);
    var caller, row := Caller("me", {}), Row("you", w, "", "");
    assert ClassGrants(PUBLIC, system, caller, row);
    assert !Grants(reader, terms, Nothing(), caller, row);
  }

  /** A class that means what the terms mean covers all of them. */
  lemma {:induction false} MeaningCovers(reader: Reader, terms: seq<string>, c: Class, system: string)
    requires c != PUBLIC && SameMeaning(reader, terms, c, system)
    ensures CoversTerms(reader, terms, c, system)
  {
    if !CoversTerms(reader, terms, c, system) {
      var caller, row := UncoveredTermsGrantMore(reader, terms, c, system);
    }
  }

  /** A row that the class grants through `kind` alone, and so must some term. */
  lemma {:induction false} MeaningHas(reader: Reader, terms: seq<string>, c: Class, system: string, kind: Kind)
    requires SameMeaning(reader, terms, c, system) && CoversTerms(reader, terms, c, system) && c != PUBLIC
    requires Covers(c, kind, system)
    ensures Has(reader, terms, kind)
  {
    var caller, row := OnlyCaller(kind, system), OnlyRow(kind, system);
    assert |system + "+"| == |system + "-"| == |system| + 1;
    assert (system + "+")[|system|] != (system + "-")[|system|];
    assert ClassGrants(c, system, caller, row);
    assert Grants(reader, terms, Nothing(), caller, row);
    var i :| 0 <= i < |terms| && TermGrants(reader, terms[i], Nothing(), caller, row);
    assert Covers(c, reader.recognise(terms[i]), system);
  }

  /** If a class means what the terms mean, it is the one that is found: always for the classes of
      workspaces and rows, and for the member's own rows when the terms are all spelt alike. */
  lemma {:induction false} ClassIsFound(reader: Reader, terms: seq<string>, c: Class, system: string)
    requires SameMeaning(reader, terms, c, system)
    ensures c != MEMBER_SELF ==> ClassOf(reader, terms) == Some(c)
    ensures c == MEMBER_SELF ==> ClassOf(reader, terms) == if OneDistinct(terms) then Some(c) else None
  {
    if c == PUBLIC {
      TermsAreNotPublic(reader, terms, system);
    } else {
      MeaningCovers(reader, terms, c, system);
      CoveredKinds(reader, terms, c, system);
      ClassFromKinds(reader, terms);
      match c
      case MEMBER_SELF => MeaningHas(reader, terms, c, system, UserIsCaller);
      case SYSTEM_ONLY => MeaningHas(reader, terms, c, system, Workspace(system));
      case OWN_WORKSPACE => MeaningHas(reader, terms, c, system, OwnWorkspace);
      case WORKSPACES_ROW =>
        MeaningHas(reader, terms, c, system, RowIsOwnWorkspace);
        MeaningHas(reader, terms, c, system, SystemKind);
      case OWN_OR_SYSTEM =>
        MeaningHas(reader, terms, c, system, OwnWorkspace);
        MeaningHas(reader, terms, c, system, Workspace(system));
    }
  }

  lemma CoveredKinds(reader: Reader, terms: seq<string>, c: Class, system: string)
    requires CoversTerms(reader, terms, c, system)
    ensures forall kind :: Has(reader, terms, kind) ==> Covers(c, kind, system)
    ensures HasWorkspace(reader, terms) ==> NamesSystem(c)
    ensures Has(reader, terms, Workspace(system)) ==> HasWorkspace(reader, terms)
  {
    if i :| 0 <= i < |terms| && reader.recognise(terms[i]).Workspace? {
      assert Covers(c, reader.recognise(terms[i]), system);
    }
  }

  /** The class means what the expression means as it is written, the public one included. */
  ghost predicate UsingMeans(reader: Reader, using: string, c: Class, system: string) {
    forall other, caller, row :: ClassGrants(c, system, caller, row) <==> UsingGrants(reader, using, other, caller, row)
  }

  lemma {:induction false} ClassOfUsingIsFound(reader: Reader, using: string, c: Class, system: string)
    requires UsingMeans(reader, using, c, system)
    ensures c != MEMBER_SELF ==> ClassOfUsing(reader, using) == Some(c)
    ensures c == MEMBER_SELF ==>
      ClassOfUsing(reader, using) == if OneDistinct(Terms(reader, using)) then Some(c) else None
  {
    if reader.isTrue(reader.normalise(using)) {
      if c != PUBLIC {
        UncoveredIsLost(c, Unrecognised, system);
        assert UsingGrants(reader, using, Nothing(), OnlyCaller(Unrecognised, system), OnlyRow(Unrecognised, system));
      }
    } else {
      forall other, caller, row
        ensures ClassGrants(c, system, caller, row) <==> Grants(reader, Terms(reader, using), other, caller, row)
      {
        assert ClassGrants(c, system, caller, row) <==> UsingGrants(reader, using, other, caller, row);
      }
      ClassIsFound(reader, Terms(reader, using), c, system);
    }
  }

  // ----- the fold to one class per table -----

  function Privilege(c: Class): nat {
    match c
    case MEMBER_SELF => 0
    case SYSTEM_ONLY => 1
    case OWN_WORKSPACE => 2
    case WORKSPACES_ROW => 3
    case OWN_OR_SYSTEM => 4
    case PUBLIC => 5
  }

  /** The order of the privileges, the least first. */
  lemma PrivilegesAscend()
    ensures Privilege(MEMBER_SELF) < Privilege(SYSTEM_ONLY) < Privilege(OWN_WORKSPACE)
    ensures Privilege(OWN_WORKSPACE) < Privilege(WORKSPACES_ROW) < Privilege(OWN_OR_SYSTEM) < Privilege(PUBLIC)
  {
  }

  /** A parsed CREATE POLICY statement. */
  datatype Policy = Policy(table: string, command: Option<string>, roles: Option<set<string>>, using: string)

  function ClassOfPolicy(reader: Reader, p: Policy): Option<Class> {
    if p.command != Some("SELECT") || p.roles.None? || "anon" in p.roles.value then None
    else ClassOfUsing(reader, p.using)
  }

  /** Which policies get a class: those that are readable, SELECT, not for anon and of a known expression. */
  lemma PolicyHasClassIff(reader: Reader, p: Policy, c: Class)
    ensures ClassOfPolicy(reader, p) == Some(c) <==>
      && p.command == Some("SELECT") && p.roles.Some? && "anon" !in p.roles.value
      && ClassOfUsing(reader, p.using) == Some(c)
  {
  }

  /** The classes of a table's supported policies. */
  ghost predicate Supports(reader: Reader, policies: seq<Policy>, table: string, c: Class) {
    exists i :: 0 <= i < |policies| && policies[i].table == table && ClassOfPolicy(reader, policies[i]) == Some(c)
  }

  /** `kept` maps each table that has a supported policy to the most privileged of its classes. */
  ghost predicate IsFold(reader: Reader, policies: seq<Policy>, kept: map<string, Class>) {
    && (forall t, c :: Supports(reader, policies, t, c) ==> t in kept && Privilege(c) <= Privilege(kept[t]))
    && (forall t :: t in kept ==> Supports(reader, policies, t, kept[t]))
  }

  method ClassifyPolicy(reader: Reader, p: Policy) returns (c: Option<Class>)
    ensures c == ClassOfPolicy(reader, p)
  {
    if p.command.None? || p.roles.None? {
      return None;
    }
    if p.command.value != "SELECT" || "anon" in p.roles.value {
      return None;
    }
    c := Classify(reader, p.using);
  }

  method ParseMigrations(reader: Reader, policies: seq<Policy>)
    returns (kept: map<string, Class>, unsupported: seq<Policy>)
    ensures IsFold(reader, policies, kept)
    ensures unsupported == Unsupported(reader, policies)
  {
    kept, unsupported := map[], [];
    for k := 0 to |policies|
      invariant IsFold(reader, policies[..k], kept)
      invariant unsupported == Unsupported(reader, policies[..k])
    {
      var p := policies[k];
      assert policies[..k + 1][..k] == policies[..k] && policies[..k + 1] == policies[..k] + [p];
      FoldStep(reader, policies[..k], p, kept);
      var c := ClassifyPolicy(reader, p);
      if c.None? {
        unsupported := unsupported + [p];
      } else if p.table !in kept || Privilege(c.value) > Privilege(kept[p.table]) {
        kept := kept[p.table := c.value];
      }
    }
    assert policies[..|policies|] == policies;
  }

  function Unsupported(reader: Reader, policies: seq<Policy>): seq<Policy> {
    if policies == [] then []
    else var last := policies[|policies| - 1];
         Unsupported(reader, policies[..|policies| - 1]) + (if ClassOfPolicy(reader, last).None? then [last] else [])
  }

  /** The report lists the policies without a class one by one, in order. */
  lemma {:induction false} UnsupportedConcat(reader: Reader, a: seq<Policy>, b: seq<Policy>)
    ensures Unsupported(reader, a + b) == Unsupported(reader, a) + Unsupported(reader, b)
  {
    if b == [] {
      assert a + b == a;
    } else {
      var n := |b| - 1;
      assert (a + b)[..|a + b| - 1] == a + b[..n] && (a + b)[|a + b| - 1] == b[n];
      UnsupportedConcat(reader, a, b[..n]);
    }
  }

  /** No policy is dropped unseen: one without a class is reported, and any other has its table in
      the result, under a class at least as privileged. */
  lemma {:induction false} EveryPolicyIsAccountedFor(reader: Reader, policies: seq<Policy>, kept: map<string, Class>,
                                                     p: Policy)
    requires IsFold(reader, policies, kept) && p in policies
    ensures p in Unsupported(reader, policies) <==> ClassOfPolicy(reader, p).None?
    ensures var c := ClassOfPolicy(reader, p);
            c.Some? ==> p.table in kept && Privilege(c.value) <= Privilege(kept[p.table])
  {
    UnsupportedHasNoClass(reader, policies, p);
    if ClassOfPolicy(reader, p).Some? {
      assert Supports(reader, policies, p.table, ClassOfPolicy(reader, p).value);
    }
  }

  lemma {:induction false} UnsupportedHasNoClass(reader: Reader, policies: seq<Policy>, p: Policy)
    ensures p in Unsupported(reader, policies) <==> p in policies && ClassOfPolicy(reader, p).None?
  {
    if policies != [] {
      var shorter, last := policies[..|policies| - 1], policies[|policies| - 1];
      UnsupportedHasNoClass(reader, shorter, p);
      assert policies == shorter + [last];
    }
  }

  lemma OneMorePolicy(reader: Reader, policies: seq<Policy>, p: Policy)
    ensures forall t, c :: Supports(reader, policies + [p], t, c) <==>
      (Supports(reader, policies, t, c) || (t == p.table && ClassOfPolicy(reader, p) == Some(c)))
  {
    var longer := policies + [p];
    forall t, c
      ensures Supports(reader, longer, t, c) <==>
        (Supports(reader, policies, t, c) || (t == p.table && ClassOfPolicy(reader, p) == Some(c)))
    {
      assert longer[|policies|] == p;
      if i :| 0 <= i < |policies| && policies[i].table == t && ClassOfPolicy(reader, policies[i]) == Some(c) {
        assert longer[i] == policies[i];
      }
    }
  }

  lemma FoldStep(reader: Reader, policies: seq<Policy>, p: Policy, kept: map<string, Class>)
    requires IsFold(reader, policies, kept)
    ensures IsFold(reader, policies + [p],
      match ClassOfPolicy(reader, p)
      case None => kept
      case Some(c) => if p.table !in kept || Privilege(c) > Privilege(kept[p.table]) then kept[p.table := c] else kept)
  {
    OneMorePolicy(reader, policies, p);
  }

  lemma SupportsIn(reader: Reader, policies: seq<Policy>, table: string, c: Class)
    ensures Supports(reader, policies, table, c) <==>
      exists p :: p in policies && p.table == table && ClassOfPolicy(reader, p) == Some(c)
  {
  }

  /** The fold does not depend on the order of the policies, nor on repetitions. */
  lemma FoldIgnoresOrder(reader: Reader, a: seq<Policy>, b: seq<Policy>, forA: map<string, Class>, forB: map<string,
                         Class>)
    requires forall p :: p in a <==> p in b
    requires IsFold(reader, a, forA) && IsFold(reader, b, forB)
    ensures forA == forB
  {
    forall t, c
      ensures Supports(reader, a, t, c) <==> Supports(reader, b, t, c)
    {
      SupportsIn(reader, a, t, c);
      SupportsIn(reader, b, t, c);
    }
    forall t | t in forA
      ensures t in forB && forA[t] == forB[t]
    {
      assert Supports(reader, b, t, forA[t]);
      SamePrivilege(forA[t], forB[t]);
    }
    forall t | t in forB
      ensures t in forA
    {
      assert Supports(reader, a, t, forB[t]);
    }
  }

  lemma SamePrivilege(c: Class, d: Class)
    ensures Privilege(c) == Privilege(d) <==> c == d
  {
  }

  /** Postgres ORs a table's permissive policies together. */
  ghost predicate UnionGrants(reader: Reader, policies: seq<Policy>, table: string, system: string, caller: Caller,
                              row: Row) {
    exists c :: Supports(reader, policies, table, c) && ClassGrants(c, system, caller, row)
  }

  /** Class `kept` holds everything class `c` grants. */
  predicate Contains(kept: Class, c: Class) {
    || c == kept
    || kept == PUBLIC
    || (kept == OWN_OR_SYSTEM && (c == SYSTEM_ONLY || c == OWN_WORKSPACE))
  }

  ghost predicate KeptIsUnion(reader: Reader, policies: seq<Policy>, table: string, kept: Class, system: string) {
    forall caller, row :: ClassGrants(kept, system, caller, row) <==>
      UnionGrants(reader, policies, table, system, caller, row)
  }

  /** The kept class never grants outside the union of a table's policies, and is that union
      exactly when it contains every one of their classes. */
  lemma KeptIsUnionIff(reader: Reader, policies: seq<Policy>, kept: map<string, Class>, table: string, system: string)
    requires IsFold(reader, policies, kept) && table in kept
    ensures forall caller, row :: ClassGrants(kept[table], system, caller, row)
              ==> UnionGrants(reader, policies, table, system, caller, row)
    ensures KeptIsUnion(reader, policies, table, kept[table], system)
            <==> forall c :: Supports(reader, policies, table, c) ==> Contains(kept[table], c)
  {
    var k := kept[table];
    if c :| Supports(reader, policies, table, c) && !Contains(k, c) {
      var caller, row := NotContained(k, c, system);
      assert UnionGrants(reader, policies, table, system, caller, row);
    }
  }

  lemma NotContained(k: Class, c: Class, system: string) returns (caller: Caller, row: Row)
    requires !Contains(k, c) && Privilege(c) <= Privilege(k)
    ensures ClassGrants(c, system, caller, row) && !ClassGrants(k, system, caller, row)
  {
    var kind := match c
      case MEMBER_SELF => UserIsCaller
      case SYSTEM_ONLY => Workspace(system)
      case OWN_WORKSPACE => OwnWorkspace
      case WORKSPACES_ROW => SystemKind
      case OWN_OR_SYSTEM => OwnWorkspace
      case PUBLIC => Unrecognised;
    caller, row := OnlyCaller(kind, system), OnlyRow(kind, system);
    UncoveredIsLost(k, kind, system);
  }

  /** When some supported class of the table holds all the others, it is the one that is kept. */
  lemma UnionIsKept(reader: Reader, policies: seq<Policy>, kept: map<string, Class>, table: string, c: Class)
    requires IsFold(reader, policies, kept) && Supports(reader, policies, table, c)
    requires forall d :: Supports(reader, policies, table, d) ==> Contains(c, d)
    ensures table in kept && kept[table] == c
  {
    PrivilegesAscend();
    assert Supports(reader, policies, table, kept[table]);
    SamePrivilege(c, kept[table]);
  }

  /** The documented reading, that the most privileged class is the union, fails for a table
      holding a system-only and an own-workspace policy: system rows are lost. */
  lemma SystemRowsAreLost(reader: Reader, policies: seq<Policy>, kept: map<string, Class>, table: string,
                          system: string)
    requires IsFold(reader, policies, kept)
    requires forall c :: Supports(reader, policies, table, c) <==> c == SYSTEM_ONLY || c == OWN_WORKSPACE
    ensures table in kept && kept[table] == OWN_WORKSPACE
    ensures var caller, row := Caller("", {}), Row("", system, "", "");
            UnionGrants(reader, policies, table, system, caller, row) && !ClassGrants(kept[table], system, caller, row)
  {
    assert Supports(reader, policies, table, SYSTEM_ONLY) && Supports(reader, policies, table, OWN_WORKSPACE);
    assert ClassGrants(SYSTEM_ONLY, system, Caller("", {}), Row("", system, "", ""));
  }

  // ----- from the SQL of a table to its class -----

  predicate UsingGrants(reader: Reader, using: string, other: Unknown, caller: Caller, row: Row) {
    reader.isTrue(reader.normalise(using)) || Grants(reader, Terms(reader, using), other, caller, row)
  }

  predicate Supported(reader: Reader, p: Policy, table: string) {
    p.table == table && ClassOfPolicy(reader, p).Some?
  }

  /** What Postgres grants by the supported policies of the table, expressions taken as written. */
  predicate TableGrants(reader: Reader, policies: seq<Policy>, table: string, other: Unknown, caller: Caller,
                        row: Row) {
    exists i :: 0 <= i < |policies| && Supported(reader, policies[i], table) &&
      UsingGrants(reader, policies[i].using, other, caller, row)
  }

  ghost predicate TableNeverWidens(reader: Reader, policies: seq<Policy>, table: string, c: Class, system: string) {
    forall other, caller, row :: ClassGrants(c, system, caller, row) ==>
      TableGrants(reader, policies, table, other, caller, row)
  }

  ghost predicate TableSameMeaning(reader: Reader, policies: seq<Policy>, table: string, c: Class, system: string) {
    forall other, caller, row :: ClassGrants(c, system, caller, row) <==>
      TableGrants(reader, policies, table, other, caller, row)
  }

  /** A term of a supported policy of the table is recognised as `kind`. */
  predicate TableHas(reader: Reader, policies: seq<Policy>, table: string, kind: Kind) {
    exists i :: 0 <= i < |policies| && Supported(reader, policies[i], table) &&
      Has(reader, Terms(reader, policies[i].using), kind)
  }

  lemma TableGrantsBy(reader: Reader, policies: seq<Policy>, table: string, i: nat, kind: Kind, other: Unknown,
                      caller: Caller, row: Row)
    requires i < |policies| && Supported(reader, policies[i], table)
    requires Has(reader, Terms(reader, policies[i].using), kind)
    ensures match kind
            case OwnWorkspace => row.workspaceId in caller.memberships ==>
              TableGrants(reader, policies, table, other, caller, row)
            case Workspace(literal) => row.workspaceId == literal ==>
              TableGrants(reader, policies, table, other, caller, row)
            case _ => true
  {
    var terms := Terms(reader, policies[i].using);
    GrantsBy(reader, terms, kind, other, caller, row);
    if Grants(reader, terms, other, caller, row) {
      assert UsingGrants(reader, policies[i].using, other, caller, row);
    }
  }

  /** The classes that do not name the system workspace never widen the policy they come from. */
  lemma ClassNeverWidens(reader: Reader, policies: seq<Policy>, table: string, i: nat, c: Class, system: string,
                          other: Unknown, caller: Caller, row: Row)
    requires i < |policies| && policies[i].table == table && ClassOfPolicy(reader, policies[i]) == Some(c)
    requires !NamesSystem(c) && ClassGrants(c, system, caller, row)
    ensures TableGrants(reader, policies, table, other, caller, row)
  {
    var using := policies[i].using;
    if !reader.isTrue(reader.normalise(using)) {
      NeverWidensIff(reader, Terms(reader, using), c, system);
    }
    assert UsingGrants(reader, using, other, caller, row);
  }

  ghost predicate PolicyNeverWidens(reader: Reader, p: Policy, c: Class, system: string) {
    forall other, caller, row :: ClassGrants(c, system, caller, row) ==>
      UsingGrants(reader, p.using, other, caller, row)
  }

  /** What a class says of its policy: it is a readable SELECT policy that is not for anon, and the
      class grants no row that its SQL does not grant, exactly when, if it speaks of the system
      workspace, the SQL names that workspace. */
  lemma {:induction false} ClassifiedPolicy(reader: Reader, p: Policy, c: Class, system: string)
    requires ClassOfPolicy(reader, p) == Some(c)
    ensures p.command == Some("SELECT") && p.roles.Some? && "anon" !in p.roles.value
    ensures PolicyNeverWidens(reader, p, c, system)
      <==> (NamesSystem(c) ==> Has(reader, Terms(reader, p.using), Workspace(system)))
  {
    var terms := Terms(reader, p.using);
    if !reader.isTrue(reader.normalise(p.using)) {
      NeverWidensIff(reader, terms, c, system);
      forall other, caller, row
        ensures UsingGrants(reader, p.using, other, caller, row) <==> Grants(reader, terms, other, caller, row)
      {
      }
    }
  }

  /** End to end: the kept class grants no row that the table's SQL does not grant, exactly when, if
      it speaks of the system workspace, some supported policy of the table names that workspace. */
  lemma TableNeverWidensIff(reader: Reader, policies: seq<Policy>, kept: map<string, Class>, table: string,
                            system: string)
    requires IsFold(reader, policies, kept) && table in kept
    ensures TableNeverWidens(reader, policies, table, kept[table], system)
            <==> (NamesSystem(kept[table]) ==> TableHas(reader, policies, table, Workspace(system)))
  {
    var c := kept[table];
    var i :| 0 <= i < |policies| && policies[i].table == table && ClassOfPolicy(reader, policies[i]) == Some(c);
    if NamesSystem(c) && !TableHas(reader, policies, table, Workspace(system)) {
      NothingNamesSystem(reader, policies, kept, table, system);
    } else {
      forall other, caller, row | ClassGrants(c, system, caller, row)
        ensures TableGrants(reader, policies, table, other, caller, row)
      {
        if NamesSystem(c) {
          var k :| 0 <= k < |policies| && Supported(reader, policies[k], table) &&
            Has(reader, Terms(reader, policies[k].using), Workspace(system));
          TableGrantsBy(reader, policies, table, k, Workspace(system), other, caller, row);
          if c == OWN_OR_SYSTEM {
            TableGrantsBy(reader, policies, table, i, OwnWorkspace, other, caller, row);
          }
        } else {
          ClassNeverWidens(reader, policies, table, i, c, system, other, caller, row);
        }
      }
    }
  }

  lemma NothingNamesSystem(reader: Reader, policies: seq<Policy>, kept: map<string, Class>, table: string,
                           system: string)
    requires IsFold(reader, policies, kept) && table in kept && NamesSystem(kept[table])
    requires !TableHas(reader, policies, table, Workspace(system))
    ensures !TableNeverWidens(reader, policies, table, kept[table], system)
  {
    var caller, row := Caller("", {}), Row("someone", system, "", "");
    assert ClassGrants(kept[table], system, caller, row);
    forall i | 0 <= i < |policies| && Supported(reader, policies[i], table)
      ensures !UsingGrants(reader, policies[i].using, Nothing(), caller, row)
    {
      NotPublic(reader, policies, kept, table, i);
      StrangerSees(reader, Terms(reader, policies[i].using), system);
    }
    assert !TableGrants(reader, policies, table, Nothing(), caller, row);
  }

  /** A table that is not public has no policy `USING (true)`. */
  lemma NotPublic(reader: Reader, policies: seq<Policy>, kept: map<string, Class>, table: string, i: nat)
    requires IsFold(reader, policies, kept) && table in kept && kept[table] != PUBLIC
    requires i < |policies| && Supported(reader, policies[i], table)
    ensures !reader.isTrue(reader.normalise(policies[i].using))
  {
    assert Supports(reader, policies, table, ClassOfPolicy(reader, policies[i]).value);
  }

  lemma StrangerSees(reader: Reader, terms: seq<string>, system: string)
    requires !Has(reader, terms, Workspace(system))
    ensures !Grants(reader, terms, Nothing(), Caller("", {}), Row("someone", system, "", ""))
  {
  }

  /** The class covers every term of every supported policy of the table. */
  predicate CoversTable(reader: Reader, policies: seq<Policy>, table: string, c: Class, system: string) {
    forall i :: 0 <= i < |policies| && Supported(reader, policies[i], table) ==>
      CoversTerms(reader, Terms(reader, policies[i].using), c, system)
  }

  /** End to end: the kept class means exactly what the table's SQL grants when, and only when, it
      is public or covers every term of every supported policy. */
  lemma TableSameMeaningIff(reader: Reader, policies: seq<Policy>, kept: map<string, Class>, table: string,
                            system: string)
    requires IsFold(reader, policies, kept) && table in kept
    ensures TableSameMeaning(reader, policies, table, kept[table], system)
            <==> kept[table] == PUBLIC || CoversTable(reader, policies, table, kept[table], system)
  {
    var c := kept[table];
    if c == PUBLIC {
      TableNeverWidensIff(reader, policies, kept, table, system);
    } else if CoversTable(reader, policies, table, c, system) {
      TableNeverWidensIff(reader, policies, kept, table, system);
      CoveredTableGrantsLess(reader, policies, kept, table, system);
    } else {
      var i :| 0 <= i < |policies| && Supported(reader, policies[i], table) &&
        !CoversTerms(reader, Terms(reader, policies[i].using), c, system);
      var caller, row := UncoveredTermsGrantMore(reader, Terms(reader, policies[i].using), c, system);
      assert UsingGrants(reader, policies[i].using, Everything(), caller, row);
      assert TableGrants(reader, policies, table, Everything(), caller, row);
    }
  }

  lemma CoveredTableGrantsLess(reader: Reader, policies: seq<Policy>, kept: map<string, Class>, table: string,
                               system: string)
    requires IsFold(reader, policies, kept) && table in kept && kept[table] != PUBLIC
    requires CoversTable(reader, policies, table, kept[table], system)
    ensures forall other, caller, row :: TableGrants(reader, policies, table, other, caller, row) ==>
              ClassGrants(kept[table], system, caller, row)
  {
    forall other, caller, row | TableGrants(reader, policies, table, other, caller, row)
      ensures ClassGrants(kept[table], system, caller, row)
    {
      var i :| 0 <= i < |policies| && Supported(reader, policies[i], table) &&
        UsingGrants(reader, policies[i].using, other, caller, row);
      NotPublic(reader, policies, kept, table, i);
      CoveredTermsGrantLess(reader, Terms(reader, policies[i].using), kept[table], system, other, caller, row);
    }
  }
}
