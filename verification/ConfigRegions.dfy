/** Marker-region rendering: scripts/render_config_contract.py.

    A managed region of a file runs from a BEGIN marker to the end of the line of the END marker
    that follows.  Files are sequences of lines; as neither marker holds a newline, the script's
    patterns act on lines. */
module ConfigRegions {
  import opened Collections

  type Lines = seq<string>

  /** The two markers, and the line that a rendering starts its region with. */
  datatype Markers = Markers(begin: string, end: string, beginLine: string)

  // ----- finding a marker -----

  predicate OccursAt(line: string, marker: string, i: nat) {
    i + |marker| <= |line| && line[i..i + |marker|] == marker
  }

  /** The first occurrence at or after `i`, or the length. */
  function FirstIn(line: string, marker: string, i: nat): (k: nat)
    requires i <= |line|
    ensures i <= k <= |line|
    ensures k < |line| ==> OccursAt(line, marker, k)
    ensures forall j :: i <= j < k ==> !OccursAt(line, marker, j)
    decreases |line| - i
  {
    if i == |line| || OccursAt(line, marker, i) then i else FirstIn(line, marker, i + 1)
  }

  predicate Contains(line: string, marker: string) {
    FirstIn(line, marker, 0) < |line|
  }

  lemma ContainsIff(line: string, marker: string)
    requires marker != ""
    ensures Contains(line, marker) <==> exists before, after :: line == before + marker + after
  {
    if Contains(line, marker) {
      var k := FirstIn(line, marker, 0);
      assert line == line[..k] + marker + line[k + |marker|..];
    }
    if before, after :| line == before + marker + after {
      assert line[|before|..|before| + |marker|] == marker;
      assert OccursAt(line, marker, |before|);
    }
  }

  /** The first line from `i` on that contains the marker, or the number of lines. */
  function LineWith(lines: Lines, marker: string, i: nat): (k: nat)
    requires i <= |lines|
    ensures i <= k <= |lines|
    ensures k < |lines| ==> Contains(lines[k], marker)
    ensures forall j :: i <= j < k ==> !Contains(lines[j], marker)
    decreases |lines| - i
  {
    if i == |lines| || Contains(lines[i], marker) then i else LineWith(lines, marker, i + 1)
  }

  ghost predicate Without(lines: Lines, marker: string) {
    forall i :: 0 <= i < |lines| ==> !Contains(lines[i], marker)
  }

  /** The lines of the region's markers: the first BEGIN, and the first END on a later line. */
  function Region(m: Markers, lines: Lines): (r: Option<(nat, nat)>)
    ensures r.Some? ==> r.value.0 < r.value.1 < |lines|
  {
    var b := LineWith(lines, m.begin, 0);
    if b == |lines| then None
    else
      var e := LineWith(lines, m.end, b + 1);
      if e == |lines| then None else Some((b, e))
  }

  /** A region runs from the first line with a BEGIN to the first later line with an END. */
  lemma RegionIff(m: Markers, lines: Lines, b: nat, e: nat)
    ensures Region(m, lines) == Some((b, e)) <==>
      && b < e < |lines| && Contains(lines[b], m.begin) && Contains(lines[e], m.end)
      && (forall j :: 0 <= j < b ==> !Contains(lines[j], m.begin))
      && (forall j :: b < j < e ==> !Contains(lines[j], m.end))
  {
  }

  /** What stands before the BEGIN marker on its line. */
  function Before(m: Markers, line: string): string {
    line[..FirstIn(line, m.begin, 0)]
  }

  ghost predicate Free(line: string, marker: string) {
    forall j :: 0 <= j < |line| ==> !OccursAt(line, marker, j)
  }

  /** The markers and the line that starts a rendered region are not taken for one another, nor for an
      empty line or a header. */
  ghost predicate Plain(m: Markers) {
    && Contains(m.end, m.end) && !Contains(m.beginLine, m.end)
    && !Contains("", m.begin) && !Contains("", m.end)
    && m.end != "" && m.beginLine != "" && m.beginLine[0] != '['
  }

  /** The line that starts a rendered region is found as a BEGIN right where it starts. */
  ghost predicate FoundAfter(m: Markers, pre: string) {
    Contains(pre + m.beginLine, m.begin) && Before(m, pre + m.beginLine) == pre
  }

  /** What the proofs need of the markers: they are plain, and a BEGIN is found after any text that has
      none of its own. */
  ghost predicate Apart(m: Markers) {
    Plain(m) && forall pre :: Free(pre, m.begin) ==> FoundAfter(m, pre)
  }

  lemma BeforeIsFree(m: Markers, line: string)
    ensures Free(Before(m, line), m.begin)
  {
    var pre := Before(m, line);
    forall j | 0 <= j < |pre|
      ensures !OccursAt(pre, m.begin, j)
    {
      if OccursAt(pre, m.begin, j) {
        OccursInPrefix(line, |pre|, m.begin, j);
      }
    }
  }

  lemma OccursInPrefix(line: string, n: nat, marker: string, j: nat)
    requires n <= |line| && OccursAt(line[..n], marker, j)
    ensures OccursAt(line, marker, j)
  {
    assert line[..n][j..j + |marker|] == line[j..j + |marker|];
  }

  // ----- the script's markers -----

  const BEGIN_WORDS := " BEGIN config-contract"
  const BEGIN := "#" + BEGIN_WORDS
  const END := "# END config-contract"
  const GENERATED_BY := " (generated by scripts/" + "render_config_contract" + ".py \U{2014} do not hand-edit)"
  const CONTRACT_MARKERS := Markers(BEGIN, END, BEGIN + GENERATED_BY)

  /** A marker starts with its only '#', so it cannot overlap itself. */
  lemma MarkersStartOnce()
    ensures forall i :: 1 <= i < |BEGIN| ==> BEGIN[i] != '#'
    ensures BEGIN[0] == END[0] == '#' && BEGIN[2] != END[2] && |BEGIN| > 2
  {
    assert '#' !in BEGIN_WORDS;
    forall i | 1 <= i < |BEGIN|
      ensures BEGIN[i] != '#'
    {
      assert BEGIN[i] == BEGIN_WORDS[i - 1];
    }
  }

  lemma NoteHasNoHash()
    ensures '#' !in GENERATED_BY
  {
    assert '#' !in " (generated by scripts/";
    assert '#' !in "render_config_contract";
    assert '#' !in ".py \U{2014} do not hand-edit)";
  }

  lemma BeginDoesNotStraddle(pre: string, note: string, j: nat)
    requires j < |pre| && !OccursAt(pre, BEGIN, j)
    ensures !OccursAt(pre + (BEGIN + note), BEGIN, j)
  {
    var line := pre + (BEGIN + note);
    MarkersStartOnce();
    var k := |pre| - j;
    if j + |BEGIN| <= |pre| {
      assert line[j..j + |BEGIN|] == pre[j..j + |BEGIN|];
    } else {
      assert line[j..j + |BEGIN|][k] == line[|pre|] == '#';
    }
  }

  lemma BeginFoundAfter(pre: string)
    requires Free(pre, BEGIN)
    ensures Contains(pre + CONTRACT_MARKERS.beginLine, BEGIN)
    ensures Before(CONTRACT_MARKERS, pre + CONTRACT_MARKERS.beginLine) == pre
  {
    var line := pre + (BEGIN + GENERATED_BY);
    assert line[|pre|..|pre| + |BEGIN|] == BEGIN;
    assert OccursAt(line, BEGIN, |pre|);
    forall j | 0 <= j < |pre|
      ensures !OccursAt(line, BEGIN, j)
    {
      BeginDoesNotStraddle(pre, GENERATED_BY, j);
    }
    assert FirstIn(line, BEGIN, 0) == |pre|;
  }

  lemma {:induction false} ContractMarkersApart()
    ensures Apart(CONTRACT_MARKERS)
  {
    var line := BEGIN + GENERATED_BY;
    MarkersStartOnce();
    NoteHasNoHash();
    assert OccursAt(END, END, 0);
    forall j | 0 <= j < |line|
      ensures !OccursAt(line, END, j)
    {
      if j + |END| <= |line| {
        assert line[j..j + |END|][0] == line[j];
        assert line[j..j + |END|][2] == line[j + 2];
      }
    }
    forall pre | Free(pre, BEGIN)
      ensures FoundAfter(CONTRACT_MARKERS, pre)
    {
      BeginFoundAfter(pre);
    }
  }

  // ----- replace_block -----

  /** `contentbody.rstrip("\n")`, as lines. */
  function Trimmed(lines: Lines): Lines {
    if |lines| > 1 && lines[|lines| - 1] == "" then Trimmed(lines[..|lines| - 1]) else lines
  }

  /** What is cut off a body are empty lines at its end, and all of them but a first line. */
  lemma {:induction false} TrimmedIs(lines: Lines)
    ensures Trimmed(lines) <= lines && (lines != [] ==> Trimmed(lines) != [])
    ensures forall i :: |Trimmed(lines)| <= i < |lines| ==> lines[i] == ""
    ensures |Trimmed(lines)| > 1 ==> Trimmed(lines)[|Trimmed(lines)| - 1] != ""
  {
    if |lines| > 1 && lines[|lines| - 1] == "" {
      TrimmedIs(lines[..|lines| - 1]);
    }
  }

  /** The lines that are not empty, in order. */
  function NonEmpty(lines: Lines): Lines {
    if lines == [] then []
    else NonEmpty(lines[..|lines| - 1]) + (if lines[|lines| - 1] == "" then [] else [lines[|lines| - 1]])
  }

  lemma {:induction false} NonEmptyConcat(a: Lines, b: Lines)
    ensures NonEmpty(a + b) == NonEmpty(a) + NonEmpty(b)
  {
    if b == [] {
      assert a + b == a;
    } else {
      var n := |b| - 1;
      assert (a + b)[..|a + b| - 1] == a + b[..n] && (a + b)[|a + b| - 1] == b[n];
      NonEmptyConcat(a, b[..n]);
    }
  }

  lemma {:induction false} NoneNonEmpty(lines: Lines)
    requires forall i :: 0 <= i < |lines| ==> lines[i] == ""
    ensures NonEmpty(lines) == []
  {
    if lines != [] {
      NoneNonEmpty(lines[..|lines| - 1]);
    }
  }

  /** Every line of the body that is not empty is kept, in order. */
  lemma TrimmedKeeps(lines: Lines)
    ensures NonEmpty(Trimmed(lines)) == NonEmpty(lines)
  {
    TrimmedIs(lines);
    var n := |Trimmed(lines)|;
    NoneNonEmpty(lines[n..]);
    NonEmptyConcat(lines[..n], lines[n..]);
    assert lines == lines[..n] + lines[n..];
  }

  /** Lines that hold one marked region: what stands before and after it, and its body. */
  function Framed(m: Markers, before: Lines, pre: string, body: Lines, after: Lines): Lines {
    before + [pre + m.beginLine] + body + [m.end] + after
  }

  function WithFinalNewline(lines: Lines): Lines {
    if |lines| >= 2 && lines[|lines| - 1] == "" then lines else lines + [""]
  }

  function ReplaceBlock(m: Markers, lines: Lines, body: Lines): Lines {
    match Region(m, lines)
    case Some((b, e)) => Framed(m, lines[..b], Before(m, lines[b]), Trimmed(body), lines[e + 1..])
    case None => Framed(m, WithFinalNewline(lines), "", Trimmed(body), [""])
  }

  lemma WithFinalNewlineIs(lines: Lines)
    ensures WithFinalNewline(lines) == lines || WithFinalNewline(lines) == lines + [""]
    ensures |lines| >= 2 && lines[|lines| - 1] == "" <==> WithFinalNewline(lines) == lines
    ensures WithFinalNewline(lines)[|WithFinalNewline(lines)| - 1] == ""
  {
  }

  lemma RegionIs(m: Markers, x: Lines, b: nat, e: nat)
    requires b < e < |x| && Contains(x[b], m.begin) && Contains(x[e], m.end)
    requires forall j :: 0 <= j < b ==> !Contains(x[j], m.begin)
    requires forall j :: b < j < e ==> !Contains(x[j], m.end)
    ensures Region(m, x) == Some((b, e))
  {
    assert LineWith(x, m.begin, 0) == b;
    assert LineWith(x, m.end, b + 1) == e;
  }

  lemma RegionOfFramed(m: Markers, before: Lines, pre: string, body: Lines, after: Lines)
    requires Apart(m) && Without(before, m.begin) && Without(body, m.end) && Free(pre, m.begin)
    ensures var x := Framed(m, before, pre, body, after);
            var b, e := |before|, |before| + 1 + |body|;
            && Region(m, x) == Some((b, e)) && x[..b] == before && Before(m, x[b]) == pre
            && x[b + 1..e] == body && x[e + 1..] == after
  {
    assert FoundAfter(m, pre);
    RegionIs(m, Framed(m, before, pre, body, after), |before|, |before| + 1 + |body|);
  }

  /** Rendering installs the body between the markers and leaves every line outside the region,
      and the text before the BEGIN marker, as it was. */
  lemma RegionInstalled(m: Markers, lines: Lines, body: Lines)
    requires Apart(m) && Region(m, lines).Some? && Without(Trimmed(body), m.end)
    ensures var (b, e) := Region(m, lines).value;
            var x, n := ReplaceBlock(m, lines, body), b + 1 + |Trimmed(body)|;
            && Region(m, x) == Some((b, n)) && x[b + 1..n] == Trimmed(body)
            && x[..b] == lines[..b] && x[n + 1..] == lines[e + 1..]
            && Before(m, x[b]) == Before(m, lines[b])
  {
    var (b, e) := Region(m, lines).value;
    var before, pre, inner, after := lines[..b], Before(m, lines[b]), Trimmed(body), lines[e + 1..];
    BeforeIsFree(m, lines[b]);
    assert Without(before, m.begin);
    RegionOfFramed(m, before, pre, inner, after);
    assert ReplaceBlock(m, lines, body) == Framed(m, before, pre, inner, after);
  }

  /** The region of a text holds every line of a body that is not empty, in order, and no other. */
  ghost predicate HoldsBody(m: Markers, lines: Lines, body: Lines) {
    Region(m, lines).Some? &&
    var (b, e) := Region(m, lines).value;
    NonEmpty(lines[b + 1..e]) == NonEmpty(body)
  }

  /** So does the text that is rendered with that body. */
  lemma BodyInstalled(m: Markers, lines: Lines, body: Lines)
    requires Apart(m) && Without(Trimmed(body), m.end) && (Region(m, lines).Some? || Without(lines, m.begin))
    ensures HoldsBody(m, ReplaceBlock(m, lines, body), body)
  {
    if Region(m, lines).Some? {
      RegionInstalled(m, lines, body);
      RegionBody(m, ReplaceBlock(m, lines, body), body, Region(m, lines).value.0,
                 Region(m, lines).value.0 + 1 + |Trimmed(body)|);
    } else {
      BodyAppended(m, lines, body);
    }
  }

  lemma RegionBody(m: Markers, lines: Lines, body: Lines, b: nat, e: nat)
    requires b < e < |lines| && Region(m, lines) == Some((b, e)) && lines[b + 1..e] == Trimmed(body)
    ensures HoldsBody(m, lines, body)
  {
    TrimmedKeeps(body);
  }

  lemma BodyAppended(m: Markers, lines: Lines, body: Lines)
    requires Apart(m) && Without(Trimmed(body), m.end) && Without(lines, m.begin)
    ensures HoldsBody(m, ReplaceBlock(m, lines, body), body)
  {
    var before := WithFinalNewline(lines);
    RegionOfFramed(m, before, "", Trimmed(body), [""]);
    RegionBody(m, Framed(m, before, "", Trimmed(body), [""]), body, |before|, |before| + 1 + |Trimmed(body)|);
  }

  /** Without a region the block is appended after an empty line, and nothing else changes. */
  lemma BlockAppended(m: Markers, lines: Lines, body: Lines)
    requires Region(m, lines).None?
    ensures ReplaceBlock(m, lines, body)
      == WithFinalNewline(lines) + [m.beginLine] + Trimmed(body) + [m.end] + [""]
  {
    assert "" + m.beginLine == m.beginLine;
  }

  /** Rendering twice is rendering once exactly when the text has a whole region or no BEGIN
      marker at all: a stray BEGIN swallows everything up to the appended block. */
  lemma ReplaceIsIdempotentIff(m: Markers, lines: Lines, body: Lines)
    requires Apart(m) && Without(Trimmed(body), m.end)
    ensures var once := ReplaceBlock(m, lines, body);
            ReplaceBlock(m, once, body) == once <==> Region(m, lines).Some? || Without(lines, m.begin)
  {
    if Region(m, lines).Some? {
      RegionInstalled(m, lines, body);
    } else if Without(lines, m.begin) {
      RegionOfFramed(m, WithFinalNewline(lines), "", Trimmed(body), [""]);
    } else {
      StrayBegin(m, lines, body);
    }
  }

  /** With a BEGIN but no END after it, the second rendering is shorter than the first. */
  lemma StrayBegin(m: Markers, lines: Lines, body: Lines)
    requires Apart(m) && Region(m, lines).None? && !Without(lines, m.begin) && Without(Trimmed(body), m.end)
    ensures var once := ReplaceBlock(m, lines, body); |ReplaceBlock(m, once, body)| < |once|
  {
    var text, once := WithFinalNewline(lines), ReplaceBlock(m, lines, body);
    var b := LineWith(lines, m.begin, 0);
    var e := |text| + 1 + |Trimmed(body)|;
    assert "" + m.beginLine == m.beginLine;
    assert LineWith(lines, m.end, b + 1) == |lines|;
    RegionIs(m, once, b, e);
  }

  // ----- replace_vars_block -----

  predicate IsHeader(line: string) {
    line != "" && line[0] == '['
  }

  /** The pattern for the [vars] header: the word alone on its line, up to white space. */
  function VarsHeader(space: char -> bool): string -> bool {
    line => |line| >= 6 && line[..6] == "[vars]" && forall i :: 6 <= i < |line| ==> space(line[i])
  }

  ghost predicate AreHeaders(isVars: string -> bool) {
    forall line :: isVars(line) ==> IsHeader(line)
  }

  lemma VarsHeaderIsHeader(space: char -> bool)
    ensures AreHeaders(VarsHeader(space))
  {
    forall line | VarsHeader(space)(line)
      ensures IsHeader(line)
    {
      assert line[..6][0] == line[0];
    }
  }

  /** The header is the word, and then white space. */
  lemma VarsHeaderIs(space: char -> bool, line: string)
    ensures VarsHeader(space)(line) <==>
      exists rest :: line == "[vars]" + rest && forall i :: 0 <= i < |rest| ==> space(rest[i])
  {
    if VarsHeader(space)(line) {
      assert line == "[vars]" + line[6..];
    }
    if rest :| line == "[vars]" + rest && forall i :: 0 <= i < |rest| ==> space(rest[i]) {
      assert line[..6] == "[vars]";
      assert forall i :: 6 <= i < |line| ==> line[i] == rest[i - 6];
    }
  }

  /** The first line from `i` on that satisfies `p`, or the number of lines. */
  function FirstWhere(lines: Lines, p: string -> bool, i: nat): (k: nat)
    requires i <= |lines|
    ensures i <= k <= |lines|
    ensures k < |lines| ==> p(lines[k])
    ensures forall j :: i <= j < k ==> !p(lines[j])
    decreases |lines| - i
  {
    if i == |lines| || p(lines[i]) then i else FirstWhere(lines, p, i + 1)
  }

  function DropTrailing(lines: Lines): Lines {
    if lines != [] && lines[|lines| - 1] == "" then DropTrailing(lines[..|lines| - 1]) else lines
  }

  /** `re.sub(r"\n{3,}", "\n\n", …)` after the first line: no empty line follows an empty one. */
  function Squeeze(afterEmpty: bool, lines: Lines): Lines
    decreases |lines|
  {
    if lines == [] then []
    else if lines[0] == "" && afterEmpty then Squeeze(true, lines[1..])
    else [lines[0]] + Squeeze(lines[0] == "", lines[1..])
  }

  /** On a whole text, whose first line has no newline before it. */
  function Collapse(lines: Lines): Lines {
    if lines == [] then [] else [lines[0]] + Squeeze(false, lines[1..])
  }

  function StripRegion(m: Markers, lines: Lines): Lines {
    match Region(m, lines)
    case Some((b, e)) => lines[..b] + [Before(m, lines[b])] + lines[e + 1..]
    case None => lines
  }

  /** `re.sub(…).rstrip("\n") + "\n"`. */
  function Finish(lines: Lines): Lines {
    DropTrailing(Collapse(lines)) + [""]
  }

  function WithBlock(m: Markers, head: Lines, body: Lines, tail: Lines): Lines {
    Finish(head + ["", m.beginLine] + Trimmed(body) + [m.end] + tail)
  }

  /** None stands for the script's "no [vars] table found". */
  function ReplaceVarsBlock(m: Markers, isVars: string -> bool, lines: Lines, body: Lines): Option<Lines> {
    var text := StripRegion(m, lines);
    var v := FirstWhere(text, isVars, 0);
    if v == |text| then None
    else
      var h := FirstWhere(text, IsHeader, v + 1);
      Some(WithBlock(m, DropTrailing(text[..h]), body, if h == |text| then [""] else text[h..]))
  }

  // ----- empty lines -----

  lemma {:induction false} SqueezeConcat(p: bool, a: Lines, b: Lines)
    ensures Squeeze(p, a + b) == Squeeze(p, a) + Squeeze(if a == [] then p else a[|a| - 1] == "", b)
    decreases |a|
  {
    if a == [] {
      assert a + b == b;
    } else {
      assert (a + b)[1..] == a[1..] + b;
      SqueezeConcat(a[0] == "", a[1..], b);
    }
  }

  lemma {:induction false} SqueezeShorter(p: bool, a: Lines)
    ensures |Squeeze(p, a)| <= |a|
    ensures forall line :: line in Squeeze(p, a) ==> line in a
    decreases |a|
  {
    if a != [] {
      SqueezeShorter(a[0] == "", a[1..]);
    }
  }

  lemma {:induction false} SqueezeIdempotent(p: bool, a: Lines)
    ensures Squeeze(p, Squeeze(p, a)) == Squeeze(p, a)
    decreases |a|
  {
    if a != [] {
      if a[0] == "" && p {
        SqueezeIdempotent(true, a[1..]);
      } else {
        SqueezeIdempotent(a[0] == "", a[1..]);
        assert ([a[0]] + Squeeze(a[0] == "", a[1..]))[1..] == Squeeze(a[0] == "", a[1..]);
      }
    }
  }

  /** Squeezing leaves no two empty lines together, and out only empty lines. */
  lemma {:induction false} SqueezeIs(p: bool, a: Lines)
    ensures NonEmpty(Squeeze(p, a)) == NonEmpty(a)
    ensures NoTwoEmpty(p, Squeeze(p, a))
    decreases |a|
  {
    if a != [] {
      var first, rest := a[0], a[1..];
      assert a == [first] + rest;
      NonEmptyConcat([first], rest);
      if first == "" && p {
        SqueezeIs(true, rest);
      } else {
        SqueezeIs(first == "", rest);
        NonEmptyConcat([first], Squeeze(first == "", rest));
      }
    }
  }

  /** No empty line stands first, if `p`, or after another. */
  predicate NoTwoEmpty(p: bool, a: Lines) {
    (p && a != [] ==> a[0] != "") && forall i, j :: 0 <= i < j == i + 1 < |a| ==> a[i] != "" || a[j] != ""
  }

  /** A text without two empty lines together stays as it is. */
  lemma {:induction false} SqueezeKeepsSingles(p: bool, a: Lines)
    requires NoTwoEmpty(p, a)
    ensures Squeeze(p, a) == a
    decreases |a|
  {
    if a != [] {
      SqueezeKeepsSingles(a[0] == "", a[1..]);
    }
  }

  lemma DropTrailingKeeps(a: Lines)
    ensures NonEmpty(DropTrailing(a)) == NonEmpty(a)
  {
    if a != [] && a[|a| - 1] == "" {
      DropTrailingKeeps(a[..|a| - 1]);
    }
  }

  lemma FinishKeeps(a: Lines)
    ensures NonEmpty(Finish(a)) == NonEmpty(a)
  {
    if a != [] {
      SqueezeIs(false, a[1..]);
      assert a == [a[0]] + a[1..];
      NonEmptyConcat([a[0]], a[1..]);
      NonEmptyConcat([a[0]], Squeeze(false, a[1..]));
    }
    DropTrailingKeeps(Collapse(a));
    NonEmptyConcat(DropTrailing(Collapse(a)), [""]);
  }

  /** A prefix of a squeezed text is squeezed. */
  lemma SqueezedPrefix(p: bool, a: Lines, b: Lines)
    requires Squeeze(p, a + b) == a + b
    ensures Squeeze(p, a) == a
  {
    SqueezeConcat(p, a, b);
    SqueezeShorter(p, a);
    SqueezeShorter(if a == [] then p else a[|a| - 1] == "", b);
    assert |Squeeze(p, a)| == |a|;
    assert (a + b)[..|a|] == a;
  }

  /** The last line of a text that does not end empty survives squeezing, as its last line. */
  lemma SqueezeKeepsLast(p: bool, a: Lines)
    requires a != [] && a[|a| - 1] != ""
    ensures Squeeze(p, a) != [] && Squeeze(p, a)[|Squeeze(p, a)| - 1] == a[|a| - 1]
  {
    var n := |a| - 1;
    assert a == a[..n] + [a[n]];
    SqueezeConcat(p, a[..n], [a[n]]);
  }

  lemma CollapseConcat(a: Lines, b: Lines)
    requires a != [] && a[|a| - 1] != ""
    ensures Collapse(a + b) == Collapse(a) + Squeeze(false, b)
  {
    assert (a + b)[1..] == a[1..] + b;
    SqueezeConcat(false, a[1..], b);
  }

  lemma CollapseIdempotent(a: Lines)
    ensures Collapse(Collapse(a)) == Collapse(a)
  {
    if a != [] {
      SqueezeIdempotent(false, a[1..]);
      assert ([a[0]] + Squeeze(false, a[1..]))[1..] == Squeeze(false, a[1..]);
    }
  }

  lemma {:induction false} DropTrailingIs(a: Lines)
    ensures DropTrailing(a) != [] ==> DropTrailing(a)[|DropTrailing(a)| - 1] != ""
    ensures |DropTrailing(a)| <= |a| && a[..|DropTrailing(a)|] == DropTrailing(a)
    ensures DropTrailing(a + [""]) == DropTrailing(a)
    ensures a != [] && a[|a| - 1] != "" ==> DropTrailing(a) == a
  {
    assert (a + [""])[..|a|] == a;
    if a != [] && a[|a| - 1] == "" {
      DropTrailingIs(a[..|a| - 1]);
    }
  }

  lemma {:induction false} DropTrailingConcat(a: Lines, b: Lines)
    requires a != [] && a[|a| - 1] != ""
    ensures DropTrailing(a + b) == a + DropTrailing(b)
  {
    if b != [] && b[|b| - 1] == "" {
      assert (a + b)[..|a + b| - 1] == a + b[..|b| - 1];
      DropTrailingConcat(a, b[..|b| - 1]);
    }
  }

  // ----- rendering [vars] twice -----

  /** A text around its [vars] header: nothing before it is one, no header between it and `tail`,
      and `tail` starts with a header or is the end of the text. */
  ghost predicate Parts(isVars: string -> bool, before: Lines, vars: string, between: Lines, tail: Lines) {
    && isVars(vars)
    && (forall i :: 0 <= i < |before| ==> !isVars(before[i]))
    && (forall i :: 0 <= i < |between| ==> !IsHeader(between[i]))
    && (tail == [] || IsHeader(tail[0]))
  }

  /** What follows the block: the next header on, or the end of the text. */
  function TailOf(tail: Lines): Lines {
    if tail == [] then [""] else tail
  }

  lemma CutTwice<T>(s: seq<T>, v: nat, h: nat)
    requires v < h <= |s|
    ensures s == s[..v] + [s[v]] + s[v + 1..h] + s[h..]
  {
  }

  lemma PartsOf(isVars: string -> bool, text: Lines, v: nat, h: nat)
    requires v < h <= |text| && isVars(text[v])
    requires (forall j :: 0 <= j < v ==> !isVars(text[j])) && (forall j :: v < j < h ==> !IsHeader(text[j]))
    requires h < |text| ==> IsHeader(text[h])
    ensures Parts(isVars, text[..v], text[v], text[v + 1..h], text[h..])
  {
    var between := text[v + 1..h];
    forall i | 0 <= i < |between|
      ensures !IsHeader(between[i])
    {
      assert between[i] == text[v + 1 + i];
    }
  }

  lemma FirstVars(isVars: string -> bool, before: Lines, vars: string, rest: Lines)
    requires isVars(vars) && forall i :: 0 <= i < |before| ==> !isVars(before[i])
    ensures FirstWhere(before + [vars] + rest, isVars, 0) == |before|
  {
    var text := before + [vars] + rest;
    assert text[|before|] == vars && forall j :: 0 <= j < |before| ==> text[j] == before[j];
  }

  lemma NoHeaderIn(head: Lines, between: Lines, rest: Lines)
    requires forall i :: 0 <= i < |between| ==> !IsHeader(between[i])
    ensures FirstWhere(head + between + rest, IsHeader, |head|) >= |head| + |between|
    ensures rest == [] || IsHeader(rest[0]) ==>
      FirstWhere(head + between + rest, IsHeader, |head|) == |head| + |between|
  {
    var text := head + between + rest;
    assert forall j :: |head| <= j < |head| + |between| ==> text[j] == between[j - |head|];
    assert rest != [] ==> text[|head| + |between|] == rest[0];
  }

  lemma ReplacedParts(m: Markers, isVars: string -> bool, lines: Lines, body: Lines,
                      before: Lines, vars: string, between: Lines, tail: Lines)
    requires AreHeaders(isVars) && Parts(isVars, before, vars, between, tail)
    requires StripRegion(m, lines) == before + [vars] + between + tail
    ensures ReplaceVarsBlock(m, isVars, lines, body)
            == Some(WithBlock(m, before + [vars] + DropTrailing(between), body, TailOf(tail)))
  {
    var text := StripRegion(m, lines);
    var head := before + [vars];
    assert head + between + tail == head + (between + tail);
    FirstVars(isVars, before, vars, between + tail);
    NoHeaderIn(head, between, tail);
    CutAfter(head + between, tail);
    assert IsHeader(vars);
    DropTrailingConcat(head, between);
  }

  lemma CutAfter(a: Lines, b: Lines)
    ensures (a + b)[..|a|] == a && (a + b)[|a|..] == b
  {
  }

  /** The rendered text, part by part. */
  lemma Rendered(m: Markers, head: Lines, body: Lines, tail: Lines)
    requires Plain(m) && head != [] && head[|head| - 1] != ""
    ensures WithBlock(m, head, body, tail)
            == Framed(m, Collapse(head) + [""], "", Squeeze(false, Trimmed(body)),
                      DropTrailing(Squeeze(false, tail)) + [""])
  {
    var content := Trimmed(body);
    var inner, after, top := Squeeze(false, content), Squeeze(false, tail), Collapse(head);
    Regroup(head, "", m.beginLine, content, m.end, tail);
    CollapseConcat(head, [""] + ([m.beginLine] + (content + ([m.end] + tail))));
    SqueezeBlock(m, content, tail);
    Regroup(top, "", m.beginLine, inner, m.end, after);
    var framed := top + ["", m.beginLine] + inner + [m.end];
    assert framed[|framed| - 1] == m.end;
    DropTrailingConcat(framed, after);
    assert "" + m.beginLine == m.beginLine;
    Regroup(top, "", m.beginLine, inner, m.end, DropTrailing(after) + [""]);
    assert framed + DropTrailing(after) + [""] == framed + (DropTrailing(after) + [""]);
  }

  lemma Regroup(a: Lines, x: string, y: string, b: Lines, z: string, c: Lines)
    ensures a + [x, y] + b + [z] + c == a + ([x] + ([y] + (b + ([z] + c))))
    ensures a + [x, y] + b + [z] + c == a + [x] + [y] + b + [z] + c
  {
    assert [x, y] == [x] + [y];
  }

  lemma SqueezeBlock(m: Markers, body: Lines, tail: Lines)
    requires Plain(m)
    ensures Squeeze(false, [""] + ([m.beginLine] + (body + ([m.end] + tail))))
            == [""] + ([m.beginLine] + (Squeeze(false, body) + ([m.end] + Squeeze(false, tail))))
  {
    SqueezeConcat(false, body, [m.end] + tail);
  }

  /** The text up to the block: one [vars] header, no header after it, and no marker. */
  ghost predicate Clean(m: Markers, isVars: string -> bool, before: Lines, vars: string, between: Lines) {
    && isVars(vars) && !Contains(vars, m.begin)
    && (forall i :: 0 <= i < |before| ==> !isVars(before[i]) && !Contains(before[i], m.begin))
    && (forall i :: 0 <= i < |between| ==> !IsHeader(between[i]) && !Contains(between[i], m.begin))
  }

  /** The parts of a rendered text, once its block is stripped again. */
  lemma StrippedAgain(m: Markers, isVars: string -> bool, before: Lines, vars: string, between: Lines, inner: Lines,
                      after: Lines)
    requires Apart(m) && Clean(m, isVars, before, vars, between) && Without(inner, m.end)
    ensures var once := Settled(m, before, vars, between, inner, after);
            && Region(m, once) == Some((|before| + |between| + 2, |before| + |between| + 3 + |inner|))
            && StripRegion(m, once) == before + [vars] + (between + ["", ""]) + after
  {
    var top := before + [vars] + between + [""];
    assert before + [vars] + between + [""] + [] == top;
    RegionOfFramed(m, top, "", inner, after);
    assert top + [""] + after == before + [vars] + (between + ["", ""]) + after;
  }

  /** A rendered file, as the parts around its [vars] header and its block. */
  ghost function Settled(m: Markers, before: Lines, vars: string, between: Lines, inner: Lines, after: Lines): Lines {
    Framed(m, before + [vars] + between + [""], "", inner, after)
  }

  lemma CollapseShorter(a: Lines)
    ensures forall line :: line in Collapse(a) ==> line in a
  {
    if a != [] {
      SqueezeShorter(false, a[1..]);
    }
  }

  lemma CollapseParts(before: Lines, vars: string, between: Lines)
    requires vars != ""
    ensures Collapse(before + [vars] + between) == Collapse(before) + [vars] + Squeeze(false, between)
  {
    CollapseConcat(before + [vars], between);
    CollapseSnoc(before, vars);
  }

  lemma CollapseSnoc(before: Lines, last: string)
    requires last != ""
    ensures Collapse(before + [last]) == Collapse(before) + [last]
  {
    if before == [] {
      assert before + [last] == [last];
    } else {
      var first, rest := before[0], before[1..];
      assert (before + [last])[0] == first && (before + [last])[1..] == rest + [last];
      SqueezeConcat(false, rest, [last]);
      assert [last] + [] == [last];
      assert [first] + (Squeeze(false, rest) + [last]) == [first] + Squeeze(false, rest) + [last];
    }
  }

  /** What follows the block settles in one rendering. */
  lemma TailSettles(tail: Lines)
    requires tail == [] || IsHeader(tail[0])
    ensures var once := DropTrailing(Squeeze(false, TailOf(tail))) + [""];
            && Squeeze(false, once) == once && DropTrailing(once) + [""] == once
            && (if tail == [] then once == [""] else |once| > 1 && IsHeader(once[0]))
  {
    var squeezed := Squeeze(false, TailOf(tail));
    DropTrailingIs(squeezed);
    DropTrailingIs(DropTrailing(squeezed));
    SqueezeIdempotent(false, TailOf(tail));
    KeptIsSqueezed(squeezed, DropTrailing(squeezed));
    if tail == [] {
      assert squeezed == [""];
      assert DropTrailing([]) == [];
    } else {
      assert [tail[0]] + tail[1..] == tail;
      HeadSurvives(squeezed);
    }
  }

  lemma KeptIsSqueezed(squeezed: Lines, kept: Lines)
    requires Squeeze(false, squeezed) == squeezed && |kept| <= |squeezed| && squeezed[..|kept|] == kept
    requires kept != [] ==> kept[|kept| - 1] != ""
    ensures Squeeze(false, kept + [""]) == kept + [""]
  {
    assert squeezed == kept + squeezed[|kept|..];
    SqueezedPrefix(false, kept, squeezed[|kept|..]);
    SqueezeConcat(false, kept, [""]);
  }

  lemma {:induction false} HeadSurvives(a: Lines)
    requires a != [] && a[0] != ""
    ensures DropTrailing(a) != [] && DropTrailing(a)[0] == a[0]
  {
    if a[|a| - 1] == "" {
      HeadSurvives(a[..|a| - 1]);
    }
  }

  /** What stands between the header and the block settles too. */
  lemma BetweenSettles(between: Lines)
    ensures var once := Squeeze(false, DropTrailing(between));
            DropTrailing(once + ["", ""]) == once && DropTrailing(once + ["", "", ""]) == once
  {
    var kept := DropTrailing(between);
    var once := Squeeze(false, kept);
    DropTrailingIs(between);
    if kept != [] {
      SqueezeKeepsLast(false, kept);
    }
    DropTrailingIs(once);
    DropMoreTrailing(once);
  }

  lemma DropMoreTrailing(a: Lines)
    ensures DropTrailing(a + ["", ""]) == DropTrailing(a) && DropTrailing(a + ["", "", ""]) == DropTrailing(a)
  {
    assert a + [""] + [""] == a + ["", ""] && a + ["", ""] + [""] == a + ["", "", ""];
    DropTrailingIs(a);
    DropTrailingIs(a + [""]);
    DropTrailingIs(a + ["", ""]);
  }

  lemma RenderIsSettled(m: Markers, before: Lines, vars: string, kept: Lines, body: Lines, tail: Lines)
    requires Plain(m) && vars != "" && (kept != [] ==> kept[|kept| - 1] != "")
    ensures WithBlock(m, before + [vars] + kept, body, tail)
            == Settled(m, Collapse(before), vars, Squeeze(false, kept), Squeeze(false, Trimmed(body)),
                       DropTrailing(Squeeze(false, tail)) + [""])
  {
    Rendered(m, before + [vars] + kept, body, tail);
    CollapseParts(before, vars, kept);
  }

  lemma NoneOfFewer(a: Lines, b: Lines, p: string -> bool)
    requires (forall line :: line in a ==> line in b) && forall i :: 0 <= i < |b| ==> !p(b[i])
    ensures forall i :: 0 <= i < |a| ==> !p(a[i])
  {
    forall i | 0 <= i < |a|
      ensures !p(a[i])
    {
      assert a[i] in b;
    }
  }

  /** Dropping empty lines brings in no marker and no header. */
  lemma SqueezedIsClean(m: Markers, isVars: string -> bool, before: Lines, vars: string, between: Lines, body: Lines)
    requires Clean(m, isVars, before, vars, between) && Without(body, m.end)
    ensures Clean(m, isVars, Collapse(before), vars, Squeeze(false, DropTrailing(between)))
    ensures Without(Squeeze(false, body), m.end)
  {
    CollapseShorter(before);
    NoneOfFewer(Collapse(before), before, line => isVars(line) || Contains(line, m.begin));
    DropTrailingIs(between);
    SqueezeShorter(false, DropTrailing(between));
    NoneOfFewer(Squeeze(false, DropTrailing(between)), between, line => IsHeader(line) || Contains(line, m.begin));
    SqueezeShorter(false, body);
    NoneOfFewer(Squeeze(false, body), body, line => Contains(line, m.end));
  }

  /** Rendering a settled file replaces its block and moves nothing: no header after the block. */
  lemma SettledAtEnd(m: Markers, isVars: string -> bool, before: Lines, vars: string, between: Lines, inner: Lines,
                     body: Lines)
    requires Apart(m) && AreHeaders(isVars) && Clean(m, isVars, before, vars, between) && Without(inner, m.end)
    requires DropTrailing(between + ["", "", ""]) == between
    ensures ReplaceVarsBlock(m, isVars, Settled(m, before, vars, between, inner, [""]), body)
            == Some(WithBlock(m, before + [vars] + between, body, [""]))
  {
    var once := Settled(m, before, vars, between, inner, [""]);
    StrippedAtEnd(m, isVars, before, vars, between, inner);
    ReplacedParts(m, isVars, once, body, before, vars, between + ["", "", ""], []);
  }

  lemma StrippedAtEnd(m: Markers, isVars: string -> bool, before: Lines, vars: string, between: Lines, inner: Lines)
    requires Apart(m) && Clean(m, isVars, before, vars, between) && Without(inner, m.end)
    ensures StripRegion(m, Settled(m, before, vars, between, inner, [""]))
      == before + [vars] + (between + ["", "", ""]) + []
  {
    StrippedAgain(m, isVars, before, vars, between, inner, [""]);
  }

  /** The same with a header after the block. */
  lemma SettledBeforeHeader(m: Markers, isVars: string -> bool, before: Lines, vars: string, between: Lines,
                            inner: Lines, after: Lines, body: Lines)
    requires Apart(m) && AreHeaders(isVars) && Clean(m, isVars, before, vars, between) && Without(inner, m.end)
    requires DropTrailing(between + ["", ""]) == between && after != [] && IsHeader(after[0])
    ensures ReplaceVarsBlock(m, isVars, Settled(m, before, vars, between, inner, after), body)
            == Some(WithBlock(m, before + [vars] + between, body, after))
  {
    var once := Settled(m, before, vars, between, inner, after);
    StrippedAgain(m, isVars, before, vars, between, inner, after);
    ReplacedParts(m, isVars, once, body, before, vars, between + ["", ""], after);
  }

  /** Rendering a well-formed file again changes nothing. */
  lemma VarsRenderSettles(m: Markers, isVars: string -> bool, before: Lines, vars: string, between: Lines,
                          tail: Lines, body: Lines)
    requires Apart(m) && AreHeaders(isVars) && Clean(m, isVars, before, vars, between)
    requires (tail == [] || IsHeader(tail[0])) && Without(Trimmed(body), m.end)
    ensures var once := WithBlock(m, before + [vars] + DropTrailing(between), body, TailOf(tail));
            ReplaceVarsBlock(m, isVars, once, body) == Some(once)
  {
    var kept := DropTrailing(between);
    var after := DropTrailing(Squeeze(false, TailOf(tail))) + [""];
    assert IsHeader(vars);
    DropTrailingIs(between);
    RenderIsSettled(m, before, vars, kept, body, TailOf(tail));
    SqueezedIsClean(m, isVars, before, vars, between, Trimmed(body));
    BetweenSettles(between);
    TailSettles(tail);
    if tail == [] {
      SettledAtEnd(m, isVars, Collapse(before), vars, Squeeze(false, kept), Squeeze(false, Trimmed(body)), body);
    } else {
      SettledBeforeHeader(m, isVars, Collapse(before), vars, Squeeze(false, kept), Squeeze(false, Trimmed(body)),
                          after, body);
    }
    SettledAgain(m, before, vars, kept, body, after);
  }

  lemma SettledAgain(m: Markers, before: Lines, vars: string, kept: Lines, body: Lines, after: Lines)
    requires Plain(m) && vars != "" && (kept != [] ==> kept[|kept| - 1] != "")
    ensures WithBlock(m, Collapse(before) + [vars] + Squeeze(false, kept), body, after)
            == Settled(m, Collapse(before), vars, Squeeze(false, kept), Squeeze(false, Trimmed(body)),
                       DropTrailing(Squeeze(false, after)) + [""])
  {
    if kept != [] {
      SqueezeKeepsLast(false, kept);
    }
    RenderIsSettled(m, Collapse(before), vars, Squeeze(false, kept), body, after);
    CollapseIdempotent(before);
    SqueezeIdempotent(false, kept);
  }

  /** Once any region is stripped: the text up to the header that follows [vars]. */
  function VarsTop(m: Markers, isVars: string -> bool, lines: Lines): Lines {
    var text := StripRegion(m, lines);
    var v := FirstWhere(text, isVars, 0);
    if v == |text| then text else text[..FirstWhere(text, IsHeader, v + 1)]
  }

  /** The parts of a file around its first [vars] header, once any region is stripped. */
  lemma FileParts(m: Markers, isVars: string -> bool, lines: Lines, body: Lines)
    returns (before: Lines, vars: string, between: Lines, tail: Lines)
    requires AreHeaders(isVars) && ReplaceVarsBlock(m, isVars, lines, body).Some?
    ensures Parts(isVars, before, vars, between, tail)
    ensures VarsTop(m, isVars, lines) == before + [vars] + between
    ensures StripRegion(m, lines) == VarsTop(m, isVars, lines) + tail
    ensures ReplaceVarsBlock(m, isVars, lines, body)
            == Some(WithBlock(m, before + [vars] + DropTrailing(between), body, TailOf(tail)))
  {
    var text := StripRegion(m, lines);
    var v := FirstWhere(text, isVars, 0);
    var h := FirstWhere(text, IsHeader, v + 1);
    before, vars, between, tail := text[..v], text[v], text[v + 1..h], text[h..];
    PartsOf(isVars, text, v, h);
    CutTwice(text, v, h);
    ReplacedParts(m, isVars, lines, body, before, vars, between, tail);
  }

  lemma PiecesAreClean(m: Markers, isVars: string -> bool, before: Lines, vars: string, between: Lines, tail: Lines)
    requires Parts(isVars, before, vars, between, tail) && Without(before + [vars] + between, m.begin)
    ensures Clean(m, isVars, before, vars, between)
  {
    var top := before + [vars] + between;
    assert top[|before|] == vars;
    assert forall i :: 0 <= i < |before| ==> top[i] == before[i];
    assert forall i :: 0 <= i < |between| ==> top[|before| + 1 + i] == between[i];
  }

  /** Rendering [vars] twice is rendering it once when no BEGIN is left up to the block: one further
      down in the file does no harm. */
  lemma VarsIdempotent(m: Markers, isVars: string -> bool, lines: Lines, body: Lines)
    requires Apart(m) && AreHeaders(isVars) && Without(Trimmed(body), m.end)
    requires ReplaceVarsBlock(m, isVars, lines, body).Some? && Without(VarsTop(m, isVars, lines), m.begin)
    ensures var once := ReplaceVarsBlock(m, isVars, lines, body).value;
            ReplaceVarsBlock(m, isVars, once, body) == Some(once)
  {
    var before, vars, between, tail := FileParts(m, isVars, lines, body);
    PiecesAreClean(m, isVars, before, vars, between, tail);
    VarsRenderSettles(m, isVars, before, vars, between, tail, body);
  }

  /** What follows the block of a rendered file. */
  function AfterBlock(tail: Lines): Lines {
    DropTrailing(Squeeze(false, TailOf(tail))) + [""]
  }

  lemma RenderedParts(m: Markers, isVars: string -> bool, lines: Lines, body: Lines)
    returns (before: Lines, vars: string, between: Lines, tail: Lines)
    requires Apart(m) && AreHeaders(isVars) && ReplaceVarsBlock(m, isVars, lines, body).Some?
    ensures Parts(isVars, before, vars, between, tail)
    ensures VarsTop(m, isVars, lines) == before + [vars] + between
    ensures StripRegion(m, lines) == VarsTop(m, isVars, lines) + tail
    ensures ReplaceVarsBlock(m, isVars, lines, body)
            == Some(Settled(m, Collapse(before), vars, Squeeze(false, DropTrailing(between)),
                            Squeeze(false, Trimmed(body)), AfterBlock(tail)))
  {
    before, vars, between, tail := FileParts(m, isVars, lines, body);
    DropTrailingIs(between);
    assert IsHeader(vars);
    RenderIsSettled(m, before, vars, DropTrailing(between), body, TailOf(tail));
  }

  /** The script's closing assertion: a BEGIN stands between the first [vars] header and the next header. */
  ghost predicate AssertionHolds(m: Markers, isVars: string -> bool, once: Lines) {
    var v := FirstWhere(once, isVars, 0);
    v < |once| && exists k :: v < k < FirstWhere(once, IsHeader, v + 1) && Contains(once[k], m.begin)
  }

  /** The region stands there. */
  ghost predicate RegionInVars(m: Markers, isVars: string -> bool, once: Lines) {
    var v := FirstWhere(once, isVars, 0);
    v < |once| && Region(m, once).Some? && v < Region(m, once).value.0 < FirstWhere(once, IsHeader, v + 1)
  }

  /** The assertion never fails, whatever markers the file holds. */
  lemma VarsAssertionHolds(m: Markers, isVars: string -> bool, lines: Lines, body: Lines)
    requires Apart(m) && AreHeaders(isVars) && ReplaceVarsBlock(m, isVars, lines, body).Some?
    ensures AssertionHolds(m, isVars, ReplaceVarsBlock(m, isVars, lines, body).value)
  {
    var before, vars, between, tail := RenderedParts(m, isVars, lines, body);
    SqueezedHeaders(isVars, before, between);
    BeginLineBegins(m);
    SettledAsserts(m, isVars, Collapse(before), vars, Squeeze(false, DropTrailing(between)),
                   Squeeze(false, Trimmed(body)), AfterBlock(tail));
  }

  lemma SettledAsserts(m: Markers, isVars: string -> bool, before: Lines, vars: string, between: Lines,
                       inner: Lines, after: Lines)
    requires Contains(m.beginLine, m.begin) && !IsHeader(m.beginLine) && isVars(vars)
    requires forall i :: 0 <= i < |before| ==> !isVars(before[i])
    requires forall i :: 0 <= i < |between| ==> !IsHeader(between[i])
    ensures AssertionHolds(m, isVars, Settled(m, before, vars, between, inner, after))
  {
    SettledHeaders(m, isVars, before, vars, between, inner, after);
    BlockLine(m, before, vars, between, inner, after);
  }

  lemma SqueezedHeaders(isVars: string -> bool, before: Lines, between: Lines)
    requires forall i :: 0 <= i < |before| ==> !isVars(before[i])
    requires forall i :: 0 <= i < |between| ==> !IsHeader(between[i])
    ensures forall i :: 0 <= i < |Collapse(before)| ==> !isVars(Collapse(before)[i])
    ensures forall i :: 0 <= i < |Squeeze(false, DropTrailing(between))| ==>
      !IsHeader(Squeeze(false, DropTrailing(between))[i])
  {
    CollapseShorter(before);
    NoneOfFewer(Collapse(before), before, isVars);
    DropTrailingIs(between);
    SqueezeShorter(false, DropTrailing(between));
    NoneOfFewer(Squeeze(false, DropTrailing(between)), between, IsHeader);
  }

  lemma BeginLineBegins(m: Markers)
    requires Apart(m)
    ensures Contains(m.beginLine, m.begin) && !IsHeader(m.beginLine)
  {
    assert Free("", m.begin) && FoundAfter(m, "");
    assert "" + m.beginLine == m.beginLine;
  }

  lemma BlockLine(m: Markers, before: Lines, vars: string, between: Lines, inner: Lines, after: Lines)
    ensures var once, k := Settled(m, before, vars, between, inner, after), |before| + |between| + 2;
            k < |once| && once[k] == m.beginLine
  {
    SettledIs(m, before, vars, between, inner, after);
    var top, rest := before + [vars], inner + [m.end] + after;
    assert top + ((between + ["", m.beginLine]) + rest) == (top + between + [""]) + [m.beginLine] + rest;
  }

  /** The region of a rendered file is the block, between the first [vars] header and the next header;
      and when the file had no BEGIN further down, it is the only region. */
  lemma VarsHoldsTheBlock(m: Markers, isVars: string -> bool, lines: Lines, body: Lines)
    requires Apart(m) && AreHeaders(isVars) && Without(Trimmed(body), m.end)
    requires ReplaceVarsBlock(m, isVars, lines, body).Some? && Without(VarsTop(m, isVars, lines), m.begin)
    ensures var once := ReplaceVarsBlock(m, isVars, lines, body).value;
            RegionInVars(m, isVars, once) &&
            (Without(StripRegion(m, lines), m.begin) ==> Without(StripRegion(m, once), m.begin))
  {
    var before, vars, between, tail := RenderedParts(m, isVars, lines, body);
    PiecesAreClean(m, isVars, before, vars, between, tail);
    SqueezedIsClean(m, isVars, before, vars, between, Trimmed(body));
    if Without(StripRegion(m, lines), m.begin) {
      EndIsWithout(VarsTop(m, isVars, lines), tail, m.begin);
      TailIsClean(m, tail);
    }
    SettledHoldsTheBlock(m, isVars, Collapse(before), vars, Squeeze(false, DropTrailing(between)),
                         Squeeze(false, Trimmed(body)), AfterBlock(tail));
  }

  lemma EndIsWithout(a: Lines, b: Lines, marker: string)
    requires Without(a + b, marker)
    ensures Without(b, marker)
  {
    assert forall i :: 0 <= i < |b| ==> (a + b)[|a| + i] == b[i];
  }

  lemma TailIsClean(m: Markers, tail: Lines)
    requires Plain(m) && Without(tail, m.begin)
    ensures Without(AfterBlock(tail), m.begin)
  {
    var squeezed := Squeeze(false, TailOf(tail));
    SqueezeShorter(false, TailOf(tail));
    NoneOfFewer(squeezed, TailOf(tail), line => Contains(line, m.begin));
    DropTrailingIs(squeezed);
  }

  lemma SettledHoldsTheBlock(m: Markers, isVars: string -> bool, before: Lines, vars: string, between: Lines,
                             inner: Lines, after: Lines)
    requires Apart(m) && AreHeaders(isVars) && Clean(m, isVars, before, vars, between) && Without(inner, m.end)
    ensures var once := Settled(m, before, vars, between, inner, after);
            RegionInVars(m, isVars, once) && (Without(after, m.begin) ==> Without(StripRegion(m, once), m.begin))
  {
    StrippedAgain(m, isVars, before, vars, between, inner, after);
    SettledHeaders(m, isVars, before, vars, between, inner, after);
    if Without(after, m.begin) {
      StrippedHasNoBegin(m, before, vars, between, after);
    }
  }

  /** In a settled file the first [vars] header stands where it stood, with no header up to the block. */
  lemma SettledHeaders(m: Markers, isVars: string -> bool, before: Lines, vars: string, between: Lines, inner: Lines,
                       after: Lines)
    requires !IsHeader(m.beginLine) && isVars(vars)
    requires forall i :: 0 <= i < |before| ==> !isVars(before[i])
    requires forall i :: 0 <= i < |between| ==> !IsHeader(between[i])
    ensures var once := Settled(m, before, vars, between, inner, after);
            FirstWhere(once, isVars, 0) == |before| &&
            FirstWhere(once, IsHeader, |before| + 1) > |before| + |between| + 2
  {
    var block, rest := between + ["", m.beginLine], inner + [m.end] + after;
    SettledIs(m, before, vars, between, inner, after);
    BlockHasNoHeader(m, between);
    HeadersOf(isVars, before, vars, block, rest);
  }

  lemma BlockHasNoHeader(m: Markers, between: Lines)
    requires !IsHeader(m.beginLine) && forall i :: 0 <= i < |between| ==> !IsHeader(between[i])
    ensures var block := between + ["", m.beginLine]; forall i :: 0 <= i < |block| ==> !IsHeader(block[i])
  {
  }

  lemma HeadersOf(isVars: string -> bool, before: Lines, vars: string, block: Lines, rest: Lines)
    requires isVars(vars) && forall i :: 0 <= i < |before| ==> !isVars(before[i])
    requires forall i :: 0 <= i < |block| ==> !IsHeader(block[i])
    ensures FirstWhere(before + [vars] + (block + rest), isVars, 0) == |before|
    ensures FirstWhere(before + [vars] + (block + rest), IsHeader, |before| + 1) >= |before| + 1 + |block|
  {
    FirstVars(isVars, before, vars, block + rest);
    NoHeaderIn(before + [vars], block, rest);
    assert before + [vars] + (block + rest) == before + [vars] + block + rest;
  }

  lemma SettledIs(m: Markers, before: Lines, vars: string, between: Lines, inner: Lines, after: Lines)
    ensures Settled(m, before, vars, between, inner, after)
            == before + [vars] + ((between + ["", m.beginLine]) + (inner + [m.end] + after))
  {
    assert "" + m.beginLine == m.beginLine;
    assert between + [""] + [m.beginLine] == between + ["", m.beginLine];
  }

  lemma StrippedHasNoBegin(m: Markers, before: Lines, vars: string, between: Lines, after: Lines)
    requires Without(before, m.begin) && !Contains(vars, m.begin) && Without(between, m.begin)
    requires Without(after, m.begin) && !Contains("", m.begin)
    ensures Without(before + [vars] + (between + ["", ""]) + after, m.begin)
  {
  }

  // ----- what a rendering keeps -----

  /** Stripping removes the region, from its BEGIN to the end of its END line, and nothing else: what
      stands before the first BEGIN on its line stays. */
  lemma StrippedIs(m: Markers, lines: Lines, b: nat, e: nat, before: string, after: string)
    requires m.begin != "" && b < e < |lines| && Contains(lines[e], m.end)
    requires forall j :: 0 <= j < b ==> !Contains(lines[j], m.begin)
    requires forall j :: b < j < e ==> !Contains(lines[j], m.end)
    requires lines[b] == before + m.begin + after
    requires forall k :: 0 <= k < |before| ==> !OccursAt(lines[b], m.begin, k)
    ensures StripRegion(m, lines) == lines[..b] + [before] + lines[e + 1..]
  {
    ContainsIff(lines[b], m.begin);
    RegionIff(m, lines, b, e);
    assert OccursAt(lines[b], m.begin, |before|) by {
      assert lines[b][|before|..|before| + |m.begin|] == m.begin;
    }
    assert Before(m, lines[b]) == before;
  }

  lemma NothingToStrip(m: Markers, lines: Lines)
    requires Without(lines, m.begin) || Without(lines, m.end)
    ensures StripRegion(m, lines) == lines
  {
  }

  /** Rendering [vars] keeps every line of the stripped file that is not empty, in order, and puts the
      block, with every line of the body that is not empty, between the top and the rest of it. */
  lemma RenderingKeepsLines(m: Markers, isVars: string -> bool, lines: Lines, body: Lines) returns (rest: Lines)
    requires Plain(m) && AreHeaders(isVars) && ReplaceVarsBlock(m, isVars, lines, body).Some?
    ensures StripRegion(m, lines) == VarsTop(m, isVars, lines) + rest
    ensures NonEmpty(ReplaceVarsBlock(m, isVars, lines, body).value)
      == NonEmpty(VarsTop(m, isVars, lines)) + ([m.beginLine] + NonEmpty(body) + [m.end]) + NonEmpty(rest)
  {
    var before, vars, between, tail := FileParts(m, isVars, lines, body);
    rest := tail;
    WithBlockKeeps(m, before + [vars] + DropTrailing(between), body, TailOf(tail));
    BlockKeeps(m, body);
    TopKeeps(before + [vars], between);
    TailKeeps(tail);
  }

  lemma TopKeeps(head: Lines, between: Lines)
    ensures NonEmpty(head + DropTrailing(between)) == NonEmpty(head + between)
  {
    NonEmptyConcat(head, DropTrailing(between));
    DropTrailingKeeps(between);
    NonEmptyConcat(head, between);
  }

  lemma TailKeeps(tail: Lines)
    ensures NonEmpty(TailOf(tail)) == NonEmpty(tail)
  {
  }

  lemma WithBlockKeeps(m: Markers, head: Lines, body: Lines, tail: Lines)
    ensures NonEmpty(WithBlock(m, head, body, tail)) == NonEmpty(head) + NonEmpty(Block(m, body)) + NonEmpty(tail)
  {
    var block := Block(m, body);
    WithBlockIs(m, head, body, tail);
    FinishKeeps(head + [""] + block + tail);
    FourParts(head, [""], block, tail);
    assert NonEmpty(head) + [] == NonEmpty(head);
  }

  lemma WithBlockIs(m: Markers, head: Lines, body: Lines, tail: Lines)
    ensures WithBlock(m, head, body, tail) == Finish(head + [""] + Block(m, body) + tail)
  {
    assert head + ["", m.beginLine] + Trimmed(body) + [m.end] + tail == head + [""] + Block(m, body) + tail;
  }

  lemma FourParts(a: Lines, b: Lines, c: Lines, d: Lines)
    ensures NonEmpty(a + b + c + d) == NonEmpty(a) + NonEmpty(b) + NonEmpty(c) + NonEmpty(d)
  {
    NonEmptyConcat(a + b + c, d);
    NonEmptyConcat(a + b, c);
    NonEmptyConcat(a, b);
  }

  lemma BlockKeeps(m: Markers, body: Lines)
    requires m.beginLine != "" && m.end != ""
    ensures NonEmpty(Block(m, body)) == [m.beginLine] + NonEmpty(body) + [m.end]
  {
    TrimmedKeeps(body);
    NonEmptyConcat([m.beginLine] + Trimmed(body), [m.end]);
    NonEmptyConcat([m.beginLine], Trimmed(body));
  }

  /** When no BEGIN is left up to the block, the next rendering finds the body as its region. */
  lemma VarsBodyInstalled(m: Markers, isVars: string -> bool, lines: Lines, body: Lines)
    requires Apart(m) && AreHeaders(isVars) && Without(Trimmed(body), m.end)
    requires ReplaceVarsBlock(m, isVars, lines, body).Some? && Without(VarsTop(m, isVars, lines), m.begin)
    ensures HoldsBody(m, ReplaceVarsBlock(m, isVars, lines, body).value, body)
  {
    var before, vars, between, tail := RenderedParts(m, isVars, lines, body);
    PiecesAreClean(m, isVars, before, vars, between, tail);
    SqueezedIsClean(m, isVars, before, vars, between, Trimmed(body));
    SettledRegion(m, isVars, Collapse(before), vars, Squeeze(false, DropTrailing(between)),
                  Squeeze(false, Trimmed(body)), AfterBlock(tail));
    SqueezeIs(false, Trimmed(body));
    TrimmedKeeps(body);
  }

  lemma SettledRegion(m: Markers, isVars: string -> bool, before: Lines, vars: string, between: Lines,
                      inner: Lines, after: Lines)
    requires Apart(m) && Clean(m, isVars, before, vars, between) && Without(inner, m.end)
    ensures var once := Settled(m, before, vars, between, inner, after);
            Region(m, once).Some? && once[Region(m, once).value.0 + 1..Region(m, once).value.1] == inner
  {
    var top := before + [vars] + between + [""];
    assert before + [vars] + between + [""] + [] == top;
    RegionOfFramed(m, top, "", inner, after);
  }

  // ----- a BEGIN without an END before the block -----

  /** How many lines hold a BEGIN. */
  function Begins(m: Markers, lines: Lines): nat {
    if lines == [] then 0 else (if Contains(lines[0], m.begin) then 1 else 0) + Begins(m, lines[1..])
  }

  lemma {:induction false} BeginsConcat(m: Markers, a: Lines, b: Lines)
    ensures Begins(m, a + b) == Begins(m, a) + Begins(m, b)
  {
    if a == [] {
      assert a + b == b;
    } else {
      assert (a + b)[1..] == a[1..] + b;
      BeginsConcat(m, a[1..], b);
    }
  }

  lemma {:induction false} NoBegins(m: Markers, lines: Lines)
    ensures Begins(m, lines) == 0 <==> Without(lines, m.begin)
  {
    if lines != [] {
      NoBegins(m, lines[1..]);
      assert lines == [lines[0]] + lines[1..];
    }
  }

  /** Empty lines hold no marker, so leaving some out changes no count. */
  lemma {:induction false} SqueezedBegins(m: Markers, p: bool, lines: Lines)
    requires !Contains("", m.begin)
    ensures Begins(m, Squeeze(p, lines)) == Begins(m, lines)
    decreases |lines|
  {
    if lines != [] {
      if lines[0] == "" && p {
        SqueezedBegins(m, true, lines[1..]);
      } else {
        var rest := Squeeze(lines[0] == "", lines[1..]);
        SqueezedBegins(m, lines[0] == "", lines[1..]);
        assert ([lines[0]] + rest)[1..] == rest;
      }
    }
  }

  lemma {:induction false} DroppedBegins(m: Markers, lines: Lines)
    requires !Contains("", m.begin)
    ensures Begins(m, DropTrailing(lines)) == Begins(m, lines)
  {
    if lines != [] && lines[|lines| - 1] == "" {
      DroppedBegins(m, lines[..|lines| - 1]);
      BeginsConcat(m, lines[..|lines| - 1], [""]);
      assert lines == lines[..|lines| - 1] + [""];
      assert Begins(m, [""]) == 0;
    }
  }

  lemma FinishedBegins(m: Markers, lines: Lines)
    requires !Contains("", m.begin)
    ensures Begins(m, Finish(lines)) == Begins(m, lines)
  {
    if lines != [] {
      SqueezedBegins(m, false, lines[1..]);
      assert ([lines[0]] + Squeeze(false, lines[1..]))[1..] == Squeeze(false, lines[1..]);
    }
    DroppedBegins(m, Collapse(lines));
    BeginsConcat(m, DropTrailing(Collapse(lines)), [""]);
    assert Begins(m, [""]) == 0;
  }

  function Block(m: Markers, body: Lines): Lines {
    [m.beginLine] + Trimmed(body) + [m.end]
  }

  lemma WithBlockBegins(m: Markers, head: Lines, body: Lines, tail: Lines)
    requires !Contains("", m.begin)
    ensures Begins(m, WithBlock(m, head, body, tail)) == Begins(m, head) + Begins(m, Block(m, body)) + Begins(m, tail)
  {
    WithBlockIs(m, head, body, tail);
    FinishedBegins(m, head + [""] + Block(m, body) + tail);
    BeginsConcat(m, head + [""] + Block(m, body), tail);
    BeginsConcat(m, head + [""], Block(m, body));
    BeginsConcat(m, head, [""]);
    assert Begins(m, [""]) == 0;
  }

  /** A rendering strips one region and brings in one block. */
  lemma RenderedBegins(m: Markers, isVars: string -> bool, lines: Lines, body: Lines)
    requires Apart(m) && AreHeaders(isVars) && ReplaceVarsBlock(m, isVars, lines, body).Some?
    ensures Begins(m, ReplaceVarsBlock(m, isVars, lines, body).value)
            == Begins(m, StripRegion(m, lines)) + Begins(m, Block(m, body))
  {
    var before, vars, between, tail := FileParts(m, isVars, lines, body);
    WithBlockBegins(m, before + [vars] + DropTrailing(between), body, TailOf(tail));
    BeginsConcat(m, before + [vars], DropTrailing(between));
    DroppedBegins(m, between);
    BeginsConcat(m, before + [vars], between);
    BeginsConcat(m, VarsTop(m, isVars, lines), tail);
    assert Begins(m, [""]) == 0;
  }

  /** A text with a BEGIN and no END after it. */
  ghost predicate Stray(m: Markers, top: Lines, a: Lines, line: string, c: Lines) {
    top == a + [line] + c && Without(a, m.begin) && Contains(line, m.begin) && Without(c, m.end)
  }

  lemma StrayParts(m: Markers, top: Lines) returns (a: Lines, line: string, c: Lines)
    requires !Without(top, m.begin) && Region(m, top).None?
    ensures Stray(m, top, a, line, c)
  {
    var b := LineWith(top, m.begin, 0);
    a, line, c := top[..b], top[b], top[b + 1..];
    assert LineWith(top, m.end, b + 1) == |top|;
    forall i | 0 <= i < |c| ensures !Contains(c[i], m.end) {
      assert c[i] == top[b + 1 + i];
    }
  }

  /** The rendering of a text with a stray BEGIN: its region runs from there to the end of the block. */
  lemma StrayRegion(m: Markers, top: Lines, a: Lines, line: string, c: Lines, body: Lines, tail: Lines)
    requires Plain(m) && Stray(m, top, a, line, c) && Without(Trimmed(body), m.end)
    ensures StripRegion(m, WithBlock(m, DropTrailing(top), body, tail))
            == Collapse(a) + [Before(m, line)] + (DropTrailing(Squeeze(false, tail)) + [""])
  {
    var after := DropTrailing(Squeeze(false, tail)) + [""];
    var swallowed := Squeeze(false, DropTrailing(c)) + ["", m.beginLine] + Squeeze(false, Trimmed(body));
    StrayRendered(m, top, a, line, c, body, tail);
    SwallowedHasNoEnd(m, c, body);
    CollapseShorter(a);
    NoneOfFewer(Collapse(a), a, line => Contains(line, m.begin));
    StrippedParts(m, Collapse(a), line, swallowed, after);
  }

  lemma StrayRendered(m: Markers, top: Lines, a: Lines, line: string, c: Lines, body: Lines, tail: Lines)
    requires Plain(m) && Stray(m, top, a, line, c)
    ensures WithBlock(m, DropTrailing(top), body, tail)
      == Collapse(a) + [line] + (Squeeze(false, DropTrailing(c)) + ["", m.beginLine] + Squeeze(false, Trimmed(body)))
         + [m.end] + (DropTrailing(Squeeze(false, tail)) + [""])
  {
    var kept, inner := DropTrailing(c), Squeeze(false, Trimmed(body));
    var after := DropTrailing(Squeeze(false, tail)) + [""];
    DropTrailingConcat(a + [line], c);
    DropTrailingIs(c);
    RenderIsSettled(m, a, line, kept, body, tail);
    SettledIs(m, Collapse(a), line, Squeeze(false, kept), inner, after);
    RegroupStray(Collapse(a), line, Squeeze(false, kept), m.beginLine, inner, m.end, after);
  }

  lemma StrippedParts(m: Markers, a: Lines, line: string, swallowed: Lines, after: Lines)
    requires Without(a, m.begin) && Contains(line, m.begin) && Without(swallowed, m.end) && Contains(m.end, m.end)
    ensures StripRegion(m, a + [line] + swallowed + [m.end] + after) == a + [Before(m, line)] + after
  {
    RegionIs(m, a + [line] + swallowed + [m.end] + after, |a|, |a| + 1 + |swallowed|);
  }

  lemma RegroupStray(a: Lines, line: string, b: Lines, x: string, c: Lines, y: string, d: Lines)
    ensures a + [line] + ((b + ["", x]) + (c + [y] + d)) == a + [line] + (b + ["", x] + c) + [y] + d
  {
  }

  lemma SwallowedHasNoEnd(m: Markers, c: Lines, body: Lines)
    requires Plain(m) && Without(c, m.end) && Without(Trimmed(body), m.end)
    ensures Without(Squeeze(false, DropTrailing(c)) + ["", m.beginLine] + Squeeze(false, Trimmed(body)), m.end)
  {
    DropTrailingIs(c);
    SqueezeShorter(false, DropTrailing(c));
    NoneOfFewer(Squeeze(false, DropTrailing(c)), c, line => Contains(line, m.end));
    SqueezeShorter(false, Trimmed(body));
    NoneOfFewer(Squeeze(false, Trimmed(body)), Trimmed(body), line => Contains(line, m.end));
  }

  /** What is left of it has the BEGINs that stand further down, and no other. */
  lemma StrayStripped(m: Markers, top: Lines, body: Lines, tail: Lines)
    requires Plain(m) && !Without(top, m.begin) && Region(m, top).None? && Without(Trimmed(body), m.end)
    ensures Begins(m, StripRegion(m, WithBlock(m, DropTrailing(top), body, tail))) == Begins(m, tail)
  {
    var a, line, c := StrayParts(m, top);
    StrayRegion(m, top, a, line, c, body, tail);
    var after := DropTrailing(Squeeze(false, tail)) + [""];
    BeginsConcat(m, Collapse(a) + [Before(m, line)], after);
    BeginsConcat(m, Collapse(a), [Before(m, line)]);
    BeginsConcat(m, DropTrailing(Squeeze(false, tail)), [""]);
    CollapseShorter(a);
    NoneOfFewer(Collapse(a), a, line => Contains(line, m.begin));
    NoBegins(m, Collapse(a));
    BeforeIsFree(m, line);
    assert Begins(m, [Before(m, line)]) == 0 && Begins(m, [""]) == 0;
    DroppedBegins(m, Squeeze(false, tail));
    SqueezedBegins(m, false, tail);
  }

  /** With a BEGIN and no END between it and the block, rendering again changes the file: the stray
      region goes, with the block in it. */
  lemma StrayVarsChange(m: Markers, isVars: string -> bool, lines: Lines, body: Lines)
    requires Apart(m) && AreHeaders(isVars) && Without(Trimmed(body), m.end)
    requires ReplaceVarsBlock(m, isVars, lines, body).Some?
    requires !Without(VarsTop(m, isVars, lines), m.begin) && Region(m, VarsTop(m, isVars, lines)).None?
    ensures var once := ReplaceVarsBlock(m, isVars, lines, body).value;
            ReplaceVarsBlock(m, isVars, once, body) != Some(once)
  {
    var before, vars, between, tail := FileParts(m, isVars, lines, body);
    var top, once := VarsTop(m, isVars, lines), ReplaceVarsBlock(m, isVars, lines, body).value;
    assert IsHeader(vars);
    DropTrailingConcat(before + [vars], between);
    StrayStripped(m, top, body, TailOf(tail));
    assert Begins(m, TailOf(tail)) == Begins(m, tail) by {
      assert Begins(m, [""]) == 0;
    }
    RenderedBegins(m, isVars, lines, body);
    BeginsConcat(m, top, tail);
    NoBegins(m, top);
    if ReplaceVarsBlock(m, isVars, once, body).Some? {
      RenderedBegins(m, isVars, once, body);
    }
  }

  /** Rendering [vars] twice is rendering it once iff no BEGIN is left up to the block.  Files with a
      second whole region there are set apart: what they become depends on what it holds. */
  lemma VarsIdempotentIff(m: Markers, isVars: string -> bool, lines: Lines, body: Lines)
    requires Apart(m) && AreHeaders(isVars) && Without(Trimmed(body), m.end)
    requires ReplaceVarsBlock(m, isVars, lines, body).Some? && Region(m, VarsTop(m, isVars, lines)).None?
    ensures var once := ReplaceVarsBlock(m, isVars, lines, body).value;
            ReplaceVarsBlock(m, isVars, once, body) == Some(once) <==> Without(VarsTop(m, isVars, lines), m.begin)
  {
    if Without(VarsTop(m, isVars, lines), m.begin) {
      VarsIdempotent(m, isVars, lines, body);
    } else {
      StrayVarsChange(m, isVars, lines, body);
    }
  }

  // ----- rendering all the artifacts, and checking them -----

  /** An artifact: a region anywhere in a file, a region inside [vars], or a whole file. */
  datatype Target =
    | Anywhere(path: string, body: Lines)
    | InVars(path: string, body: Lines)
    | Whole(path: string, content: Lines)

  type Files = map<string, Lines>

  /** What `collect` computes for a target: None when the script stops with an error. */
  function RenderTarget(m: Markers, isVars: string -> bool, files: Files, target: Target): Option<Lines> {
    match target
    case Anywhere(path, body) => if path in files then Some(ReplaceBlock(m, files[path], body)) else None
    case InVars(path, body) => if path in files then ReplaceVarsBlock(m, isVars, files[path], body) else None
    case Whole(path, content) => Some(content)
  }

  predicate Collects(m: Markers, isVars: string -> bool, files: Files, targets: seq<Target>) {
    forall i :: 0 <= i < |targets| ==> RenderTarget(m, isVars, files, targets[i]).Some?
  }

  /** The files after a run without `--check`: everything is collected first, then written. */
  function Write(m: Markers, isVars: string -> bool, files: Files, targets: seq<Target>): Files
    requires Collects(m, isVars, files, targets)
  {
    if targets == [] then files
    else
      var n := |targets| - 1;
      Write(m, isVars, files, targets[..n])[targets[n].path := RenderTarget(m, isVars, files, targets[n]).value]
  }

  /** `--check` finds no drift: every artifact is already what it would be rendered to. */
  ghost predicate InSync(m: Markers, isVars: string -> bool, files: Files, targets: seq<Target>) {
    forall i :: 0 <= i < |targets| ==>
      targets[i].path in files && RenderTarget(m, isVars, files, targets[i]) == Some(files[targets[i].path])
  }

  /** What the bodies and the files are taken to be: no body closes its region early, and no file with
      a [vars] block has a second whole region before it. */
  ghost predicate Fits(m: Markers, isVars: string -> bool, files: Files, target: Target) {
    match target
    case Anywhere(path, body) => Without(Trimmed(body), m.end)
    case InVars(path, body) =>
      Without(Trimmed(body), m.end) && (path in files ==> Region(m, VarsTop(m, isVars, files[path])).None?)
    case Whole(_, _) => true
  }

  /** The file has no stray BEGIN where it would hurt. */
  ghost predicate WellFormed(m: Markers, isVars: string -> bool, files: Files, target: Target) {
    target.path in files ==>
      match target
      case Anywhere(path, _) => Region(m, files[path]).Some? || Without(files[path], m.begin)
      case InVars(path, _) => Without(VarsTop(m, isVars, files[path]), m.begin)
      case Whole(_, _) => true
  }

  lemma WriteOneMore(m: Markers, isVars: string -> bool, files: Files, targets: seq<Target>, last: Target)
    requires Collects(m, isVars, files, targets) && RenderTarget(m, isVars, files, last).Some?
    ensures Collects(m, isVars, files, targets + [last])
    ensures Write(m, isVars, files, targets + [last])
            == Write(m, isVars, files, targets)[last.path := RenderTarget(m, isVars, files, last).value]
  {
    var all := targets + [last];
    assert all[..|targets|] == targets && all[|targets|] == last;
    assert forall i :: 0 <= i < |targets| ==> all[i] == targets[i];
  }

  /** A run leaves every other file alone. */
  lemma {:induction false} OthersUntouched(m: Markers, isVars: string -> bool, files: Files, targets: seq<Target>,
                                           path: string)
    requires Collects(m, isVars, files, targets) && forall i :: 0 <= i < |targets| ==> targets[i].path != path
    ensures path in Write(m, isVars, files, targets) <==> path in files
    ensures path in files ==> Write(m, isVars, files, targets)[path] == files[path]
  {
    if targets != [] {
      var n := |targets| - 1;
      OthersUntouched(m, isVars, files, targets[..n], path);
    }
  }

  ghost predicate DifferentPaths(targets: seq<Target>) {
    forall j, k :: 0 <= j < k < |targets| ==> targets[j].path != targets[k].path
  }

  /** The file of a target after a run. */
  ghost predicate IsWritten(m: Markers, isVars: string -> bool, files: Files, written: Files, target: Target) {
    target.path in written && Some(written[target.path]) == RenderTarget(m, isVars, files, target)
  }

  lemma {:induction false} WrittenFile(m: Markers, isVars: string -> bool, files: Files, targets: seq<Target>, i: nat)
    requires Collects(m, isVars, files, targets) && i < |targets| && DifferentPaths(targets)
    ensures IsWritten(m, isVars, files, Write(m, isVars, files, targets), targets[i])
  {
    var n := |targets| - 1;
    var shorter := targets[..n];
    assert targets == shorter + [targets[n]];
    WriteOneMore(m, isVars, files, shorter, targets[n]);
    if i < n {
      WrittenFile(m, isVars, files, shorter, i);
      assert shorter[i] == targets[i] && targets[i].path != targets[n].path;
    }
  }

  /** What the file of a target holds after a run: the content of a whole file, and of a region every
      non-empty line of its body, in order, between the markers that the next run finds. */
  lemma WrittenFileHolds(m: Markers, isVars: string -> bool, files: Files, targets: seq<Target>, i: nat)
    requires Apart(m) && AreHeaders(isVars) && Collects(m, isVars, files, targets)
    requires i < |targets| && DifferentPaths(targets)
    requires Fits(m, isVars, files, targets[i]) && WellFormed(m, isVars, files, targets[i])
    ensures targets[i].path in Write(m, isVars, files, targets)
    ensures var written := Write(m, isVars, files, targets)[targets[i].path];
            match targets[i]
            case Anywhere(_, body) => HoldsBody(m, written, body)
            case InVars(_, body) => HoldsBody(m, written, body)
            case Whole(_, content) => written == content
  {
    WrittenFile(m, isVars, files, targets, i);
    match targets[i]
    case Anywhere(path, body) => BodyInstalled(m, files[path], body);
    case InVars(path, body) => VarsBodyInstalled(m, isVars, files[path], body);
    case Whole(_, _) =>
  }

  lemma RenderTargetTwice(m: Markers, isVars: string -> bool, files: Files, written: Files, target: Target)
    requires Apart(m) && AreHeaders(isVars) && Fits(m, isVars, files, target)
    requires RenderTarget(m, isVars, files, target).Some? && IsWritten(m, isVars, files, written, target)
    ensures RenderTarget(m, isVars, written, target) == Some(written[target.path]) <==>
      WellFormed(m, isVars, files, target)
  {
    match target
    case Anywhere(path, body) => ReplaceIsIdempotentIff(m, files[path], body);
    case InVars(path, body) => VarsIdempotentIff(m, isVars, files[path], body);
    case Whole(_, _) =>
  }

  /** Rendering and then checking reports no drift iff no file has a stray BEGIN where it hurts. */
  lemma RenderThenCheckIff(m: Markers, isVars: string -> bool, files: Files, targets: seq<Target>)
    requires Apart(m) && AreHeaders(isVars) && Collects(m, isVars, files, targets)
    requires DifferentPaths(targets)
    requires forall i :: 0 <= i < |targets| ==> Fits(m, isVars, files, targets[i])
    ensures InSync(m, isVars, Write(m, isVars, files, targets), targets) <==>
      forall i :: 0 <= i < |targets| ==> WellFormed(m, isVars, files, targets[i])
  {
    var written := Write(m, isVars, files, targets);
    forall i | 0 <= i < |targets|
      ensures targets[i].path in written
      ensures RenderTarget(m, isVars, written, targets[i]) == Some(written[targets[i].path])
              <==> WellFormed(m, isVars, files, targets[i])
    {
      WrittenFile(m, isVars, files, targets, i);
      RenderTargetTwice(m, isVars, files, written, targets[i]);
    }
  }

  // ----- with the script's own markers and pattern -----

  lemma ContractVarsIdempotentIff(space: char -> bool, lines: Lines, body: Lines)
    requires Without(Trimmed(body), END) && ReplaceVarsBlock(CONTRACT_MARKERS, VarsHeader(space), lines, body).Some?
    requires Region(CONTRACT_MARKERS, VarsTop(CONTRACT_MARKERS, VarsHeader(space), lines)).None?
    ensures var once := ReplaceVarsBlock(CONTRACT_MARKERS, VarsHeader(space), lines, body).value;
            ReplaceVarsBlock(CONTRACT_MARKERS, VarsHeader(space), once, body) == Some(once)
            <==> Without(VarsTop(CONTRACT_MARKERS, VarsHeader(space), lines), BEGIN)
  {
    ContractMarkersApart();
    VarsHeaderIsHeader(space);
    VarsIdempotentIff(CONTRACT_MARKERS, VarsHeader(space), lines, body);
  }

  lemma ContractAssertionHolds(space: char -> bool, lines: Lines, body: Lines)
    requires ReplaceVarsBlock(CONTRACT_MARKERS, VarsHeader(space), lines, body).Some?
    ensures AssertionHolds(CONTRACT_MARKERS, VarsHeader(space),
                           ReplaceVarsBlock(CONTRACT_MARKERS, VarsHeader(space), lines, body).value)
  {
    ContractMarkersApart();
    VarsHeaderIsHeader(space);
    VarsAssertionHolds(CONTRACT_MARKERS, VarsHeader(space), lines, body);
  }

  lemma ContractRenderThenCheckIff(space: char -> bool, files: Files, targets: seq<Target>)
    requires Collects(CONTRACT_MARKERS, VarsHeader(space), files, targets)
    requires DifferentPaths(targets)
    requires forall i :: 0 <= i < |targets| ==> Fits(CONTRACT_MARKERS, VarsHeader(space), files, targets[i])
    ensures InSync(CONTRACT_MARKERS, VarsHeader(space), Write(CONTRACT_MARKERS, VarsHeader(space), files, targets),
                   targets)
      <==> forall i :: 0 <= i < |targets| ==> WellFormed(CONTRACT_MARKERS, VarsHeader(space), files, targets[i])
  {
    ContractMarkersApart();
    VarsHeaderIsHeader(space);
    RenderThenCheckIff(CONTRACT_MARKERS, VarsHeader(space), files, targets);
  }
}
