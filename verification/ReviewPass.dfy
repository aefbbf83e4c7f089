/** Review-pass state: scripts/review_pass_filter.py.

    Which change requests of a review log are still outstanding, and which lines of a comment
    body may carry a verdict once its fenced code blocks are taken out. */
module ReviewPass {
  import opened Collections

  // ----- outstanding change requests -----

  datatype ReviewState = ChangesRequested | Approved | Commented | Dismissed | Other

  /** The seat or session a verdict names; an unnamed one has the empty kind. */
  datatype Identity = Identity(kind: string, values: string)

  datatype Event = Event(at: string, number: int, login: string, identity: Identity, state: ReviewState, place: string)

  datatype Request = Request(login: string, identity: Identity, place: string, at: string)

  predicate ClearsChangeRequest(state: ReviewState, identity: Identity, requestIdentity: Identity) {
    if state == Dismissed then identity == requestIdentity
    else if requestIdentity.kind != "" then identity == requestIdentity
    else identity.kind != ""
  }

  /** Whether the act `e` takes the open request of `login` and `identity` off the list. */
  predicate Cancels(e: Event, login: string, identity: Identity) {
    e.login == login
    && if e.state == ChangesRequested then e.identity == identity
       else ClearsChangeRequest(e.state, e.identity, identity)
  }

  function RequestOf(e: Event): Request {
    Request(e.login, e.identity, e.place, e.at)
  }

  /** Request `i` of the log is outstanding: no later act cancels it. */
  predicate IsOutstanding(events: seq<Event>, i: nat)
    requires i < |events|
  {
    && events[i].state == ChangesRequested
    && forall j :: i < j < |events| ==> !Cancels(events[j], events[i].login, events[i].identity)
  }

  /** The declarative answer: the outstanding requests from log position `i` on, in log order. */
  function Outstanding(events: seq<Event>, i: nat): seq<Request>
    requires i <= |events|
    decreases |events| - i
  {
    if i == |events| then []
    else (if IsOutstanding(events, i) then [RequestOf(events[i])] else []) + Outstanding(events, i + 1)
  }

  /** The list comprehensions of the fold: the open requests that `e` does not cancel. */
  function Surviving(open: seq<Request>, e: Event): seq<Request> {
    if open == [] then []
    else (if Cancels(e, open[0].login, open[0].identity) then [] else [open[0]]) + Surviving(open[1..], e)
  }

  function Step(open: seq<Request>, e: Event): seq<Request> {
    Surviving(open, e) + (if e.state == ChangesRequested then [RequestOf(e)] else [])
  }

  method OutstandingChangeRequests(events: seq<Event>) returns (open: seq<Request>)
    ensures open == Outstanding(events, 0)
  {
    open := [];
    for k := 0 to |events|
      invariant open == Outstanding(events[..k], 0)
    {
      var e := events[k];
      OneMoreEvent(events[..k], e, 0);
      assert events[..k + 1] == events[..k] + [e];
      if e.state == ChangesRequested {
        open := Surviving(open, e);
        open := open + [RequestOf(e)];
        continue;
      }
      open := Surviving(open, e);
    }
    assert events[..|events|] == events;
  }

  lemma {:induction false} SurvivingConcat(a: seq<Request>, b: seq<Request>, e: Event)
    ensures Surviving(a + b, e) == Surviving(a, e) + Surviving(b, e)
  {
    if a == [] {
      assert a + b == b;
    } else {
      assert (a + b)[0] == a[0] && (a + b)[1..] == a[1..] + b;
      SurvivingConcat(a[1..], b, e);
      var head := if Cancels(e, a[0].login, a[0].identity) then [] else [a[0]];
      var x, y := Surviving(a[1..], e), Surviving(b, e);
      assert head + (x + y) == head + x + y;
    }
  }

  /** One more event changes the declarative answer as one fold step changes the open list. */
  lemma {:induction false} OneMoreEvent(log: seq<Event>, e: Event, i: nat)
    requires i <= |log|
    ensures Outstanding(log + [e], i) == Step(Outstanding(log, i), e)
    decreases |log| - i
  {
    var longer := log + [e];
    if i == |log| {
      assert Outstanding(longer, i + 1) == [];
      assert longer[i] == e;
    } else {
      OneMoreEvent(log, e, i + 1);
      assert longer[i] == log[i];
      var head := if IsOutstanding(log, i) then [RequestOf(log[i])] else [];
      SurvivingConcat(head, Outstanding(log, i + 1), e);
      StillOutstanding(log, e, i);
    }
  }

  lemma StillOutstanding(log: seq<Event>, e: Event, i: nat)
    requires i < |log|
    ensures IsOutstanding(log + [e], i) <==> IsOutstanding(log, i) && !Cancels(e, log[i].login, log[i].identity)
  {
    var longer := log + [e];
    assert longer[|log|] == e;
    assert forall j :: 0 <= j < |log| ==> longer[j] == log[j];
  }

  /** A listed request comes from an outstanding position. */
  lemma {:induction false} ListedIsOutstanding(events: seq<Event>, i: nat, r: Request) returns (j: nat)
    requires i <= |events| && r in Outstanding(events, i)
    ensures i <= j < |events| && IsOutstanding(events, j) && r == RequestOf(events[j])
    decreases |events| - i
  {
    if IsOutstanding(events, i) && r == RequestOf(events[i]) {
      j := i;
    } else {
      j := ListedIsOutstanding(events, i + 1, r);
    }
  }

  /** At most one open request per login and identity. */
  lemma {:induction false} OnePerLoginAndIdentity(events: seq<Event>, i: nat, x: nat, y: nat)
    requires i <= |events| && x < y < |Outstanding(events, i)|
    ensures var open := Outstanding(events, i);
            open[x].login != open[y].login || open[x].identity != open[y].identity
    decreases |events| - i
  {
    var open, rest := Outstanding(events, i), Outstanding(events, i + 1);
    if IsOutstanding(events, i) {
      if x == 0 {
        assert open[y] == rest[y - 1];
        var j := ListedIsOutstanding(events, i + 1, open[y]);
        assert !Cancels(events[j], events[i].login, events[i].identity);
      } else {
        OnePerLoginAndIdentity(events, i + 1, x - 1, y - 1);
      }
    } else {
      OnePerLoginAndIdentity(events, i + 1, x, y);
    }
  }

  /** When a request stands, in words of the log: one that names a seat or session until the same login
      speaks under the same name again; one that names none until the login requests again under no name,
      dismisses it, or approves or comments under some name. */
  lemma StandsIff(events: seq<Event>, i: nat)
    requires i < |events| && events[i].state == ChangesRequested
    ensures events[i].identity.kind != "" ==>
      (IsOutstanding(events, i) <==>
        forall j :: i < j < |events| ==> events[j].login != events[i].login || events[j].identity != events[i].identity)
    ensures events[i].identity.kind == "" ==>
      (IsOutstanding(events, i) <==>
        forall j :: i < j < |events| && events[j].login == events[i].login ==>
          if events[j].state == ChangesRequested || events[j].state == Dismissed
          then events[j].identity != events[i].identity
          else events[j].identity.kind == "")
  {
  }

  ghost function Standing(events: seq<Event>): nat -> bool {
    (k: nat) => k < |events| && IsOutstanding(events, k)
  }

  ghost function Entries(events: seq<Event>): nat -> Request {
    (k: nat) => if k < |events| then Request(events[k].login, events[k].identity, events[k].place, events[k].at)
                else Request("", Identity("", ""), "", "")
  }

  ghost predicate AreEntries(
    good: nat -> bool, entry: nat -> Request, i: nat, n: nat, at: seq<nat>, list: seq<Request>)
  {
    |at| == |list| && forall x :: 0 <= x < |at| ==> i <= at[x] < n && good(at[x]) && list[x] == entry(at[x])
  }

  predicate Ascending(at: seq<nat>) {
    forall x, y :: 0 <= x < y < |at| ==> at[x] < at[y]
  }

  /** `at` are the good positions from `i` to `n` in order, and the list has the entry of each. */
  ghost predicate AreListed(
    good: nat -> bool, entry: nat -> Request, i: nat, n: nat, at: seq<nat>, list: seq<Request>)
  {
    && AreEntries(good, entry, i, n, at, list)
    && Ascending(at)
    && (forall k: nat :: i <= k < n && good(k) ==> k in at)
  }

  lemma EntryHere(good: nat -> bool, entry: nat -> Request, i: nat, n: nat, at: seq<nat>, list: seq<Request>)
    requires i < n && good(i) && AreEntries(good, entry, i + 1, n, at, list)
    ensures AreEntries(good, entry, i, n, [i] + at, [entry(i)] + list)
  {
  }

  lemma ListedHere(good: nat -> bool, entry: nat -> Request, i: nat, n: nat, at: seq<nat>, list: seq<Request>)
    requires i < n && good(i) && AreListed(good, entry, i + 1, n, at, list)
    ensures AreListed(good, entry, i, n, [i] + at, [entry(i)] + list)
  {
    EntryHere(good, entry, i, n, at, list);
    forall k: nat | i <= k < n && good(k) ensures k in [i] + at {
      if k != i {
        assert k in at;
      }
    }
  }

  /** The list, in words of the log: the login, the name, the place and the time of the requests that stand,
      in the order of the log. */
  lemma {:induction false} ListIs(events: seq<Event>, i: nat) returns (at: seq<nat>)
    requires i <= |events|
    ensures AreListed(Standing(events), Entries(events), i, |events|, at, Outstanding(events, i))
    decreases |events| - i
  {
    if i == |events| {
      at := [];
    } else {
      at := ListIs(events, i + 1);
      var list := Outstanding(events, i + 1);
      if IsOutstanding(events, i) {
        ListedHere(Standing(events), Entries(events), i, |events|, at, list);
        at := [i] + at;
      } else {
        assert [] + list == list;
      }
    }
  }

  function EventsOf(events: seq<Event>, login: string): seq<Event> {
    if events == [] then []
    else var last := events[|events| - 1];
         EventsOf(events[..|events| - 1], login) + (if last.login == login then [last] else [])
  }

  function RequestsOf(open: seq<Request>, login: string): seq<Request> {
    if open == [] then []
    else (if open[0].login == login then [open[0]] else []) + RequestsOf(open[1..], login)
  }

  lemma {:induction false} StepOfLogin(open: seq<Request>, e: Event, login: string)
    ensures RequestsOf(Surviving(open, e), login) ==
            if e.login == login then Surviving(RequestsOf(open, login), e) else RequestsOf(open, login)
  {
    if open != [] {
      var h, t := open[0], open[1..];
      StepOfLogin(t, e, login);
      assert Surviving(open, e) == if Cancels(e, h.login, h.identity) then Surviving(t, e) else [h] + Surviving(t, e);
      if h.login != login {
        assert RequestsOf(open, login) == RequestsOf(t, login);
      } else {
        assert RequestsOf(open, login) == [h] + RequestsOf(t, login);
      }
    }
  }

  lemma {:induction false} RequestsOfConcat(a: seq<Request>, b: seq<Request>, login: string)
    ensures RequestsOf(a + b, login) == RequestsOf(a, login) + RequestsOf(b, login)
  {
    if a == [] {
      assert a + b == b;
    } else {
      assert (a + b)[0] == a[0] && (a + b)[1..] == a[1..] + b;
      RequestsOfConcat(a[1..], b, login);
      var head := if a[0].login == login then [a[0]] else [];
      var x, y := RequestsOf(a[1..], login), RequestsOf(b, login);
      assert head + (x + y) == head + x + y;
    }
  }

  /** A login's answer depends on its own events alone. */
  lemma {:induction false} OtherLoginsDoNotMatter(events: seq<Event>, login: string)
    ensures RequestsOf(Outstanding(events, 0), login) == Outstanding(EventsOf(events, login), 0)
  {
    if events != [] {
      var log, e := events[..|events| - 1], events[|events| - 1];
      assert events == log + [e];
      OtherLoginsDoNotMatter(log, login);
      OneMoreEvent(log, e, 0);
      var open := Outstanding(log, 0);
      RequestsOfConcat(Surviving(open, e), if e.state == ChangesRequested then [RequestOf(e)] else [], login);
      StepOfLogin(open, e, login);
      if e.login == login {
        OneMoreEvent(EventsOf(log, login), e, 0);
      } else {
        assert EventsOf(events, login) == EventsOf(log, login);
      }
    }
  }

  /** An unnamed approval or comment clears nothing, whatever is open. */
  lemma {:induction false} UnnamedActClearsNothing(log: seq<Event>, e: Event)
    requires e.state != ChangesRequested && e.state != Dismissed && e.identity.kind == ""
    ensures Outstanding(log + [e], 0) == Outstanding(log, 0)
  {
    OneMoreEvent(log, e, 0);
    NothingCancelled(Outstanding(log, 0), e);
  }

  lemma {:induction false} NothingCancelled(open: seq<Request>, e: Event)
    requires forall r :: r in open ==> !Cancels(e, r.login, r.identity)
    ensures Surviving(open, e) == open
  {
    if open != [] {
      assert open[0] in open;
      NothingCancelled(open[1..], e);
    }
  }

  // ----- fenced blocks -----

  /** A fence marker: three or more of one character. */
  datatype Fence = Fence(mark: char, length: nat)

  /** How a line opens a fence when none is open, and whether it closes an open one. */
  datatype Rule = Rule(opens: string -> Option<Fence>, closes: (string, Fence) -> bool)

  /** The fence open before line `k`. */
  function FenceBefore(rule: Rule, lines: seq<string>, k: nat): Option<Fence>
    requires k <= |lines|
  {
    if k == 0 then None
    else match FenceBefore(rule, lines, k - 1)
         case None => rule.opens(lines[k - 1])
         case Some(f) => if rule.closes(lines[k - 1], f) then None else Some(f)
  }

  predicate Kept(rule: Rule, lines: seq<string>, k: nat)
    requires k < |lines|
  {
    FenceBefore(rule, lines, k).None? && rule.opens(lines[k]).None?
  }

  /** What a removed line becomes. */
  function BareNewline(): string {
    "\n"
  }

  function StrippedLine(rule: Rule, lines: seq<string>, k: nat): string
    requires k < |lines|
  {
    if Kept(rule, lines, k) then lines[k] else BareNewline()
  }

  /** The first `k` lines, with every line that is not kept replaced by a bare newline. */
  function StrippedTo(rule: Rule, lines: seq<string>, k: nat): (kept: seq<string>)
    requires k <= |lines|
    ensures |kept| == k && forall j :: 0 <= j < k ==> kept[j] == StrippedLine(rule, lines, j)
  {
    if k == 0 then [] else StrippedTo(rule, lines, k - 1) + [StrippedLine(rule, lines, k - 1)]
  }

  function Stripped(rule: Rule, lines: seq<string>): (kept: seq<string>)
    ensures |kept| == |lines|
    ensures forall k :: 0 <= k < |lines| ==> kept[k] == StrippedLine(rule, lines, k)
  {
    StrippedTo(rule, lines, |lines|)
  }

  method StripFencedBlocks(rule: Rule, lines: seq<string>) returns (kept: seq<string>)
    ensures kept == Stripped(rule, lines)
  {
    kept := [];
    var fence: Option<Fence> := None;
    for k := 0 to |lines|
      invariant fence == FenceBefore(rule, lines, k)
      invariant kept == StrippedTo(rule, lines, k)
    {
      var line := lines[k];
      if fence.Some? {
        if rule.closes(line, fence.value) {
          fence := None;
        }
        kept := kept + [BareNewline()];
        continue;
      }
      var open := rule.opens(line);
      if open.Some? {
        fence := open;
        kept := kept + [BareNewline()];
        continue;
      }
      kept := kept + [line];
    }
  }

  // ----- the declarative reading -----

  /** The block that line `h` opens, if it opens one, still holds line `k`: no line strictly
      between them closes it.  The closing line itself is held. */
  ghost predicate Holds(rule: Rule, lines: seq<string>, h: nat, k: nat) {
    && h < |lines| && h <= k <= |lines|
    && match rule.opens(lines[h])
       case None => false
       case Some(f) => forall j :: h < j < k ==> !rule.closes(lines[j], f)
  }

  /** `heads` are the lines that open a block: those shaped as an opening marker that the block
      of no earlier head holds. */
  ghost predicate AreHeads(rule: Rule, lines: seq<string>, heads: set<nat>) {
    forall k: nat :: k in heads <==>
      && k < |lines| && rule.opens(lines[k]).Some?
      && forall h :: h in heads && h < k ==> !Holds(rule, lines, h, k)
  }

  predicate IsHead(rule: Rule, lines: seq<string>, k: nat) {
    k < |lines| && FenceBefore(rule, lines, k).None? && rule.opens(lines[k]).Some?
  }

  lemma {:induction false} HeldIsFenced(rule: Rule, lines: seq<string>, h: nat, k: nat)
    requires IsHead(rule, lines, h) && Holds(rule, lines, h, k) && h < k
    ensures FenceBefore(rule, lines, k) == rule.opens(lines[h])
    decreases k
  {
    if h < k - 1 {
      HeldIsFenced(rule, lines, h, k - 1);
    }
  }

  lemma {:induction false} FencedIsHeld(rule: Rule, lines: seq<string>, k: nat) returns (h: nat)
    requires k <= |lines| && FenceBefore(rule, lines, k).Some?
    ensures h < k && IsHead(rule, lines, h) && Holds(rule, lines, h, k)
    ensures FenceBefore(rule, lines, k) == rule.opens(lines[h])
  {
    if FenceBefore(rule, lines, k - 1).None? {
      h := k - 1;
    } else {
      h := FencedIsHeld(rule, lines, k - 1);
    }
  }

  /** There is exactly one set of heads. */
  lemma {:induction false} HeadsExist(rule: Rule, lines: seq<string>)
    ensures AreHeads(rule, lines, set k: nat | 0 <= k < |lines| && IsHead(rule, lines, k))
  {
    var heads := set k: nat | 0 <= k < |lines| && IsHead(rule, lines, k);
    forall k: nat | k < |lines| && rule.opens(lines[k]).Some?
      ensures k in heads <==> forall h :: h in heads && h < k ==> !Holds(rule, lines, h, k)
    {
      if FenceBefore(rule, lines, k).Some? {
        var h := FencedIsHeld(rule, lines, k);
        assert h in heads;
      }
      forall h | h in heads && h < k && Holds(rule, lines, h, k)
        ensures k !in heads
      {
        HeldIsFenced(rule, lines, h, k);
      }
    }
  }

  lemma {:induction false} HeadsAreUnique(rule: Rule, lines: seq<string>, heads: set<nat>, k: nat)
    requires AreHeads(rule, lines, heads)
    ensures k in heads <==> IsHead(rule, lines, k)
    decreases k
  {
    forall h: nat | h < k
      ensures h in heads <==> IsHead(rule, lines, h)
    {
      HeadsAreUnique(rule, lines, heads, h);
    }
    if k < |lines| && rule.opens(lines[k]).Some? {
      if FenceBefore(rule, lines, k).Some? {
        var h := FencedIsHeld(rule, lines, k);
        assert h in heads;
      }
      forall h | h in heads && h < k && Holds(rule, lines, h, k)
        ensures FenceBefore(rule, lines, k).Some?
      {
        HeldIsFenced(rule, lines, h, k);
      }
    }
  }

  /** A line is kept exactly when the block of no head holds it. */
  lemma {:induction false} KeptIffHeldByNone(rule: Rule, lines: seq<string>, heads: set<nat>, k: nat)
    requires AreHeads(rule, lines, heads) && k < |lines|
    ensures Kept(rule, lines, k) <==> forall h :: h in heads ==> !Holds(rule, lines, h, k)
  {
    HeadsAreUnique(rule, lines, heads, k);
    if FenceBefore(rule, lines, k).Some? {
      var h := FencedIsHeld(rule, lines, k);
      HeadsAreUnique(rule, lines, heads, h);
    }
    forall h | h in heads && Holds(rule, lines, h, k)
      ensures !Kept(rule, lines, k)
    {
      HeadsAreUnique(rule, lines, heads, h);
      if h < k {
        HeldIsFenced(rule, lines, h, k);
      }
    }
  }

  /** So the stripped text has each kept line as it is, and a bare newline for any other. */
  lemma StrippedIs(rule: Rule, lines: seq<string>, heads: set<nat>, k: nat)
    requires AreHeads(rule, lines, heads) && k < |lines|
    ensures Stripped(rule, lines)[k] == if forall h :: h in heads ==> !Holds(rule, lines, h, k) then lines[k] else "\n"
  {
    KeptIffHeldByNone(rule, lines, heads, k);
  }

  // ----- idempotence and independence -----

  /** Once stripped, a text has no fence left to strip. */
  lemma {:induction false} StripIsIdempotent(rule: Rule, lines: seq<string>)
    requires rule.opens(BareNewline()).None?
    ensures Stripped(rule, Stripped(rule, lines)) == Stripped(rule, lines)
  {
    var once := Stripped(rule, lines);
    forall k: nat | k < |lines|
      ensures Kept(rule, once, k)
    {
      NoFenceLeft(rule, lines, k);
    }
  }

  lemma {:induction false} NoFenceLeft(rule: Rule, lines: seq<string>, k: nat)
    requires rule.opens(BareNewline()).None? && k <= |lines|
    ensures FenceBefore(rule, Stripped(rule, lines), k).None?
  {
    if k > 0 {
      NoFenceLeft(rule, lines, k - 1);
      assert rule.opens(Stripped(rule, lines)[k - 1]).None?;
    }
  }

  /** Two texts with the same fence shape and the same text outside: line by line, outside a
      fence they are equal or open the same fence; inside one, both close it or neither does. */
  ghost predicate AgreeOutside(rule: Rule, a: seq<string>, b: seq<string>) {
    && |a| == |b|
    && forall k :: 0 <= k < |a| ==>
         match FenceBefore(rule, a, k)
         case None => a[k] == b[k] || (rule.opens(a[k]).Some? && rule.opens(a[k]) == rule.opens(b[k]))
         case Some(f) => rule.closes(a[k], f) == rule.closes(b[k], f)
  }

  lemma {:induction false} FencesAgree(rule: Rule, a: seq<string>, b: seq<string>, k: nat)
    requires AgreeOutside(rule, a, b) && k <= |a|
    ensures FenceBefore(rule, a, k) == FenceBefore(rule, b, k)
  {
    if k > 0 {
      FencesAgree(rule, a, b, k - 1);
    }
  }

  lemma {:induction false} FencedTextDoesNotMatter(rule: Rule, a: seq<string>, b: seq<string>)
    requires AgreeOutside(rule, a, b)
    ensures Stripped(rule, a) == Stripped(rule, b)
  {
    forall k | 0 <= k < |a|
      ensures Stripped(rule, a)[k] == Stripped(rule, b)[k]
    {
      FencesAgree(rule, a, b, k);
    }
  }

  // ----- verdicts -----

  const BLOCKING_WORDS := {
    "changes", "change", "block", "blocked", "reject", "rejected", "changes_requested",
    "change_requested", "changes_needed", "changes_are_requested", "request_changes",
    "requests_changes", "requested_changes", "request_change", "needs_changes", "needs_change"
  }
  const APPROVING_WORDS := {
    "approve", "approves", "approved", "approval", "lgtm", "ok", "okay", "pass", "passes",
    "passed", "ship", "ships", "shipped"
  }

  /** `w.lower().replace("-", "_")` on the letters, dashes and quotes a verdict word is made of. */
  function Normalised(w: string): string {
    if w == [] then []
    else var c := w[0];
         [if 'A' <= c <= 'Z' then c - 'A' + 'a' else if c == '-' then '_' else c] + Normalised(w[1..])
  }

  function Joined(words: seq<string>): string {
    if words == [] then ""
    else if |words| == 1 then Normalised(words[0])
    else Normalised(words[0]) + "_" + Joined(words[1..])
  }

  function PhraseState(phrase: string): ReviewState {
    if phrase in BLOCKING_WORDS then ChangesRequested
    else if phrase in APPROVING_WORDS then Approved
    else Commented
  }

  /** `w` spells `p`, the case aside, and a dash for an underscore. */
  predicate Spells(w: string, p: string) {
    |w| == |p| && forall i :: 0 <= i < |w| ==> SpellsChar(w[i], p[i])
  }

  predicate SpellsChar(c: char, d: char) {
    d == if 'A' <= c <= 'Z' then c - 'A' + 'a' else if c == '-' then '_' else c
  }

  /** The words spell the phrase, with an underscore between any two. */
  predicate Read(words: seq<string>, phrase: string) {
    if words == [] then phrase == ""
    else if |words| == 1 then Spells(words[0], phrase)
    else
      var n := |words[0]|;
      n < |phrase| && Spells(words[0], phrase[..n]) && phrase[n] == '_' && Read(words[1..], phrase[n + 1..])
  }

  lemma {:induction false} NormalisedAt(w: string)
    ensures |Normalised(w)| == |w| && forall i :: 0 <= i < |w| ==> SpellsChar(w[i], Normalised(w)[i])
  {
    if w != [] {
      NormalisedAt(w[1..]);
      assert forall i :: 1 <= i < |w| ==> w[i] == w[1..][i - 1];
    }
  }

  lemma NormalisedSpells(w: string, p: string)
    ensures Normalised(w) == p <==> Spells(w, p)
  {
    NormalisedAt(w);
    if Spells(w, p) {
      forall i | 0 <= i < |w| ensures Normalised(w)[i] == p[i] {
        assert SpellsChar(w[i], p[i]);
      }
    }
  }

  lemma {:induction false} JoinedReads(words: seq<string>, phrase: string)
    ensures Joined(words) == phrase <==> Read(words, phrase)
  {
    if |words| == 1 {
      NormalisedSpells(words[0], phrase);
    } else if |words| > 1 {
      var n := |words[0]|;
      NormalisedLength(words[0]);
      if n < |phrase| {
        NormalisedSpells(words[0], phrase[..n]);
        JoinedReads(words[1..], phrase[n + 1..]);
        assert phrase == phrase[..n] + [phrase[n]] + phrase[n + 1..];
        var joined := Joined(words);
        assert joined == Normalised(words[0]) + "_" + Joined(words[1..]);
        assert joined[..n] == Normalised(words[0]) && joined[n + 1..] == Joined(words[1..]) && joined[n] == '_';
      }
    }
  }

  lemma {:induction false} NormalisedLength(w: string)
    ensures |Normalised(w)| == |w|
  {
    if w != [] {
      NormalisedLength(w[1..]);
    }
  }

  ghost predicate ReadOneOf(words: seq<string>, phrases: set<string>) {
    exists phrase :: phrase in phrases && Read(words, phrase)
  }

  lemma ReadOneOfIff(words: seq<string>, phrases: set<string>)
    ensures Joined(words) in phrases <==> ReadOneOf(words, phrases)
  {
    JoinedReads(words, Joined(words));
    if phrase :| phrase in phrases && Read(words, phrase) {
      JoinedReads(words, phrase);
    }
  }

  /** What a verdict says: the words block or approve as they stand, and if they do neither and there are
      three, the first two may.  No phrase does both, and no words are no verdict. */
  lemma VerdictIff(words: seq<string>)
    ensures VerdictState(words) == ChangesRequested <==>
      words != [] &&
      (ReadOneOf(words, BLOCKING_WORDS)
       || (|words| > 2 && !ReadOneOf(words, APPROVING_WORDS) && ReadOneOf(words[..2], BLOCKING_WORDS)))
    ensures VerdictState(words) == Approved <==>
      words != [] && !ReadOneOf(words, BLOCKING_WORDS) &&
      (ReadOneOf(words, APPROVING_WORDS)
       || (|words| > 2 && !ReadOneOf(words[..2], BLOCKING_WORDS) && ReadOneOf(words[..2], APPROVING_WORDS)))
    ensures VerdictState(words) in {ChangesRequested, Approved, Commented}
  {
    ReadOneOfIff(words, BLOCKING_WORDS);
    ReadOneOfIff(words, APPROVING_WORDS);
    if |words| > 2 {
      ReadOneOfIff(words[..2], BLOCKING_WORDS);
      ReadOneOfIff(words[..2], APPROVING_WORDS);
    }
  }

  /** The whole phrase is tried first, then, of three words, the first two. */
  function VerdictState(words: seq<string>): ReviewState {
    if words == [] then Commented
    else
      var whole := PhraseState(Joined(words));
      if whole == Commented && |words| > 2 then PhraseState(Joined(words[..2])) else whole
  }

  function Text(lines: seq<string>): string {
    if lines == [] then "" else Text(lines[..|lines| - 1]) + lines[|lines| - 1]
  }

  lemma {:induction false} TextIs(a: seq<string>, b: seq<string>, line: string)
    ensures Text(a + b) == Text(a) + Text(b) && Text([line]) == line && Text([]) == ""
  {
    if b == [] {
      assert a + b == a;
    } else {
      var n := |b| - 1;
      assert (a + b)[..|a + b| - 1] == a + b[..n] && (a + b)[|a + b| - 1] == b[n];
      TextIs(a, b[..n], line);
    }
  }

  /** Of the verdict phrases in text order the first decisive one decides; without one the text is
      a comment. */
  ghost predicate FirstDecisive(read: seq<string> -> ReviewState, phrases: seq<seq<string>>, state: ReviewState) {
    if state == Commented then forall k :: 0 <= k < |phrases| ==> read(phrases[k]) == Commented
    else exists k :: 0 <= k < |phrases| && read(phrases[k]) == state
           && forall j :: 0 <= j < k ==> read(phrases[j]) == Commented
  }

  ghost predicate NoneDecisive(read: seq<string> -> ReviewState, phrases: seq<seq<string>>, k: int) {
    k <= |phrases| && forall j :: 0 <= j < k ==> read(phrases[j]) == Commented
  }

  method ReadVerdict(read: seq<string> -> ReviewState, phrases: seq<seq<string>>) returns (state: ReviewState)
    ensures FirstDecisive(read, phrases, state)
  {
    for k := 0 to |phrases|
      invariant NoneDecisive(read, phrases, k)
    {
      state := read(phrases[k]);
      if state != Commented {
        return;
      }
    }
    return Commented;
  }

  /** `find` gives the words of every verdict phrase in a text, in text order; a phrase may start on
      one line and go on to the next. */
  method InSessionVerdictState(rule: Rule, find: string -> seq<seq<string>>, body: seq<string>)
    returns (state: ReviewState)
    ensures FirstDecisive(VerdictState, find(Text(Stripped(rule, body))), state)
  {
    var text := StripFencedBlocks(rule, body);
    state := ReadVerdict(VerdictState, find(Text(text)));
  }

  /** What a fenced block quotes has no say: two bodies that agree outside their fences get the
      same verdict. */
  lemma {:induction false} VerdictIgnoresFencedText(rule: Rule, find: string -> seq<seq<string>>, a: seq<string>,
                                                    b: seq<string>,
                                                    forA: ReviewState, forB: ReviewState)
    requires AgreeOutside(rule, a, b)
    requires FirstDecisive(VerdictState, find(Text(Stripped(rule, a))), forA)
    requires FirstDecisive(VerdictState, find(Text(Stripped(rule, b))), forB)
    ensures forA == forB
  {
    FencedTextDoesNotMatter(rule, a, b);
  }

  // ----- the markdown rule -----

  function Run(s: string, c: char): nat {
    if s != [] && s[0] == c then 1 + Run(s[1..], c) else 0
  }

  function LeadingFence(s: string): Option<Fence> {
    if Run(s, '`') >= 3 then Some(Fence('`', Run(s, '`')))
    else if Run(s, '~') >= 3 then Some(Fence('~', Run(s, '~')))
    else None
  }

  predicate Closes(s: string, fence: Fence) {
    match LeadingFence(s)
    case None => false
    case Some(f) =>
      && f.mark == fence.mark && f.length >= fence.length
      && forall i :: f.length <= i < |s| ==> s[i] == ' ' || s[i] == '\t'
  }

  /** Three or more backticks or tildes open a fence; a bare run of the same mark, at least as
      long, closes it.  `strip` stands for Python's `str.strip`. */
  function MarkdownRule(strip: string -> string): Rule {
    Rule(line => LeadingFence(strip(line)), (line, fence) => Closes(strip(line), fence))
  }

  lemma MarkdownRuleNewline(strip: string -> string)
    requires strip(BareNewline()) == ""
    ensures MarkdownRule(strip).opens(BareNewline()).None?
  {
    assert LeadingFence("").None?;
  }

  /** A run of `n` marks, and no more of them, at the start. */
  predicate StartsWithRun(s: string, mark: char, n: nat) {
    n <= |s| && (forall i :: 0 <= i < n ==> s[i] == mark) && (n < |s| ==> s[n] != mark)
  }

  lemma {:induction false} RunIff(s: string, c: char, n: nat)
    ensures Run(s, c) == n <==> StartsWithRun(s, c, n)
  {
    RunIsRun(s, c);
  }

  /** A line opens a fence iff, stripped, it starts with a run of three or more backticks or tildes; the
      fence is that whole run. */
  lemma OpensIff(strip: string -> string, line: string, fence: Fence)
    ensures MarkdownRule(strip).opens(line) == Some(fence) <==>
      fence.length >= 3 && (fence.mark == '`' || fence.mark == '~')
      && StartsWithRun(strip(line), fence.mark, fence.length)
  {
    RunIff(strip(line), '`', fence.length);
    RunIff(strip(line), '~', fence.length);
    RunIsRun(strip(line), '`');
    RunIsRun(strip(line), '~');
  }

  /** A line closes a fence iff, stripped, it is a run of three or more of the fence's marks, at least as
      long as the fence, and then blanks and tabs. */
  lemma ClosesIff(strip: string -> string, line: string, fence: Fence)
    requires fence.mark == '`' || fence.mark == '~'
    ensures MarkdownRule(strip).closes(line, fence) <==>
      exists n: nat :: n >= 3 && n >= fence.length && StartsWithRun(strip(line), fence.mark, n)
        && forall i :: n <= i < |strip(line)| ==> strip(line)[i] == ' ' || strip(line)[i] == '\t'
  {
    var s := strip(line);
    RunIsRun(s, '`');
    RunIsRun(s, '~');
    assert StartsWithRun(s, fence.mark, Run(s, fence.mark));
    forall n: nat | StartsWithRun(s, fence.mark, n) ensures n == Run(s, fence.mark) {
      RunIff(s, fence.mark, n);
    }
  }

  /** A fence is closed only by a line that is all marks of its own kind, at least as many, and
      blanks: not by the other mark, a shorter run, or a line with text on it. */
  lemma OnlyItsOwnMarkCloses(strip: string -> string, line: string, fence: Fence)
    requires MarkdownRule(strip).closes(line, fence)
    ensures var s := strip(line);
            && |s| >= fence.length && (forall i :: 0 <= i < fence.length ==> s[i] == fence.mark)
            && forall i :: 0 <= i < |s| ==> s[i] == fence.mark || s[i] == ' ' || s[i] == '\t'
  {
    var s := strip(line);
    RunIsRun(s, fence.mark);
  }

  lemma {:induction false} RunIsRun(s: string, c: char)
    ensures Run(s, c) <= |s|
    ensures forall i :: 0 <= i < Run(s, c) ==> s[i] == c
    ensures Run(s, c) < |s| ==> s[Run(s, c)] != c
  {
    if s != [] && s[0] == c {
      RunIsRun(s[1..], c);
    }
  }
}
