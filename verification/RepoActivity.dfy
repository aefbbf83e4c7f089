/** Windowing, bisection and daily buckets: scripts/fetch_repo_activity.py.

    Instants are whole seconds.  What GitHub holds is arbitrary; its Search API answers by pages and
    refuses every page past the thousandth result, and any request may fail. */
module RepoActivity {
  import opened Collections

  const YEAR_DAYS := 371
  const SEARCH_DAYS := 365
  const PAGE := 100
  const SEARCH_CAP := 1000
  const DAY := 86_400
  const WINDOW := 31 * DAY

  /** The calendar day of an instant. */
  function DayOf(instant: int): int {
    instant / DAY
  }

  lemma DaysBefore(instant: int, days: int)
    ensures DayOf(instant - days * DAY) == DayOf(instant) - days
  {
  }

  // ----- the pages of a search -----

  datatype Failure = CapExceeded | OtherFailure
  datatype Answer = Found(stamps: seq<int>) | Failed(failure: Failure)

  /** The `closed_at` stamps of the items that have one. */
  function Present(items: seq<Option<int>>): seq<int> {
    if items == [] then []
    else Present(items[..|items| - 1]) + (if items[|items| - 1].Some? then [items[|items| - 1].value] else [])
  }

  lemma {:induction false} PresentConcat(a: seq<Option<int>>, b: seq<Option<int>>)
    ensures Present(a + b) == Present(a) + Present(b)
  {
    if b == [] {
      assert a + b == a;
    } else {
      var n := |b| - 1;
      assert (a + b)[..|a + b| - 1] == a + b[..n] && (a + b)[|a + b| - 1] == b[n];
      PresentConcat(a, b[..n]);
    }
  }

  /** Every stamp is there as often as there are items with it. */
  lemma {:induction false} PresentCounts(items: seq<Option<int>>, t: int)
    ensures multiset(Present(items))[t] == multiset(items)[Some(t)]
  {
    if items != [] {
      var n := |items| - 1;
      PresentCounts(items[..n], t);
      assert items == items[..n] + [items[n]];
    }
  }

  datatype Page = Items(items: seq<Option<int>>) | Refused(failure: Failure)

  function PageOf(items: seq<Option<int>>, page: nat): seq<Option<int>>
    requires page >= 1
  {
    var from, to := (page - 1) * PAGE, page * PAGE;
    if from >= |items| then [] else if to >= |items| then items[from..] else items[from..to]
  }

  /** GitHub's answer to one request: `down` are the pages whose request fails for another reason. */
  function GetPage(items: seq<Option<int>>, page: nat, down: nat -> bool): Page
    requires page >= 1
  {
    if down(page) then Refused(OtherFailure)
    else if page > SEARCH_CAP / PAGE then Refused(CapExceeded)
    else Items(PageOf(items, page))
  }

  /** The pages asked for: up to the first that is not full, or the first past the cap. */
  function PagesAsked(items: seq<Option<int>>): nat {
    if |items| >= SEARCH_CAP then SEARCH_CAP / PAGE + 1 else |items| / PAGE + 1
  }

  /** What a search gives: a thousand items are already too many, with or without a stamp. */
  function Ask(items: seq<Option<int>>, down: nat -> bool): Answer {
    if exists p :: 1 <= p <= PagesAsked(items) && down(p) then Failed(OtherFailure)
    else if |items| >= SEARCH_CAP then Failed(CapExceeded)
    else Found(Present(items))
  }

  /** The pages before `page` are in `out`, and none of them was the last. */
  ghost predicate PagedTo(items: seq<Option<int>>, down: nat -> bool, page: nat, out: seq<int>) {
    && 1 <= page <= PagesAsked(items) && (page - 1) * PAGE <= |items|
    && (forall p :: 1 <= p < page ==> !down(p))
    && out == Present(items[..(page - 1) * PAGE])
  }

  /** The search in numbers: it fails for another reason iff a page it asks for does, it is over the cap from
      a thousand items on, and otherwise it gives the stamps there are. */
  lemma AskIs(items: seq<Option<int>>, down: nat -> bool)
    ensures Ask(items, down) == Failed(OtherFailure) <==>
      exists p :: 1 <= p <= 11 && (p - 1) * 100 <= |items| && down(p)
    ensures Ask(items, down) == Failed(CapExceeded) <==>
      |items| >= 1000 && forall p :: 1 <= p <= 11 ==> !down(p)
    ensures Ask(items, down).Found? ==> |items| < 1000 && Ask(items, down).stamps == Present(items)
  {
    forall p | 1 <= p <= PagesAsked(items) && down(p)
      ensures p <= 11 && (p - 1) * 100 <= |items|
    {
    }
    forall p | 1 <= p <= 11 && (p - 1) * 100 <= |items| && down(p)
      ensures p <= PagesAsked(items)
    {
    }
  }

  /** A page is the next hundred items, or what there is of them. */
  lemma PageIs(items: seq<Option<int>>, page: nat, i: nat)
    requires page >= 1
    ensures |PageOf(items, page)| ==
      if |items| <= (page - 1) * 100 then 0 else if |items| <= page * 100 then |items| - (page - 1) * 100 else 100
    ensures i < |PageOf(items, page)| ==> PageOf(items, page)[i] == items[(page - 1) * 100 + i]
  {
  }

  method SearchPages(items: seq<Option<int>>, down: nat -> bool) returns (r: Answer)
    ensures r == Ask(items, down)
  {
    var out: seq<int> := [];
    var page := 1;
    while true
      invariant PagedTo(items, down, page, out)
      decreases PagesAsked(items) - page
    {
      var answer := GetPage(items, page, down);
      if answer.Refused? {
        return Failed(answer.failure);
      }
      var batch := answer.items;
      NextPage(items, down, page, out);
      out := out + Present(batch);
      if |batch| < PAGE {
        return Found(out);
      }
      page := page + 1;
    }
  }

  lemma NextPage(items: seq<Option<int>>, down: nat -> bool, page: nat, out: seq<int>)
    requires PagedTo(items, down, page, out) && GetPage(items, page, down).Items?
    ensures var batch := PageOf(items, page);
            if |batch| < PAGE then Ask(items, down) == Found(out + Present(batch))
            else PagedTo(items, down, page + 1, out + Present(batch))
  {
    OnePage(items, page);
  }

  /** A search with exactly a thousand items fails, although its ten pages hold them all: only a
      page that is not full would have ended it. */
  lemma ExactlyAThousand(items: seq<Option<int>>)
    requires |items| == 1000
    ensures Ask(items, page => false) == Failed(CapExceeded)
    ensures forall page :: 1 <= page <= 10 ==> |PageOf(items, page)| == 100
  {
  }

  /** A page that is not full is the last of the items, and a full one is not. */
  lemma OnePage(items: seq<Option<int>>, page: nat)
    requires 1 <= page <= SEARCH_CAP / PAGE && (page - 1) * PAGE <= |items|
    ensures var batch := PageOf(items, page);
            var sofar := Present(items[..(page - 1) * PAGE]) + Present(batch);
            if |batch| < PAGE then sofar == Present(items) && page == PagesAsked(items) && |items| < SEARCH_CAP
            else page * PAGE <= |items| && sofar == Present(items[..page * PAGE]) && page < PagesAsked(items)
  {
    var from, batch := (page - 1) * PAGE, PageOf(items, page);
    PresentConcat(items[..from], batch);
    PageExtends(items, page);
  }

  lemma PageExtends(items: seq<Option<int>>, page: nat)
    requires page >= 1 && (page - 1) * PAGE <= |items|
    ensures var batch := PageOf(items, page);
            items[..(page - 1) * PAGE] + batch == if |batch| < PAGE then items else items[..page * PAGE]
    ensures |PageOf(items, page)| < PAGE <==> |items| < page * PAGE
  {
  }

  // ----- what happened in a span of days -----

  /** Everything that happened from day `first` to day `last`, both included. */
  ghost function Between<T>(day: int -> multiset<T>, first: int, last: int): multiset<T>
    decreases last - first
  {
    if first > last then multiset{} else Between(day, first, last - 1) + day(last)
  }

  /** A day of the span is in it, and a span before its start is empty. */
  lemma BetweenOne<T>(day: int -> multiset<T>, d: int, e: int)
    ensures Between(day, d, d) == day(d)
    ensures e < d ==> Between(day, d, e) == multiset{}
  {
    assert Between(day, d, d - 1) == multiset{};
  }

  lemma {:induction false} BetweenSplits<T>(day: int -> multiset<T>, first: int, mid: int, last: int)
    requires first <= mid + 1 && mid <= last
    ensures Between(day, first, last) == Between(day, first, mid) + Between(day, mid + 1, last)
    decreases last - mid
  {
    if mid < last {
      BetweenSplits(day, first, mid, last - 1);
    }
  }

  lemma {:induction false} BetweenGrows<T>(day: int -> multiset<T>, a: int, d: int, b: int)
    requires a <= d <= b
    ensures |Between(day, a, b)| >= |day(d)|
    decreases b - d
  {
    if d < b {
      BetweenGrows(day, a, d, b - 1);
    }
  }

  // ----- the search, bisected past its result cap -----

  /** The items of a search over a span of days, and the pages of it whose request fails. */
  datatype Search = Search(items: (int, int) -> seq<Option<int>>, down: (int, int) -> (nat -> bool)) {
    function Asked(first: int, last: int): Answer {
      Ask(items(first, last), down(first, last))
    }
  }

  /** The search finds what is filed under the days of the span. */
  ghost predicate Exact(search: Search, filed: int -> multiset<Option<int>>) {
    forall a, b :: multiset(search.items(a, b)) == Between(filed, a, b)
  }

  ghost predicate NeverDown(search: Search) {
    forall a, b, p :: !search.down(a, b)(p)
  }

  predicate TooMany(filed: int -> multiset<Option<int>>, day: int) {
    |filed(day)| >= SEARCH_CAP
  }

  /** A day blocks every search that spans it iff it alone has a thousand items. */
  lemma BlocksIffOverCap(search: Search, filed: int -> multiset<Option<int>>, d: int)
    requires Exact(search, filed) && NeverDown(search)
    ensures (forall a, b :: a <= d <= b ==> search.Asked(a, b).Failed?) <==> TooMany(filed, d)
  {
    OneDay(search, filed, d);
    if TooMany(filed, d) {
      forall a, b | a <= d <= b ensures search.Asked(a, b).Failed? {
        BetweenGrows(filed, a, d, b);
        assert |search.items(a, b)| == |multiset(search.items(a, b))|;
      }
    } else {
      assert search.Asked(d, d).Found?;
    }
  }

  lemma OneDay(search: Search, filed: int -> multiset<Option<int>>, d: int)
    requires Exact(search, filed)
    ensures |search.items(d, d)| == |filed(d)|
  {
    assert Between(filed, d, d - 1) == multiset{};
    assert Between(filed, d, d) == filed(d);
    assert |search.items(d, d)| == |multiset(search.items(d, d))|;
  }

  class Rows {
    var items: seq<int>

    constructor ()
      ensures items == []
    {
      items := [];
    }
  }

  /** Each stamp filed in the span is in `after` once more than in `before`. */
  ghost predicate Appended(filed: int -> multiset<Option<int>>, first: int, last: int, before: seq<int>,
                           after: seq<int>) {
    before <= after && forall t :: multiset(after)[t] == multiset(before)[t] + Between(filed, first, last)[Some(t)]
  }

  /** What a search of a span does.  It succeeds only if no day has too many items, and has then
      appended every stamp once.  It reports the cap only if some day has too many, and another
      failure only if some request failed. */
  ghost predicate Searched(search: Search, filed: int -> multiset<Option<int>>, first: int, last: int,
                           before: seq<int>, after: seq<int>, failure: Option<Failure>) {
    match failure
    case None =>
      Appended(filed, first, last, before, after) && forall d :: first <= d <= last ==> !TooMany(filed, d)
    case Some(CapExceeded) => exists d :: first <= d <= last && TooMany(filed, d)
    case Some(OtherFailure) => exists a, b, p :: search.down(a, b)(p)
  }

  lemma HalvesJoin(search: Search, filed: int -> multiset<Option<int>>, first: int, mid: int, last: int,
                   before: seq<int>, between: seq<int>, after: seq<int>, failure: Option<Failure>)
    requires first <= mid < last
    requires Searched(search, filed, first, mid, before, between, None)
    requires Searched(search, filed, mid + 1, last, between, after, failure)
    ensures Searched(search, filed, first, last, before, after, failure)
  {
    BetweenSplits(filed, first, mid, last);
  }

  /** A search that is answered: no day of the span has too many items. */
  lemma AnsweredOnce(search: Search, filed: int -> multiset<Option<int>>, first: int, last: int, before: seq<int>)
    requires Exact(search, filed) && search.Asked(first, last).Found?
    ensures Searched(search, filed, first, last, before, before + search.Asked(first, last).stamps, None)
  {
    AllPresent(search.items(first, last), filed, first, last);
    var stamps := search.Asked(first, last).stamps;
    assert multiset(before + stamps) == multiset(before) + multiset(stamps);
  }

  /** A search that is refused, for good or because no smaller span is left. */
  lemma RefusedOnce(search: Search, filed: int -> multiset<Option<int>>, first: int, last: int, before: seq<int>)
    requires Exact(search, filed) && search.Asked(first, last).Failed?
    requires search.Asked(first, last).failure == OtherFailure || first >= last
    ensures Searched(search, filed, first, last, before, before, Some(search.Asked(first, last).failure))
  {
    if first == last {
      OneDay(search, filed, first);
      assert search.Asked(first, first).failure == CapExceeded ==> TooMany(filed, first);
    }
  }

  /** Items that are those of a span: its stamps, and no fewer than any of its days has. */
  lemma AllPresent(items: seq<Option<int>>, filed: int -> multiset<Option<int>>, first: int, last: int)
    requires multiset(items) == Between(filed, first, last)
    ensures Appended(filed, first, last, [], Present(items))
    ensures forall d :: first <= d <= last ==> |items| >= |filed(d)|
  {
    assert |items| == |multiset(items)|;
    forall t ensures multiset(Present(items))[t] == Between(filed, first, last)[Some(t)] {
      PresentCounts(items, t);
    }
    forall d | first <= d <= last ensures |items| >= |filed(d)| {
      BetweenGrows(filed, first, d, last);
    }
  }

  method SearchSpan(search: Search, ghost filed: int -> multiset<Option<int>>, first: int, last: int, out: Rows)
    returns (failure: Option<Failure>)
    requires Exact(search, filed)
    modifies out
    decreases last - first
    ensures Searched(search, filed, first, last, old(out.items), out.items, failure)
  {
    ghost var before := out.items;
    var answer := SearchPages(search.items(first, last), search.down(first, last));
    if answer.Found? {
      AnsweredOnce(search, filed, first, last, before);
      out.items := out.items + answer.stamps;
      return None;
    }
    if answer.failure != CapExceeded || first >= last {
      RefusedOnce(search, filed, first, last, before);
      return Some(answer.failure);
    }
    var mid := first + (last - first) / 2;
    failure := SearchSpan(search, filed, first, mid, out);
    if failure.Some? {
      return;
    }
    ghost var between := out.items;
    failure := SearchSpan(search, filed, mid + 1, last, out);
    HalvesJoin(search, filed, first, mid, last, before, between, out.items, failure);
  }

  /** `_search_dates`: the open-ended query first; on the cap, spans from its start to today. */
  method SearchDates(open: seq<Option<int>>, openDown: nat -> bool, since: Option<int>, today: int,
                     search: Search, ghost filed: int -> multiset<Option<int>>)
    returns (r: Answer)
    requires Exact(search, filed)
    requires since.Some? ==> multiset(open) == Between(filed, since.value, today)
    ensures since.None? ==> r == Ask(open, openDown)
    ensures r.Found? && since.Some? ==> Appended(filed, since.value, today, [], r.stamps)
    // With no request failing, the search fails iff some single day has too many items; the open
    // query has then too many as well.
    ensures NeverDown(search) && (forall p :: !openDown(p)) && since.Some? ==>
      (r.Failed? <==> exists d :: since.value <= d <= today && TooMany(filed, d)) &&
      (r.Failed? ==> r.failure == CapExceeded && |open| >= SEARCH_CAP)
  {
    r := SearchPages(open, openDown);
    if since.None? {
      return;
    }
    AllPresent(open, filed, since.value, today);
    if r != Failed(CapExceeded) {
      return;
    }
    var out := new Rows();
    var failure := SearchSpan(search, filed, since.value, today, out);
    if failure.Some? {
      return Failed(failure.value);
    }
    return Found(out.items);
  }

  // ----- counting instants -----

  /** How many of the instants lie in `[start, stop)`. */
  ghost function Count(h: multiset<int>, start: int, stop: int): nat
    decreases stop - start
  {
    if start >= stop then 0 else Count(h, start, stop - 1) + h[stop - 1]
  }

  lemma {:induction false} CountSplits(h: multiset<int>, start: int, mid: int, stop: int)
    requires start <= mid <= stop
    ensures Count(h, start, stop) == Count(h, start, mid) + Count(h, mid, stop)
    decreases stop - mid
  {
    if mid < stop {
      CountSplits(h, start, mid, stop - 1);
    }
  }

  lemma {:induction false} CountAgrees(h: multiset<int>, k: multiset<int>, start: int, stop: int)
    requires forall t :: start <= t < stop ==> h[t] == k[t]
    ensures Count(h, start, stop) == Count(k, start, stop)
    decreases stop - start
  {
    if start < stop {
      CountAgrees(h, k, start, stop - 1);
    }
  }

  lemma {:induction false} CountOneMore(h: multiset<int>, t: int, start: int, stop: int)
    ensures Count(h + multiset{t}, start, stop) == Count(h, start, stop) + (if start <= t < stop then 1 else 0)
    decreases stop - start
  {
    if start < stop {
      CountOneMore(h, t, start, stop - 1);
    }
  }

  lemma {:induction false} CountNothing(start: int, stop: int)
    ensures Count(multiset{}, start, stop) == 0
    decreases stop - start
  {
    if start < stop {
      CountNothing(start, stop - 1);
    }
  }

  /** How many of the instants lie on a calendar day. */
  ghost function OnDay(h: multiset<int>, day: int): nat {
    Count(h, day * DAY, (day + 1) * DAY)
  }

  /** `part` is what `whole` holds in `[start, stop)`. */
  ghost predicate IsWindow(part: multiset<int>, whole: multiset<int>, start: int, stop: int) {
    forall t :: part[t] == if start <= t < stop then whole[t] else 0
  }

  lemma WindowHolds(part: multiset<int>, whole: multiset<int>, start: int, stop: int, a: int, b: int)
    requires IsWindow(part, whole, start, stop)
    ensures start <= a && b <= stop ==> Count(part, a, b) == Count(whole, a, b)
    ensures b <= start || stop <= a ==> Count(part, a, b) == 0
  {
    if start <= a && b <= stop {
      CountAgrees(part, whole, a, b);
    }
    if b <= start || stop <= a {
      CountAgrees(part, multiset{}, a, b);
      CountNothing(a, b);
    }
  }

  // ----- month windows -----

  /** Consecutive windows `[from, to)` of at most a month that tile `[start, stop)`. */
  ghost predicate Tile(windows: seq<(int, int)>, start: int, stop: int) {
    && (forall i :: 0 <= i < |windows| ==> windows[i].0 < windows[i].1 <= windows[i].0 + WINDOW)
    && (forall i :: 0 <= i < |windows| - 1 ==> windows[i].1 == windows[i + 1].0)
    && (if windows == [] then start >= stop else windows[0].0 == start && windows[|windows| - 1].1 == stop)
  }

  /** The windows fetched so far tile the time before `cursor`, and their commits are all in. */
  ghost predicate Fetched(history: multiset<int>, start: int, cursor: int, out: seq<int>, windows: seq<(int, int)>) {
    && start <= cursor && Tile(windows, start, cursor) && (windows == [] <==> cursor == start)
    && IsWindow(multiset(out), history, start, cursor)
  }

  /** The request for the commits of a window brings them all, each once. */
  ghost predicate Fetches(fetch: (int, int) -> seq<int>, history: multiset<int>) {
    forall a, b :: IsWindow(multiset(fetch(a, b)), history, a, b)
  }

  /** `_year_commits`: `history` are the instants of the commits, and `fetch` asks for those of one
      window.  The windows keep the time of day of `end`. */
  method YearCommits(fetch: (int, int) -> seq<int>, ghost history: multiset<int>, end: int, total: int)
    returns (out: seq<int>, ghost windows: seq<(int, int)>)
    requires Fetches(fetch, history)
    ensures IsWindow(multiset(out), history, end - (total - 1) * DAY, end + DAY)
    ensures Tile(windows, end - (total - 1) * DAY, end + DAY)
  {
    out, windows := [], [];
    var start := end - (total - 1) * DAY;
    var cursor := start;
    while cursor <= end
      invariant cursor <= end + DAY || (cursor == start && start > end)
      invariant (end - cursor) % DAY == 0
      invariant Fetched(history, start, cursor, out, windows)
      decreases end - cursor
    {
      var next := if cursor + WINDOW < end + DAY then cursor + WINDOW else end + DAY;
      var batch := fetch(cursor, next);
      out := out + batch;
      windows := windows + [(cursor, next)];
      cursor := next;
    }
  }

  // ----- daily buckets -----

  predicate StampedOn(stamp: Option<int>, day: int) {
    stamp.Some? && DayOf(stamp.value) == day
  }

  /** How many of the stamps are on a day; a missing stamp is `None`. */
  function CountOn(stamps: seq<Option<int>>, day: int): nat {
    if stamps == [] then 0
    else CountOn(stamps[..|stamps| - 1], day) + (if StampedOn(stamps[|stamps| - 1], day) then 1 else 0)
  }

  function CountWithin(stamps: seq<Option<int>>, first: int, stop: int): nat {
    if stamps == [] then 0
    else
      var last := stamps[|stamps| - 1];
      CountWithin(stamps[..|stamps| - 1], first, stop)
      + (if last.Some? && first <= DayOf(last.value) < stop then 1 else 0)
  }

  datatype DayRow = DayRow(date: int, count: nat, commits: nat, pulls: nat, issues: nat)

  type Buckets = map<int, nat>

  function At(m: Buckets, day: int): nat {
    if day in m then m[day] else 0
  }

  /** `add` over one source: its bucket and the running counts. */
  method Tally(stamps: seq<Option<int>>, counts: Buckets) returns (bucket: Buckets, counts': Buckets)
    ensures forall d :: At(bucket, d) == CountOn(stamps, d)
    ensures forall d :: At(counts', d) == At(counts, d) + CountOn(stamps, d)
  {
    bucket, counts' := map[], counts;
    for k := 0 to |stamps|
      invariant forall d :: At(bucket, d) == CountOn(stamps[..k], d)
      invariant forall d :: At(counts', d) == At(counts, d) + CountOn(stamps[..k], d)
    {
      assert stamps[..k + 1][..k] == stamps[..k];
      if stamps[k].Some? {
        var day := DayOf(stamps[k].value);
        counts' := counts'[day := At(counts', day) + 1];
        bucket := bucket[day := At(bucket, day) + 1];
      }
    }
    assert stamps[..|stamps|] == stamps;
  }

  function RowOf(commits: seq<Option<int>>, merged: seq<Option<int>>, closed: seq<Option<int>>, day: int): DayRow {
    DayRow(day, CountOn(commits, day) + CountOn(merged, day) + CountOn(closed, day),
           CountOn(commits, day), CountOn(merged, day), CountOn(closed, day))
  }

  ghost predicate IsDaily(commits: seq<Option<int>>, merged: seq<Option<int>>, closed: seq<Option<int>>, first: int,
                          rows: seq<DayRow>) {
    forall i :: 0 <= i < |rows| ==> rows[i] == RowOf(commits, merged, closed, first + i)
  }

  method ToDaily(commits: seq<Option<int>>, merged: seq<Option<int>>, closed: seq<Option<int>>, end: int, total: int)
    returns (out: seq<DayRow>)
    ensures |out| == if total > 0 then total else 0
    ensures IsDaily(commits, merged, closed, DayOf(end) - (total - 1), out)
  {
    var counts: Buckets := map[];
    var byCommits, byPulls, byIssues;
    byCommits, counts := Tally(commits, counts);
    byPulls, counts := Tally(merged, counts);
    byIssues, counts := Tally(closed, counts);
    var start := DayOf(end - (total - 1) * DAY);
    DaysBefore(end, total - 1);
    out := [];
    var i := 0;
    while i < total
      invariant 0 <= i && |out| == i && (total > 0 ==> i <= total) && (total <= 0 ==> i == 0)
      invariant IsDaily(commits, merged, closed, start, out)
    {
      var day := start + i;
      out := out + [DayRow(day, At(counts, day), At(byCommits, day), At(byPulls, day), At(byIssues, day))];
      i := i + 1;
    }
  }

  function SumCommits(rows: seq<DayRow>): nat {
    if rows == [] then 0 else SumCommits(rows[..|rows| - 1]) + rows[|rows| - 1].commits
  }

  function SumPulls(rows: seq<DayRow>): nat {
    if rows == [] then 0 else SumPulls(rows[..|rows| - 1]) + rows[|rows| - 1].pulls
  }

  function SumIssues(rows: seq<DayRow>): nat {
    if rows == [] then 0 else SumIssues(rows[..|rows| - 1]) + rows[|rows| - 1].issues
  }

  function SumCounts(rows: seq<DayRow>): nat {
    if rows == [] then 0 else SumCounts(rows[..|rows| - 1]) + rows[|rows| - 1].count
  }

  lemma {:induction false} OneMoreDay(stamps: seq<Option<int>>, first: int, stop: int)
    requires first <= stop
    ensures CountWithin(stamps, first, stop + 1) == CountWithin(stamps, first, stop) + CountOn(stamps, stop)
  {
    if stamps != [] {
      OneMoreDay(stamps[..|stamps| - 1], first, stop);
    }
  }

  lemma {:induction false} EmptyWindow(stamps: seq<Option<int>>, first: int)
    ensures CountWithin(stamps, first, first) == 0
  {
    if stamps != [] {
      EmptyWindow(stamps[..|stamps| - 1], first);
    }
  }

  /** Conservation: each bucket over all rows is the number of its stamps in the window, and the
      counts are all of them. */
  lemma {:induction false} DailyConserves(commits: seq<Option<int>>, merged: seq<Option<int>>,
                                          closed: seq<Option<int>>, first: int, rows: seq<DayRow>)
    requires IsDaily(commits, merged, closed, first, rows)
    ensures SumCommits(rows) == CountWithin(commits, first, first + |rows|)
    ensures SumPulls(rows) == CountWithin(merged, first, first + |rows|)
    ensures SumIssues(rows) == CountWithin(closed, first, first + |rows|)
    ensures SumCounts(rows) == SumCommits(rows) + SumPulls(rows) + SumIssues(rows)
  {
    if rows == [] {
      EmptyWindow(commits, first);
      EmptyWindow(merged, first);
      EmptyWindow(closed, first);
    } else {
      var n := |rows| - 1;
      DailyConserves(commits, merged, closed, first, rows[..n]);
      OneMoreDay(commits, first, first + n);
      OneMoreDay(merged, first, first + n);
      OneMoreDay(closed, first, first + n);
    }
  }

  // ----- the heatmap -----

  function Stamped(instants: seq<int>): (stamps: seq<Option<int>>)
    ensures |stamps| == |instants| && forall i :: 0 <= i < |stamps| ==> stamps[i] == Some(instants[i])
  {
    if instants == [] then [] else Stamped(instants[..|instants| - 1]) + [Some(instants[|instants| - 1])]
  }

  lemma {:induction false} StampsOnDay(instants: seq<int>, day: int)
    ensures CountOn(Stamped(instants), day) == OnDay(multiset(instants), day)
  {
    if instants == [] {
      CountNothing(day * DAY, (day + 1) * DAY);
    } else {
      var n := |instants| - 1;
      StampsOnDay(instants[..n], day);
      assert Stamped(instants)[..n] == Stamped(instants[..n]);
      assert instants == instants[..n] + [instants[n]];
      assert multiset(instants) == multiset(instants[..n]) + multiset{instants[n]};
      CountOneMore(multiset(instants[..n]), instants[n], day * DAY, (day + 1) * DAY);
    }
  }

  /** The first day of the heatmap, and the instant from which its commits are fetched. */
  function FirstDay(now: int): int {
    DayOf(now) - (YEAR_DAYS - 1)
  }

  function CommitsFrom(now: int): int {
    now - (YEAR_DAYS - 1) * DAY
  }

  /** Merged pulls and closed issues are only asked for from this day on. */
  function SearchedFrom(now: int): int {
    DayOf(now) - SEARCH_DAYS
  }

  /** What the row of a day of the heatmap holds of the commits, merges and closed issues there are. */
  ghost predicate IsHeatRow(now: int, commits: multiset<int>, merges: multiset<int>, closes: multiset<int>,
                            day: int, row: DayRow) {
    && row.date == day
    && row.commits == (if day == FirstDay(now) then Count(commits, CommitsFrom(now), (day + 1) * DAY)
                       else OnDay(commits, day))
    && row.pulls == (if day < SearchedFrom(now) then 0 else OnDay(merges, day))
    && row.issues == (if day < SearchedFrom(now) then 0 else OnDay(closes, day))
    && row.count == row.commits + row.pulls + row.issues
  }

  ghost predicate IsHeatmap(now: int, commits: multiset<int>, merges: multiset<int>, closes: multiset<int>,
                            rows: seq<DayRow>) {
    && |rows| == YEAR_DAYS
    && forall i :: 0 <= i < |rows| ==> IsHeatRow(now, commits, merges, closes, FirstDay(now) + i, rows[i])
  }

  /** A day of the heatmap in the commits fetched for it: every day but the first is whole. */
  lemma FetchedOnDay(now: int, commits: multiset<int>, part: multiset<int>, day: int)
    requires IsWindow(part, commits, CommitsFrom(now), now + DAY)
    requires FirstDay(now) <= day <= DayOf(now)
    ensures OnDay(part, day)
      == if day == FirstDay(now) then Count(commits, CommitsFrom(now), (day + 1) * DAY) else OnDay(commits, day)
  {
    DaysBefore(now, YEAR_DAYS - 1);
    var from, to := day * DAY, (day + 1) * DAY;
    if day == FirstDay(now) {
      CountSplits(part, from, CommitsFrom(now), to);
      WindowHolds(part, commits, CommitsFrom(now), now + DAY, from, CommitsFrom(now));
      WindowHolds(part, commits, CommitsFrom(now), now + DAY, CommitsFrom(now), to);
    } else {
      WindowHolds(part, commits, CommitsFrom(now), now + DAY, from, to);
    }
  }

  lemma SearchedOnDay(whole: multiset<int>, part: multiset<int>, since: int, today: int, day: int)
    requires IsWindow(part, whole, since * DAY, (today + 1) * DAY) && day <= today
    ensures OnDay(part, day) == if day < since then 0 else OnDay(whole, day)
  {
    WindowHolds(part, whole, since * DAY, (today + 1) * DAY, day * DAY, (day + 1) * DAY);
  }

  /** Every item with a stamp is filed under the day of its stamp. */
  ghost predicate FiledByDay(filed: int -> multiset<Option<int>>, merges: multiset<int>) {
    forall d, t :: filed(d)[Some(t)] == if DayOf(t) == d then merges[t] else 0
  }

  lemma {:induction false} FiledBetween(filed: int -> multiset<Option<int>>, merges: multiset<int>, a: int, b: int,
                                        t: int)
    requires FiledByDay(filed, merges)
    ensures Between(filed, a, b)[Some(t)] == if a <= DayOf(t) <= b then merges[t] else 0
    decreases b - a
  {
    if a <= b {
      FiledBetween(filed, merges, a, b - 1, t);
    }
  }

  lemma MergesFound(filed: int -> multiset<Option<int>>, merges: multiset<int>, since: int, today: int,
                    stamps: seq<int>)
    requires FiledByDay(filed, merges) && Appended(filed, since, today, [], stamps)
    ensures IsWindow(multiset(stamps), merges, since * DAY, (today + 1) * DAY)
  {
    forall t ensures multiset(stamps)[t] == if since * DAY <= t < (today + 1) * DAY then merges[t] else 0 {
      FiledBetween(filed, merges, since, today, t);
    }
  }

  ghost predicate IsClosedSince(part: multiset<int>, whole: multiset<int>, since: int) {
    forall t :: part[t] == if since <= DayOf(t) then whole[t] else 0
  }

  /** The closed issues of the whole issue list, from the day `since` on. */
  method ClosedSince(list: seq<Option<int>>, since: int) returns (out: seq<int>)
    ensures forall t :: multiset(out)[t] == if since <= DayOf(t) then multiset(list)[Some(t)] else 0
  {
    out := [];
    for k := 0 to |list|
      invariant forall t :: multiset(out)[t] == if since <= DayOf(t) then multiset(list[..k])[Some(t)] else 0
    {
      assert list[..k + 1] == list[..k] + [list[k]];
      if list[k].Some? && since <= DayOf(list[k].value) {
        out := out + [list[k].value];
      }
    }
    assert list[..|list|] == list;
  }

  lemma EmptyIff(stamps: seq<int>, whole: multiset<int>, start: int, stop: int)
    requires IsWindow(multiset(stamps), whole, start, stop)
    ensures stamps == [] <==> forall t :: start <= t < stop ==> whole[t] == 0
  {
    if stamps != [] {
      var t := stamps[0];
      assert multiset(stamps)[t] > 0;
      assert start <= t < stop && whole[t] != 0;
    } else {
      forall t | start <= t < stop ensures whole[t] == 0 {
        assert multiset(stamps)[t] == 0;
      }
    }
  }

  lemma NoneClosedIff(closed: seq<int>, closes: multiset<int>, since: int)
    requires IsClosedSince(multiset(closed), closes, since)
    ensures closed == [] <==> forall t :: since <= DayOf(t) ==> closes[t] == 0
  {
    if closed != [] {
      var t := closed[0];
      assert multiset(closed)[t] > 0;
      assert since <= DayOf(t) && closes[t] != 0;
    } else {
      forall t | since <= DayOf(t) ensures closes[t] == 0 {
        assert multiset(closed)[t] == 0;
      }
    }
  }

  /** What the heatmap is built from: the requests for commits, merged pulls and closed issues, and
      what there is of each.  `today` is read again during the search. */
  ghost predicate AreSources(now: int, fetch: (int, int) -> seq<int>, commits: multiset<int>, open: seq<Option<int>>,
                             today: int,
                             search: Search, filed: int -> multiset<Option<int>>, merges: multiset<int>,
                             list: seq<Option<int>>, closes: multiset<int>) {
    && Fetches(fetch, commits)
    && DayOf(now) <= today && Exact(search, filed) && FiledByDay(filed, merges)
    && multiset(open) == Between(filed, SearchedFrom(now), today)
    && forall t :: closes[t] == multiset(list)[Some(t)]
  }

  /** The script stops: a search is over the cap, or nothing was merged or nothing closed. */
  ghost predicate NoHeatmap(now: int, today: int, filed: int -> multiset<Option<int>>, merges: multiset<int>,
                            closes: multiset<int>) {
    || (exists d :: SearchedFrom(now) <= d <= today && TooMany(filed, d))
    || (forall t :: SearchedFrom(now) * DAY <= t < (today + 1) * DAY ==> merges[t] == 0)
    || (forall t :: SearchedFrom(now) <= DayOf(t) ==> closes[t] == 0)
  }

  /** The merged pulls and the closed issues of `collect`. */
  method MergedAndClosed(now: int, fetch: (int, int) -> seq<int>, ghost commits: multiset<int>,
                         open: seq<Option<int>>, openDown: nat -> bool, today: int, search: Search,
                         ghost filed: int -> multiset<Option<int>>, ghost merges: multiset<int>,
                         list: seq<Option<int>>, ghost closes: multiset<int>)
    returns (ok: bool, merged: seq<int>, closed: seq<int>)
    requires AreSources(now, fetch, commits, open, today, search, filed, merges, list, closes)
    ensures ok ==> IsWindow(multiset(merged), merges, SearchedFrom(now) * DAY, (today + 1) * DAY)
    ensures ok ==> IsClosedSince(multiset(closed), closes, SearchedFrom(now))
    ensures NeverDown(search) && (forall p :: !openDown(p)) ==> (!ok <==> NoHeatmap(now, today, filed, merges, closes))
  {
    DaysBefore(now, SEARCH_DAYS);
    var since := DayOf(now - SEARCH_DAYS * DAY);
    var answer := SearchDates(open, openDown, Some(since), today, search, filed);
    if answer.Failed? {
      return false, [], [];
    }
    merged := answer.stamps;
    MergesFound(filed, merges, since, today, merged);
    EmptyIff(merged, merges, since * DAY, (today + 1) * DAY);
    closed := ClosedSince(list, since);
    NoneClosedIff(closed, closes, since);
    ok := merged != [] && closed != [];
  }

  /** The heatmap part of `collect`. */
  method Heatmap(now: int, fetch: (int, int) -> seq<int>, ghost commits: multiset<int>,
                 open: seq<Option<int>>, openDown: nat -> bool, today: int, search: Search,
                 ghost filed: int -> multiset<Option<int>>, ghost merges: multiset<int>,
                 list: seq<Option<int>>, ghost closes: multiset<int>)
    returns (rows: Option<seq<DayRow>>)
    requires AreSources(now, fetch, commits, open, today, search, filed, merges, list, closes)
    ensures rows.Some? ==> IsHeatmap(now, commits, merges, closes, rows.value)
    ensures NeverDown(search) && (forall p :: !openDown(p)) ==>
      (rows.None? <==> NoHeatmap(now, today, filed, merges, closes))
  {
    var fetched, _ := YearCommits(fetch, commits, now, YEAR_DAYS);
    var ok, merged, closed :=
      MergedAndClosed(now, fetch, commits, open, openDown, today, search, filed, merges, list, closes);
    if !ok {
      return None;
    }
    var daily := ToDaily(Stamped(fetched), Stamped(merged), Stamped(closed), now, YEAR_DAYS);
    HeatRows(now, commits, merges, closes, today, fetched, merged, closed, daily);
    rows := Some(daily);
  }

  /** What the three requests brought in. */
  ghost predicate AreRequested(now: int, commits: multiset<int>, merges: multiset<int>, closes: multiset<int>,
                               today: int,
                               fetched: seq<int>, merged: seq<int>, closed: seq<int>) {
    && DayOf(now) <= today
    && IsWindow(multiset(fetched), commits, CommitsFrom(now), now + DAY)
    && IsWindow(multiset(merged), merges, SearchedFrom(now) * DAY, (today + 1) * DAY)
    && IsClosedSince(multiset(closed), closes, SearchedFrom(now))
  }

  lemma HeatRows(now: int, commits: multiset<int>, merges: multiset<int>, closes: multiset<int>, today: int,
                 fetched: seq<int>, merged: seq<int>, closed: seq<int>, daily: seq<DayRow>)
    requires AreRequested(now, commits, merges, closes, today, fetched, merged, closed)
    requires |daily| == YEAR_DAYS && IsDaily(Stamped(fetched), Stamped(merged), Stamped(closed), FirstDay(now), daily)
    ensures IsHeatmap(now, commits, merges, closes, daily)
  {
    forall i | 0 <= i < |daily|
      ensures IsHeatRow(now, commits, merges, closes, FirstDay(now) + i, daily[i])
    {
      HeatRow(now, commits, merges, closes, today, fetched, merged, closed, FirstDay(now) + i);
    }
  }

  lemma HeatRow(now: int, commits: multiset<int>, merges: multiset<int>, closes: multiset<int>, today: int,
                fetched: seq<int>, merged: seq<int>, closed: seq<int>, day: int)
    requires AreRequested(now, commits, merges, closes, today, fetched, merged, closed)
    requires FirstDay(now) <= day <= DayOf(now)
    ensures IsHeatRow(now, commits, merges, closes, day, RowOf(Stamped(fetched), Stamped(merged), Stamped(closed), day))
  {
    StampsOnDay(fetched, day);
    FetchedOnDay(now, commits, multiset(fetched), day);
    StampsOnDay(merged, day);
    SearchedOnDay(merges, multiset(merged), SearchedFrom(now), today, day);
    StampsOnDay(closed, day);
    ClosedOnDay(closes, multiset(closed), SearchedFrom(now), day);
  }

  lemma ClosedOnDay(whole: multiset<int>, part: multiset<int>, since: int, day: int)
    requires IsClosedSince(part, whole, since)
    ensures OnDay(part, day) == if day < since then 0 else OnDay(whole, day)
  {
    var from, to := day * DAY, (day + 1) * DAY;
    forall t | from <= t < to ensures part[t] == if day < since then 0 else whole[t] {
    }
    if day < since {
      CountAgrees(part, multiset{}, from, to);
      CountNothing(from, to);
    } else {
      CountAgrees(part, whole, from, to);
    }
  }

  /** The row holds all that happened on its day. */
  ghost predicate IsWholeRow(commits: multiset<int>, merges: multiset<int>, closes: multiset<int>, row: DayRow) {
    row.count == OnDay(commits, row.date) + OnDay(merges, row.date) + OnDay(closes, row.date)
  }

  ghost predicate Complete(now: int, commits: multiset<int>, merges: multiset<int>, closes: multiset<int>,
                           rows: seq<DayRow>) {
    forall i :: 0 <= i < |rows| ==> IsWholeRow(commits, merges, closes, rows[i])
  }

  /** The docstring calls the heatmap's joins exact.  They are iff nothing was committed on the first
      day before the time of day of `now`, and nothing merged or closed on the first five days. */
  lemma HeatmapIsCompleteIff(now: int, commits: multiset<int>, merges: multiset<int>, closes: multiset<int>,
                             rows: seq<DayRow>)
    requires IsHeatmap(now, commits, merges, closes, rows)
    ensures Complete(now, commits, merges, closes, rows) <==>
      Count(commits, (DayOf(now) - 370) * 86_400, now - 370 * 86_400) == 0 &&
      forall d :: DayOf(now) - 370 <= d <= DayOf(now) - 366 ==> OnDay(merges, d) == 0 && OnDay(closes, d) == 0
  {
    forall i | 0 <= i < |rows|
      ensures IsWholeRow(commits, merges, closes, rows[i]) <==>
        MissesNothing(now, commits, merges, closes, FirstDay(now) + i)
      ensures rows[i].date == FirstDay(now) + i
    {
      RowIsWholeIff(now, commits, merges, closes, FirstDay(now) + i, rows[i]);
    }
    if Complete(now, commits, merges, closes, rows) {
      assert IsWholeRow(commits, merges, closes, rows[0]);
      assert MissesNothing(now, commits, merges, closes, FirstDay(now) + 0);
      forall d | FirstDay(now) <= d < SearchedFrom(now)
        ensures OnDay(merges, d) == 0 && OnDay(closes, d) == 0
      {
        var i := d - FirstDay(now);
        assert IsWholeRow(commits, merges, closes, rows[i]);
      }
    }
  }

  /** Nothing of the day is out of the reach of the requests. */
  ghost predicate MissesNothing(now: int, commits: multiset<int>, merges: multiset<int>, closes: multiset<int>,
                                day: int) {
    && (day == FirstDay(now) ==> Count(commits, FirstDay(now) * DAY, CommitsFrom(now)) == 0)
    && (day < SearchedFrom(now) ==> OnDay(merges, day) == 0 && OnDay(closes, day) == 0)
  }

  lemma RowIsWholeIff(now: int, commits: multiset<int>, merges: multiset<int>, closes: multiset<int>, day: int,
                      row: DayRow)
    requires IsHeatRow(now, commits, merges, closes, day, row)
    ensures IsWholeRow(commits, merges, closes, row) <==> MissesNothing(now, commits, merges, closes, day)
  {
    FirstDayIsCut(now, commits);
  }

  /** What the first row misses of its commits. */
  lemma FirstDayIsCut(now: int, commits: multiset<int>)
    ensures var day := FirstDay(now);
            OnDay(commits, day)
            == Count(commits, day * DAY, CommitsFrom(now)) + Count(commits, CommitsFrom(now), (day + 1) * DAY)
  {
    DaysBefore(now, YEAR_DAYS - 1);
    CountSplits(commits, FirstDay(now) * DAY, CommitsFrom(now), (FirstDay(now) + 1) * DAY);
  }

  /** The first row holds all its commits, whatever they are, iff the script runs at midnight. */
  lemma FirstDayIsWholeIff(now: int)
    ensures (forall commits :: Count(commits, FirstDay(now) * DAY, CommitsFrom(now)) == 0) <==> now % DAY == 0
  {
    var midnight := FirstDay(now) * DAY;
    DaysBefore(now, YEAR_DAYS - 1);
    assert CommitsFrom(now) == midnight + now % DAY;
    if now % DAY == 0 {
      forall commits ensures Count(commits, midnight, CommitsFrom(now)) == 0 {
      }
    } else {
      AtMidnight(midnight, CommitsFrom(now));
    }
  }

  lemma AtMidnight(midnight: int, to: int)
    requires midnight < to
    ensures Count(multiset{midnight}, midnight, to) == 1
  {
    CountNothing(midnight, to);
    assert multiset{} + multiset{midnight} == multiset{midnight};
    CountOneMore(multiset{}, midnight, midnight, to);
  }

  const TWO_IN_THE_AFTERNOON := 20_000 * DAY + 14 * 3600
  const THAT_MORNING := (20_000 - 370) * DAY + 9 * 3600

  /** At 14:00 a commit of 09:00 on the first day of the heatmap is not in its row. */
  lemma MorningCommitIsMissed(rows: seq<DayRow>, merges: multiset<int>, closes: multiset<int>)
    requires IsHeatmap(TWO_IN_THE_AFTERNOON, multiset{THAT_MORNING}, merges, closes, rows)
    ensures rows[0].date == DayOf(THAT_MORNING) && rows[0].commits == 0
    ensures OnDay(multiset{THAT_MORNING}, rows[0].date) == 1
  {
    var now, day := TWO_IN_THE_AFTERNOON, 20_000 - 370;
    assert IsHeatRow(now, multiset{THAT_MORNING}, merges, closes, FirstDay(now) + 0, rows[0]);
    CountNothing(CommitsFrom(now), (day + 1) * DAY);
    CountNothing(day * DAY, (day + 1) * DAY);
    assert multiset{} + multiset{THAT_MORNING} == multiset{THAT_MORNING};
    CountOneMore(multiset{}, THAT_MORNING, CommitsFrom(now), (day + 1) * DAY);
    CountOneMore(multiset{}, THAT_MORNING, day * DAY, (day + 1) * DAY);
  }

  // ----- the validator -----

  /** A row read back from a snapshot; the split may be missing, in part or whole. */
  datatype SnapshotRow = SnapshotRow(date: int, count: int, commits: Option<int>, pulls: Option<int>,
                                     issues: Option<int>)

  predicate BadBucket(b: Option<int>) {
    b.Some? && b.value < 0
  }

  predicate BadRow(d: SnapshotRow) {
    || d.count < 0
    || BadBucket(d.commits) || BadBucket(d.pulls) || BadBucket(d.issues)
    || (d.commits.Some? && d.pulls.Some? && d.issues.Some?
        && d.commits.value + d.pulls.value + d.issues.value != d.count)
  }

  ghost predicate Passes(rows: seq<SnapshotRow>) {
    && |rows| == YEAR_DAYS
    && (forall i :: 0 <= i < |rows| ==> !BadRow(rows[i]))
    && (forall i, j :: 0 <= i < j < |rows| ==> rows[i].date <= rows[j].date)
  }

  /** What passes, in numbers: 371 rows in the order of their dates, no number negative, and the three
      sources of a row that has them all adding up to its count. */
  lemma PassesIff(rows: seq<SnapshotRow>)
    ensures Passes(rows) <==>
      && |rows| == 371
      && (forall i, j :: 0 <= i < j < |rows| ==> rows[i].date <= rows[j].date)
      && (forall i :: 0 <= i < |rows| ==> rows[i].count >= 0)
      && (forall i :: 0 <= i < |rows| && rows[i].commits.Some? ==> rows[i].commits.value >= 0)
      && (forall i :: 0 <= i < |rows| && rows[i].pulls.Some? ==> rows[i].pulls.value >= 0)
      && (forall i :: 0 <= i < |rows| && rows[i].issues.Some? ==> rows[i].issues.value >= 0)
      && (forall i :: 0 <= i < |rows| && rows[i].commits.Some? && rows[i].pulls.Some? && rows[i].issues.Some? ==>
            rows[i].commits.value + rows[i].pulls.value + rows[i].issues.value == rows[i].count)
  {
    if Passes(rows) {
      forall i | 0 <= i < |rows| ensures !BadRow(rows[i]) {
      }
    }
  }

  /** The daily clause of `check` (lines 774-803). */
  method CheckDaily(rows: seq<SnapshotRow>) returns (ok: bool)
    ensures ok <==> Passes(rows)
  {
    if |rows| != YEAR_DAYS {
      return false;
    }
    for k := 0 to |rows|
      invariant forall i :: 0 <= i < k ==> !BadRow(rows[i])
    {
      if BadRow(rows[k]) {
        return false;
      }
    }
    for k := 1 to |rows|
      invariant forall i, j :: 0 <= i < j < k ==> rows[i].date <= rows[j].date
    {
      if rows[k - 1].date > rows[k].date {
        return false;
      }
    }
    return true;
  }

  function Written(rows: seq<DayRow>): (written: seq<SnapshotRow>)
    ensures |written| == |rows|
    ensures forall i :: 0 <= i < |rows| ==> (written[i] ==
      SnapshotRow(rows[i].date, rows[i].count, Some(rows[i].commits), Some(rows[i].pulls), Some(rows[i].issues)))
  {
    if rows == [] then []
    else
      var d := rows[|rows| - 1];
      Written(rows[..|rows| - 1]) + [SnapshotRow(d.date, d.count, Some(d.commits), Some(d.pulls), Some(d.issues))]
  }

  /** What the generator writes for a year always passes the validator. */
  lemma GeneratedPasses(commits: seq<Option<int>>, merged: seq<Option<int>>, closed: seq<Option<int>>, first: int,
                        rows: seq<DayRow>)
    requires |rows| == YEAR_DAYS && IsDaily(commits, merged, closed, first, rows)
    ensures Passes(Written(rows))
  {
    var written := Written(rows);
    forall i | 0 <= i < |rows|
      ensures !BadRow(written[i]) && written[i].date == first + i
    {
      assert rows[i].date == first + i;
    }
  }

  /** So does every heatmap the script writes. */
  lemma HeatmapPasses(now: int, commits: multiset<int>, merges: multiset<int>, closes: multiset<int>,
                      rows: seq<DayRow>)
    requires IsHeatmap(now, commits, merges, closes, rows)
    ensures Passes(Written(rows))
  {
    var written := Written(rows);
    forall i | 0 <= i < |rows|
      ensures !BadRow(written[i]) && written[i].date == FirstDay(now) + i
    {
      assert IsHeatRow(now, commits, merges, closes, FirstDay(now) + i, rows[i]);
    }
  }
}
