/** Contrast derivation: scripts/generate_platform_palettes.py.

    A palette gives a background and three source colours; the script derives a ladder of
    tokens whose contrast ratios (WCAG 2.1, Success Criteria 1.4.3 and 1.4.11) must reach
    fixed floors.  Floats are modelled as reals, and the per-channel transfer function as an
    arbitrary non-decreasing table from 0.0 to 1.0, so no property depends on its shape. */
module Palette {
  const INK_MIN := 4.5
  const SOFT_MIN := 4.5
  const MUTE_MIN := 3.0
  const HAIR_MIN := 1.5
  const SURFACE_MIN := 1.08
  const ACCENT_MIN := 3.0
  const DANGER_MIN := 3.0
  const ON_ACCENT_MIN := 4.5
  const SLACK := 0.000000001

  type Channel = c: int | 0 <= c <= 255
  type Percent = p: int | 0 <= p <= 100
  datatype Rgb = Rgb(r: Channel, g: Channel, b: Channel)
  datatype Theme = Dark | Light

  const WHITE := Rgb(255, 255, 255)
  const BLACK := Rgb(0, 0, 0)

  function CanonDanger(theme: Theme): Rgb {
    match theme
    case Dark => Rgb(0xE9, 0x49, 0x59)
    case Light => Rgb(0xC3, 0x22, 0x32)
  }

  ghost predicate IsCurve(t: seq<real>) {
    && |t| == 256
    && t[0] == 0.0
    && t[255] == 1.0
    && forall i, j :: 0 <= i <= j < 256 ==> t[i] <= t[j]
  }

  type Curve = t: seq<real> | IsCurve(t) ghost witness seq(256, i => i as real / 255.0)

  // ----- luminance and contrast -----

  function Luminance(t: Curve, c: Rgb): (l: real)
    ensures 0.0 <= l <= 1.0
  {
    assert t[0] <= t[c.r] <= t[255] && t[0] <= t[c.g] <= t[255] && t[0] <= t[c.b] <= t[255];
    0.2126 * t[c.r] + 0.7152 * t[c.g] + 0.0722 * t[c.b]
  }

  /** The channels add up, each weighing what its primary does. */
  lemma ChannelsAdd(t: Curve, c: Rgb)
    ensures Luminance(t, c)
      == Luminance(t, Rgb(c.r, 0, 0)) + Luminance(t, Rgb(0, c.g, 0)) + Luminance(t, Rgb(0, 0, c.b))
    ensures Luminance(t, Rgb(c.r, 0, 0)) == t[c.r] * Luminance(t, Rgb(255, 0, 0))
    ensures Luminance(t, Rgb(0, c.g, 0)) == t[c.g] * Luminance(t, Rgb(0, 255, 0))
    ensures Luminance(t, Rgb(0, 0, c.b)) == t[c.b] * Luminance(t, Rgb(0, 0, 255))
  {
  }

  function Ratio(hi: real, lo: real): (c: real)
    requires 0.0 <= lo <= hi
    ensures c >= 1.0
  {
    (hi + 0.05) / (lo + 0.05)
  }

  function Contrast(t: Curve, a: Rgb, b: Rgb): (c: real)
    ensures c >= 1.0
  {
    var la, lb := Luminance(t, a), Luminance(t, b);
    if la < lb then Ratio(lb, la) else Ratio(la, lb)
  }

  predicate Clears(t: Curve, color: Rgb, bg: Rgb, target: real) {
    Contrast(t, color, bg) + SLACK >= target
  }

  /** WCAG's bound: a background's contrasts with white and with black multiply to 21. */
  lemma PolesMultiplyTo21(t: Curve, bg: Rgb)
    ensures Contrast(t, WHITE, bg) * Contrast(t, BLACK, bg) == 21.0
  {
    assert Luminance(t, WHITE) == 1.0 && Luminance(t, BLACK) == 0.0;
    var l := Luminance(t, bg);
    assert Contrast(t, WHITE, bg) == 1.05 / (l + 0.05);
    assert Contrast(t, BLACK, bg) == (l + 0.05) / 0.05;
    var w, k, d := 1.05 / (l + 0.05), (l + 0.05) / 0.05, l + 0.05;
    assert w * d == 1.05 && k * 0.05 == d;
    assert (w * k) * 0.05 == w * (k * 0.05);
  }

  lemma {:induction false} BetterPoleClears(t: Curve, bg: Rgb)
    ensures Contrast(t, BetterPole(t, bg), bg) >= 4.5
  {
    PolesMultiplyTo21(t, bg);
    ProductBelow(Contrast(t, WHITE, bg), Contrast(t, BLACK, bg));
  }

  lemma ProductBelow(w: real, k: real)
    requires w >= 1.0 && k >= 1.0
    ensures w < 4.5 && k < 4.5 ==> w * k < 20.25
  {
    if w < 4.5 && k < 4.5 {
      assert (4.5 - w) * k > 0.0;
    }
  }

  const RED := Rgb(255, 0, 0)
  const GREEN := Rgb(0, 255, 0)
  const BLUE := Rgb(0, 0, 255)

  /** How the primaries stand out from black, whatever the curve. */
  lemma PrimariesOnBlack(t: Curve)
    ensures Contrast(t, RED, BLACK) == 5.252
    ensures Contrast(t, GREEN, BLACK) == 15.304
    ensures Contrast(t, BLUE, BLACK) == 2.444
  {
    assert Luminance(t, BLACK) == 0.0;
    assert Luminance(t, RED) == 0.2126 && Luminance(t, GREEN) == 0.7152 && Luminance(t, BLUE) == 0.0722;
    assert 0.2626 / 0.05 == 5.252 && 0.7652 / 0.05 == 15.304 && 0.1222 / 0.05 == 2.444;
  }

  /** Which of the two is the lighter does not matter. */
  lemma ContrastIsSymmetric(t: Curve, a: Rgb, b: Rgb)
    ensures Contrast(t, a, b) == Contrast(t, b, a)
  {
  }

  /** The pole choice of `toward_pole`, and, with an accent as background, `on_accent`. */
  function BetterPole(t: Curve, bg: Rgb): (pole: Rgb)
    ensures pole == if Contrast(t, WHITE, bg) >= Contrast(t, BLACK, bg) then WHITE else BLACK
    ensures Contrast(t, pole, bg) >= Contrast(t, WHITE, bg)
    ensures Contrast(t, pole, bg) >= Contrast(t, BLACK, bg)
  {
    if Contrast(t, WHITE, bg) >= Contrast(t, BLACK, bg) then WHITE else BLACK
  }

  // ----- mixing -----

  /** Python's `round`: to the nearest integer, ties to the even one. */
  function RoundHalfEven(x: real): (n: int)
    ensures x - 0.5 <= n as real <= x + 0.5
    ensures n as real - x == 0.5 || x - n as real == 0.5 ==> n % 2 == 0
  {
    var f := x.Floor;
    if x - f as real < 0.5 then f
    else if x - f as real > 0.5 then f + 1
    else if f % 2 == 0 then f else f + 1
  }

  lemma RoundMonotone(x: real, y: real)
    requires x <= y
    ensures RoundHalfEven(x) <= RoundHalfEven(y)
  {
    assert x.Floor <= y.Floor;
  }

  lemma RoundExact(n: int)
    ensures RoundHalfEven(n as real) == n
  {
  }

  function Blend(f: Channel, b: Channel, t: real): real {
    f as real * t + b as real * (1.0 - t)
  }

  lemma BlendMonotone(f: Channel, b: Channel, s: real, t: real)
    requires s <= t
    ensures f >= b ==> Blend(f, b, s) <= Blend(f, b, t)
    ensures f <= b ==> Blend(f, b, s) >= Blend(f, b, t)
  {
    var d := f as real - b as real;
    assert Blend(f, b, t) - Blend(f, b, s) == (t - s) * d;
    if f >= b {
      assert (t - s) * d >= 0.0;
    }
    if f <= b {
      assert (t - s) * (-d) >= 0.0;
    }
  }

  function MixChannel(f: Channel, b: Channel, t: real): (c: Channel)
    requires 0.0 <= t <= 1.0
    ensures f <= c <= b || b <= c <= f
    ensures t == 0.0 ==> c == b
    ensures t == 1.0 ==> c == f
  {
    BlendMonotone(f, b, 0.0, t);
    BlendMonotone(f, b, t, 1.0);
    assert Blend(f, b, 0.0) == b as real && Blend(f, b, 1.0) == f as real;
    RoundExact(f);
    RoundExact(b);
    assert (f >= b && b as real <= Blend(f, b, t) <= f as real)
        || (f <= b && f as real <= Blend(f, b, t) <= b as real);
    if f >= b then
      RoundMonotone(b as real, Blend(f, b, t));
      RoundMonotone(Blend(f, b, t), f as real);
      RoundHalfEven(Blend(f, b, t))
    else
      RoundMonotone(f as real, Blend(f, b, t));
      RoundMonotone(Blend(f, b, t), b as real);
      RoundHalfEven(Blend(f, b, t))
  }

  function Mix(fg: Rgb, bg: Rgb, t: real): (c: Rgb)
    requires 0.0 <= t <= 1.0
    ensures t == 0.0 ==> c == bg
    ensures t == 1.0 ==> c == fg
  {
    Rgb(MixChannel(fg.r, bg.r, t), MixChannel(fg.g, bg.g, t), MixChannel(fg.b, bg.b, t))
  }

  /** A mixed channel is the integer nearest to the exact mix of `pct` percent, and of two nearest the even. */
  lemma MixIsNearest(fg: Rgb, bg: Rgb, pct: Percent)
    ensures IsNearest(MixPct(fg, bg, pct).r, (fg.r * pct + bg.r * (100 - pct)) as real / 100.0)
    ensures IsNearest(MixPct(fg, bg, pct).g, (fg.g * pct + bg.g * (100 - pct)) as real / 100.0)
    ensures IsNearest(MixPct(fg, bg, pct).b, (fg.b * pct + bg.b * (100 - pct)) as real / 100.0)
  {
    ChannelIsNearest(fg.r, bg.r, pct);
    ChannelIsNearest(fg.g, bg.g, pct);
    ChannelIsNearest(fg.b, bg.b, pct);
  }

  predicate IsNearest(n: int, x: real) {
    x - 0.5 <= n as real <= x + 0.5 && (n as real - x == 0.5 || x - n as real == 0.5 ==> n % 2 == 0)
  }

  lemma ChannelIsNearest(f: Channel, b: Channel, pct: Percent)
    ensures IsNearest(MixChannel(f, b, pct as real / 100.0), (f * pct + b * (100 - pct)) as real / 100.0)
  {
    var t := pct as real / 100.0;
    MixIsBlend(f, b, t);
    Percents(f, pct);
    Percents(b, 100 - pct);
    assert 1.0 - t == (100 - pct) as real / 100.0;
    assert Blend(f, b, t) == (f * pct + b * (100 - pct)) as real / 100.0;
  }

  lemma MixIsBlend(f: Channel, b: Channel, t: real)
    requires 0.0 <= t <= 1.0
    ensures IsNearest(MixChannel(f, b, t), Blend(f, b, t))
  {
  }

  lemma Percents(c: Channel, pct: Percent)
    ensures c as real * (pct as real / 100.0) == (c * pct) as real / 100.0
  {
    assert c as real * pct as real == (c * pct) as real;
  }

  function MixPct(fg: Rgb, bg: Rgb, pct: Percent): Rgb {
    Mix(fg, bg, pct as real / 100.0)
  }

  lemma MixChannelMonotone(f: Channel, b: Channel, p: Percent, q: Percent)
    requires p <= q
    ensures var mp, mq := MixChannel(f, b, p as real / 100.0), MixChannel(f, b, q as real / 100.0);
            (f >= b ==> b <= mp <= mq <= f) && (f <= b ==> f <= mq <= mp <= b)
  {
    var s, t := p as real / 100.0, q as real / 100.0;
    BlendMonotone(f, b, s, t);
    if f >= b {
      RoundMonotone(Blend(f, b, s), Blend(f, b, t));
    } else {
      RoundMonotone(Blend(f, b, t), Blend(f, b, s));
    }
  }

  // ----- ink on one side of the background -----

  predicate Above(c: Rgb, bg: Rgb) {
    c.r >= bg.r && c.g >= bg.g && c.b >= bg.b
  }

  predicate OneSided(ink: Rgb, bg: Rgb) {
    Above(ink, bg) || Above(bg, ink)
  }

  lemma LuminanceMonotone(t: Curve, c: Rgb, d: Rgb)
    requires Above(d, c)
    ensures Luminance(t, c) <= Luminance(t, d)
  {
    assert t[c.r] <= t[d.r] && t[c.g] <= t[d.g] && t[c.b] <= t[d.b];
  }

  lemma Product(x: real, y: real)
    requires x >= 0.0 && y >= 0.0
    ensures x * y >= 0.0
  {
  }

  lemma RatioMonotone(hi: real, hi': real, lo: real, lo': real)
    requires 0.0 <= lo' <= lo <= hi <= hi'
    ensures Ratio(hi, lo) <= Ratio(hi', lo')
  {
    var r, r' := Ratio(hi, lo), Ratio(hi', lo');
    assert r * (lo + 0.05) == hi + 0.05 && r' * (lo' + 0.05) == hi' + 0.05;
    Product(r, lo - lo');
    assert (r' - r) * (lo' + 0.05) == hi' - hi + r * (lo - lo');
    SignOfFactor(r' - r, lo' + 0.05);
  }

  lemma SignOfFactor(x: real, d: real)
    requires d > 0.0
    ensures x < 0.0 ==> x * d < 0.0
  {
  }

  /** With ink channelwise on one side of the background, more ink never lowers the contrast. */
  lemma ContrastMonotone(t: Curve, ink: Rgb, bg: Rgb, p: Percent, q: Percent)
    requires OneSided(ink, bg) && p <= q
    ensures Contrast(t, MixPct(ink, bg, p), bg) <= Contrast(t, MixPct(ink, bg, q), bg)
  {
    MixChannelMonotone(ink.r, bg.r, p, q);
    MixChannelMonotone(ink.g, bg.g, p, q);
    MixChannelMonotone(ink.b, bg.b, p, q);
    var mp, mq := MixPct(ink, bg, p), MixPct(ink, bg, q);
    var lp, lq, lb := Luminance(t, mp), Luminance(t, mq), Luminance(t, bg);
    if Above(ink, bg) {
      LuminanceMonotone(t, bg, mp);
      LuminanceMonotone(t, mp, mq);
      RatioMonotone(lp, lq, lb, lb);
    } else {
      LuminanceMonotone(t, mq, mp);
      LuminanceMonotone(t, mp, bg);
      RatioMonotone(lb, lb, lp, lq);
    }
  }

  // ----- the two searches -----

  /** `pct` is the least percentage from `begin` on whose mix clears `target`. */
  ghost predicate IsLeastClearing(t: Curve, fg: Rgb, bg: Rgb, target: real, begin: Percent, pct: Percent) {
    && begin <= pct
    && Clears(t, MixPct(fg, bg, pct), bg, target)
    && forall p: Percent :: begin <= p < pct ==> !Clears(t, MixPct(fg, bg, p), bg, target)
  }

  /** For ink on one side, the least clearing percentage is a threshold. */
  lemma LeastClearingIsThreshold(t: Curve, ink: Rgb, bg: Rgb, target: real, begin: Percent, pct: Percent, q: Percent)
    requires OneSided(ink, bg) && IsLeastClearing(t, ink, bg, target, begin, pct) && begin <= q
    ensures Clears(t, MixPct(ink, bg, q), bg, target) <==> pct <= q
  {
    if pct <= q {
      ContrastMonotone(t, ink, bg, pct, q);
    }
  }

  function StartPercent(start: real): Percent {
    var n := RoundHalfEven(start * 100.0);
    if n < 0 then 0 else if n > 100 then 100 else n
  }

  /** The start is rounded to a percentage, and kept between 0 and 100. */
  lemma StartPercentIs(start: real)
    ensures start <= 0.0 ==> StartPercent(start) == 0
    ensures start >= 1.0 ==> StartPercent(start) == 100
    ensures 0.0 <= start <= 1.0 ==> IsNearest(StartPercent(start), start * 100.0)
  {
  }

  /** What `portion_for` returns: the least clearing percentage, or all of `fg` if none clears. */
  ghost predicate IsPortion(t: Curve, fg: Rgb, bg: Rgb, target: real, begin: Percent, pct: Percent, color: Rgb) {
    && color == MixPct(fg, bg, pct)
    && (IsLeastClearing(t, fg, bg, target, begin, pct)
        || (pct == 100 && forall p: Percent :: begin <= p ==> !Clears(t, MixPct(fg, bg, p), bg, target)))
  }

  method PortionFor(t: Curve, fg: Rgb, bg: Rgb, target: real, start: real) returns (pct: Percent, color: Rgb)
    ensures IsPortion(t, fg, bg, target, StartPercent(start), pct, color)
  {
    var begin := StartPercent(start);
    for p := begin to 101
      invariant forall p': Percent :: begin <= p' < p ==> !Clears(t, MixPct(fg, bg, p'), bg, target)
    {
      color := MixPct(fg, bg, p);
      if Clears(t, color, bg, target) {
        return p, color;
      }
    }
    return 100, fg;
  }

  /** What `toward_pole` returns: the source unchanged when it clears the target, and otherwise
      the mix toward the better pole that keeps as much of the source as clears. */
  ghost predicate IsTowardPole(t: Curve, color: Rgb, bg: Rgb, target: real, result: Rgb, pct: Percent, pole: Rgb) {
    if Clears(t, color, bg, target) then
      result == color && pct == 100 && pole == color
    else
      && pole == BetterPole(t, bg)
      && result == MixPct(color, pole, pct)
      && pct < 100
      && (forall p: Percent :: pct < p ==> !Clears(t, MixPct(color, pole, p), bg, target))
      && (pct > 0 ==> Clears(t, result, bg, target))
  }

  method TowardPole(t: Curve, color: Rgb, bg: Rgb, target: real) returns (result: Rgb, pct: Percent, pole: Rgb)
    ensures IsTowardPole(t, color, bg, target, result, pct, pole)
  {
    if Clears(t, color, bg, target) {
      return color, 100, color;
    }
    pole := BetterPole(t, bg);
    result, pct := pole, 0;
    var p := 100;
    while p >= 0
      invariant -1 <= p <= 100
      invariant result == pole && pct == 0
      invariant forall q: Percent :: p < q ==> !Clears(t, MixPct(color, pole, q), bg, target)
    {
      var mixed := MixPct(color, pole, p);
      if Clears(t, mixed, bg, target) {
        result, pct := mixed, p;
        break;
      }
      p := p - 1;
    }
  }

  /** For every target up to 4.5 the search succeeds: pure pole always clears. */
  lemma TowardPoleClears(t: Curve, color: Rgb, bg: Rgb, target: real, result: Rgb, pct: Percent, pole: Rgb)
    requires target <= 4.5 && IsTowardPole(t, color, bg, target, result, pct, pole)
    ensures PulledHolds(t, color, bg, target, result, pct, pole)
    ensures pct < 100 <==> !Clears(t, color, bg, target)
  {
    BetterPoleClears(t, bg);
  }

  // ----- the ladder -----

  /** The tokens mixed from ink into the background, with their percentages of ink. */
  datatype Rungs = Rungs(
    soft: Rgb, softPct: Percent, mute: Rgb, mutePct: Percent,
    hair: Rgb, hairPct: Percent, hair2: Rgb, hair2Pct: Percent,
    surface: Rgb, surfPct: Percent, surface2: Rgb, surf2Pct: Percent)

  datatype Mode = Mode(
    bg: Rgb, ink: Rgb, inkPct: Percent, inkPole: Rgb, rungs: Rungs,
    accent: Rgb, accentPct: Percent, accentPole: Rgb, onAccent: Rgb,
    danger: Rgb, dangerPct: Percent, dangerPole: Rgb,
    adjusted: seq<string>)

  /** `min(cap, pct + step)` and `max(floor, pct - step)`. */
  function Raised(pct: Percent, step: nat, cap: Percent): (raised: Percent)
    ensures raised <= pct + step && raised <= cap && (raised == pct + step || raised == cap)
  {
    if pct + step < cap then pct + step else cap
  }

  function Lowered(pct: Percent, step: nat, floor: Percent): (lowered: Percent)
    ensures lowered >= pct - step && lowered >= floor && (lowered == pct - step || lowered == floor)
  {
    if pct - step > floor then pct - step else floor
  }

  /** The rung's percentage is the least that clears its floor: no repair step has moved it. */
  ghost predicate RungHolds(t: Curve, ink: Rgb, bg: Rgb, floor: real, begin: Percent, pct: Percent, color: Rgb) {
    IsLeastClearing(t, ink, bg, floor, begin, pct) && color == MixPct(ink, bg, pct)
  }

  ghost predicate RungsHold(t: Curve, ink: Rgb, bg: Rgb, m: Rungs) {
    && RungHolds(t, ink, bg, SOFT_MIN, 78, m.softPct, m.soft)
    && RungHolds(t, ink, bg, MUTE_MIN, 58, m.mutePct, m.mute)
    && RungHolds(t, ink, bg, HAIR_MIN, 16, m.hairPct, m.hair)
    && RungHolds(t, ink, bg, SURFACE_MIN, 5, m.surfPct, m.surface)
    && m.surfPct <= m.hairPct <= m.mutePct <= m.softPct
    && m.hair2Pct == Raised(m.hairPct, 8, 100) && m.hair2 == MixPct(ink, bg, m.hair2Pct)
    && m.surf2Pct == Raised(m.surfPct, 4, 99) && m.surface2 == MixPct(ink, bg, m.surf2Pct)
  }

  /** A colour pulled toward a pole only as far as its floor needs. */
  ghost predicate PulledHolds(t: Curve, src: Rgb, bg: Rgb, floor: real, color: Rgb, pct: Percent, pole: Rgb) {
    && IsTowardPole(t, src, bg, floor, color, pct, pole)
    && Clears(t, color, bg, floor)
  }

  function AdjustedNames(ink: bool, accent: bool, danger: bool): seq<string> {
    (if ink then ["ink"] else []) + (if accent then ["accent"] else []) + (if danger then ["danger"] else [])
  }

  ghost predicate ModeHolds(t: Curve, inkSrc: Rgb, primary: Rgb, dangerSrc: Rgb, m: Mode) {
    && PulledHolds(t, inkSrc, m.bg, INK_MIN, m.ink, m.inkPct, m.inkPole)
    && RungsHold(t, m.ink, m.bg, m.rungs)
    && PulledHolds(t, primary, m.bg, ACCENT_MIN, m.accent, m.accentPct, m.accentPole)
    && PulledHolds(t, dangerSrc, m.bg, DANGER_MIN, m.danger, m.dangerPct, m.dangerPole)
    && m.onAccent == BetterPole(t, m.accent)
    && Contrast(t, m.onAccent, m.accent) >= ON_ACCENT_MIN
    && m.adjusted == AdjustedNames(!Clears(t, inkSrc, m.bg, INK_MIN), !Clears(t, primary, m.bg, ACCENT_MIN),
                                   !Clears(t, dangerSrc, m.bg, DANGER_MIN))
  }

  /** Looser target, earlier start: the least clearing percentage cannot be larger. */
  lemma LeastClearingOrdered(t: Curve, fg: Rgb, bg: Rgb, target: real, begin: Percent, pct: Percent,
                             target': real, begin': Percent, pct': Percent)
    requires target <= target' && begin <= begin'
    requires IsLeastClearing(t, fg, bg, target, begin, pct)
    requires IsLeastClearing(t, fg, bg, target', begin', pct')
    ensures pct <= pct'
  {
    if pct > pct' {
      assert Clears(t, MixPct(fg, bg, pct'), bg, target);
    }
  }

  /** Ink clears 4.5, so every rung's search succeeds, at full ink if nowhere earlier. */
  lemma InkReaches(t: Curve, ink: Rgb, bg: Rgb, target: real, begin: Percent, pct: Percent, color: Rgb)
    requires Clears(t, ink, bg, INK_MIN) && target <= INK_MIN
    requires IsPortion(t, ink, bg, target, begin, pct, color)
    ensures RungHolds(t, ink, bg, target, begin, pct, color)
  {
    assert MixPct(ink, bg, 100) == ink;
  }

  /** Lines 127-149 of `derive_mode`. */
  method DeriveRungs(t: Curve, ink: Rgb, bg: Rgb) returns (m: Rungs)
    requires Clears(t, ink, bg, INK_MIN)
    ensures RungsHold(t, ink, bg, m)
  {
    var softPct, soft := PortionFor(t, ink, bg, SOFT_MIN, 0.78);
    InkReaches(t, ink, bg, SOFT_MIN, 78, softPct, soft);
    var mutePct, mute := PortionFor(t, ink, bg, MUTE_MIN, 0.58);
    InkReaches(t, ink, bg, MUTE_MIN, 58, mutePct, mute);
    LeastClearingOrdered(t, ink, bg, MUTE_MIN, 58, mutePct, SOFT_MIN, 78, softPct);
    if softPct < mutePct {
      softPct, soft := mutePct, mute;
    }
    // The cap on the hairline (lines 132-138) is computed but never used.
    var hairPct, hair := PortionFor(t, ink, bg, HAIR_MIN, 0.16);
    InkReaches(t, ink, bg, HAIR_MIN, 16, hairPct, hair);
    LeastClearingOrdered(t, ink, bg, HAIR_MIN, 16, hairPct, MUTE_MIN, 58, mutePct);
    var hair2Pct := Raised(hairPct, 8, 100);
    var hair2 := MixPct(ink, bg, hair2Pct);

    var surfPct, surface := PortionFor(t, ink, bg, SURFACE_MIN, 0.05);
    InkReaches(t, ink, bg, SURFACE_MIN, 5, surfPct, surface);
    LeastClearingOrdered(t, ink, bg, SURFACE_MIN, 5, surfPct, HAIR_MIN, 16, hairPct);
    if surfPct >= hairPct {
      var quieter := Lowered(hairPct, 3, 3);
      var candidate := MixPct(ink, bg, quieter);
      if Clears(t, candidate, bg, SURFACE_MIN) {
        surfPct, surface := quieter, candidate;
      }
    }
    var surf2Pct := Raised(surfPct, 4, 99);
    var surface2 := MixPct(ink, bg, surf2Pct);
    m := Rungs(soft, softPct, mute, mutePct, hair, hairPct, hair2, hair2Pct,
               surface, surfPct, surface2, surf2Pct);
  }

  method DeriveMode(t: Curve, neutral: Rgb, inkSrc: Rgb, primary: Rgb, theme: Theme) returns (m: Mode)
    ensures m.bg == neutral
    ensures ModeHolds(t, inkSrc, primary, if theme.Dark? then Rgb(233, 73, 89) else Rgb(195, 34, 50), m)
  {
    var bg := neutral;
    var ink, inkPct, inkPole := TowardPole(t, inkSrc, bg, INK_MIN);
    TowardPoleClears(t, inkSrc, bg, INK_MIN, ink, inkPct, inkPole);
    var rungs := DeriveRungs(t, ink, bg);

    var accent, accentPct, accentPole := TowardPole(t, primary, bg, ACCENT_MIN);
    TowardPoleClears(t, primary, bg, ACCENT_MIN, accent, accentPct, accentPole);
    var on := BetterPole(t, accent);
    BetterPoleClears(t, accent);
    var dangerSrc := CanonDanger(theme);
    var danger, dangerPct, dangerPole := TowardPole(t, dangerSrc, bg, DANGER_MIN);
    TowardPoleClears(t, dangerSrc, bg, DANGER_MIN, danger, dangerPct, dangerPole);

    var adjusted := Adjusted(inkPct, accentPct, dangerPct, Contrast(t, on, accent));
    m := Mode(bg, ink, inkPct, inkPole, rungs, accent, accentPct, accentPole, on,
              danger, dangerPct, dangerPole, adjusted);
  }

  method Adjusted(inkPct: Percent, accentPct: Percent, dangerPct: Percent, onRatio: real)
    returns (adjusted: seq<string>)
    ensures var names := AdjustedNames(inkPct < 100, accentPct < 100, dangerPct < 100);
            adjusted == if onRatio + SLACK < ON_ACCENT_MIN then names + ["on-accent"] else names
  {
    adjusted := [];
    if inkPct < 100 {
      adjusted := adjusted + ["ink"];
    }
    if accentPct < 100 {
      adjusted := adjusted + ["accent"];
    }
    if dangerPct < 100 {
      adjusted := adjusted + ["danger"];
    }
    if onRatio + SLACK < ON_ACCENT_MIN {
      adjusted := adjusted + ["on-accent"];
    }
  }

  lemma ClearsMeans(t: Curve, color: Rgb, bg: Rgb, target: real)
    ensures Clears(t, color, bg, target) <==> Contrast(t, color, bg) >= target - 0.000000001
  {
  }

  /** The floors of the rungs, and where the percentages start and end, in numbers. */
  lemma RungsMeetTheirFloors(t: Curve, ink: Rgb, bg: Rgb, m: Rungs)
    requires RungsHold(t, ink, bg, m)
    ensures Contrast(t, m.soft, bg) >= 4.5 - 0.000000001 && Contrast(t, m.mute, bg) >= 3.0 - 0.000000001
    ensures Contrast(t, m.hair, bg) >= 1.5 - 0.000000001 && Contrast(t, m.surface, bg) >= 1.08 - 0.000000001
    ensures m.surfPct >= 5 && m.hairPct >= 16 && m.mutePct >= 58 && m.softPct >= 78
    ensures m.hair2Pct == LesserPercent(m.hairPct + 8, 100) && m.surf2Pct == LesserPercent(m.surfPct + 4, 99)
  {
    ClearsMeans(t, m.soft, bg, SOFT_MIN);
    ClearsMeans(t, m.mute, bg, MUTE_MIN);
    ClearsMeans(t, m.hair, bg, HAIR_MIN);
    ClearsMeans(t, m.surface, bg, SURFACE_MIN);
  }

  /** The floors of the other roles, in numbers. */
  lemma ModeMeetsItsFloors(t: Curve, inkSrc: Rgb, primary: Rgb, dangerSrc: Rgb, m: Mode)
    requires ModeHolds(t, inkSrc, primary, dangerSrc, m)
    ensures Contrast(t, m.ink, m.bg) >= 4.5 - 0.000000001 && Contrast(t, m.onAccent, m.accent) >= 4.5
    ensures Contrast(t, m.accent, m.bg) >= 3.0 - 0.000000001 && Contrast(t, m.danger, m.bg) >= 3.0 - 0.000000001
  {
    ClearsMeans(t, m.ink, m.bg, INK_MIN);
    ClearsMeans(t, m.accent, m.bg, ACCENT_MIN);
    ClearsMeans(t, m.danger, m.bg, DANGER_MIN);
  }

  /** A role is listed as adjusted iff its source misses the floor, and on-accent never is. */
  lemma AdjustedIff(t: Curve, inkSrc: Rgb, primary: Rgb, dangerSrc: Rgb, m: Mode)
    requires ModeHolds(t, inkSrc, primary, dangerSrc, m)
    ensures "ink" in m.adjusted <==> Contrast(t, inkSrc, m.bg) < 4.5 - 0.000000001
    ensures "accent" in m.adjusted <==> Contrast(t, primary, m.bg) < 3.0 - 0.000000001
    ensures "danger" in m.adjusted <==> Contrast(t, dangerSrc, m.bg) < 3.0 - 0.000000001
    ensures "on-accent" !in m.adjusted
  {
    ClearsMeans(t, inkSrc, m.bg, INK_MIN);
    ClearsMeans(t, primary, m.bg, ACCENT_MIN);
    ClearsMeans(t, dangerSrc, m.bg, DANGER_MIN);
    NamesAre(!Clears(t, inkSrc, m.bg, INK_MIN), !Clears(t, primary, m.bg, ACCENT_MIN),
             !Clears(t, dangerSrc, m.bg, DANGER_MIN));
  }

  lemma NamesAre(ink: bool, accent: bool, danger: bool)
    ensures var names := AdjustedNames(ink, accent, danger);
            && ("ink" in names <==> ink) && ("accent" in names <==> accent) && ("danger" in names <==> danger)
            && "on-accent" !in names && (ink ==> names[0] == "ink") && (danger ==> names[|names| - 1] == "danger")
            && |names| == (if ink then 1 else 0) + (if accent then 1 else 0) + (if danger then 1 else 0)
  {
    NamesDiffer();
  }

  function LesserPercent(p: int, cap: int): int {
    if p < cap then p else cap
  }

  lemma NamesDiffer()
    ensures |"ink"| == 3 && |"accent"| == 6 == |"danger"| && |"on-accent"| == 9 && "accent"[0] != "danger"[0]
  {
  }

  lemma GreenClearsOnBlack(t: Curve)
    ensures Clears(t, GREEN, BLACK, INK_MIN) && !Clears(t, BLUE, BLACK, INK_MIN) && BetterPole(t, BLACK) == WHITE
  {
    PrimariesOnBlack(t);
    ClearsMeans(t, GREEN, BLACK, INK_MIN);
    ClearsMeans(t, BLUE, BLACK, INK_MIN);
    PolesMultiplyTo21(t, BLACK);
    assert Contrast(t, BLACK, BLACK) == 1.0;
  }

  lemma KeptOrPulled(t: Curve, src: Rgb, bg: Rgb, floor: real, color: Rgb, pct: Percent, pole: Rgb)
    requires PulledHolds(t, src, bg, floor, color, pct, pole)
    ensures Clears(t, src, bg, floor) ==> color == src && pct == 100
    ensures !Clears(t, src, bg, floor) ==> color != src && pct < 100 && pole == BetterPole(t, bg)
  {
  }

  /** Green ink on black is kept as it is, and blue ink, which stands out too little, is pulled to white. */
  lemma GreenAndBlueInk(t: Curve, primary: Rgb, dangerSrc: Rgb, green: Mode, blue: Mode)
    requires ModeHolds(t, GREEN, primary, dangerSrc, green) && green.bg == BLACK
    requires ModeHolds(t, BLUE, primary, dangerSrc, blue) && blue.bg == BLACK
    ensures green.ink == GREEN && green.inkPct == 100 && "ink" !in green.adjusted
    ensures blue.ink != BLUE && blue.inkPct < 100 && "ink" in blue.adjusted && blue.inkPole == WHITE
  {
    GreenClearsOnBlack(t);
    KeptOrPulled(t, GREEN, BLACK, INK_MIN, green.ink, green.inkPct, green.inkPole);
    KeptOrPulled(t, BLUE, BLACK, INK_MIN, blue.ink, blue.inkPct, blue.inkPole);
    NamesAre(false, !Clears(t, primary, BLACK, ACCENT_MIN), !Clears(t, dangerSrc, BLACK, DANGER_MIN));
    NamesAre(true, !Clears(t, primary, BLACK, ACCENT_MIN), !Clears(t, dangerSrc, BLACK, DANGER_MIN));
  }

  /** When ink lies on one side of the background the second hairline keeps its floor, and the
      second surface keeps its own iff the mix with one percent of background still clears it. */
  lemma SecondRungsKeepFloors(t: Curve, ink: Rgb, bg: Rgb, m: Rungs)
    requires RungsHold(t, ink, bg, m) && OneSided(ink, bg)
    ensures Clears(t, m.hair2, bg, HAIR_MIN)
    ensures Clears(t, m.surface2, bg, SURFACE_MIN) <==> Clears(t, MixPct(ink, bg, 99), bg, SURFACE_MIN)
  {
    LeastClearingIsThreshold(t, ink, bg, HAIR_MIN, 16, m.hairPct, m.hair2Pct);
    LeastClearingIsThreshold(t, ink, bg, SURFACE_MIN, 5, m.surfPct, m.surf2Pct);
    LeastClearingIsThreshold(t, ink, bg, SURFACE_MIN, 5, m.surfPct, 99);
  }

  // ----- a two-sided ink can lose a floor -----

  const DARK_RED := Rgb(168, 0, 0)
  const CYAN := Rgb(0, 255, 255)

  predicate Near(x: real, y: real) {
    y - 0.00001 <= x <= y + 0.00001
  }

  /** The sRGB transfer function at the channel values used below, to five decimals. */
  ghost predicate NearSrgb(t: Curve) {
    && Near(t[13], 0.00402) && Near(t[15], 0.00478) && Near(t[18], 0.00605) && Near(t[20], 0.00700)
    && Near(t[23], 0.00857) && Near(t[26], 0.01033) && Near(t[28], 0.01161) && Near(t[31], 0.01370)
    && Near(t[33], 0.01521) && Near(t[43], 0.02416) && Near(t[139], 0.25818) && Near(t[146], 0.28744)
    && Near(t[148], 0.29614) && Near(t[150], 0.30499) && Near(t[151], 0.30947) && Near(t[153], 0.31855)
    && Near(t[155], 0.32778) && Near(t[156], 0.33245) && Near(t[158], 0.34191) && Near(t[160], 0.35153)
    && Near(t[168], 0.39157)
  }

  lemma CyanInDarkRed(p: Percent, red: Channel, rest: Channel)
    requires -0.5 < red as real - 1.68 * (100 - p) as real < 0.5
    requires -0.5 < rest as real - 2.55 * p as real < 0.5 || (p == 10 && rest == 26)
    ensures MixPct(CYAN, DARK_RED, p) == Rgb(red, rest, rest)
  {
    var s := p as real / 100.0;
    assert Blend(0, 168, s) == 1.68 * (100 - p) as real;
    assert Blend(255, 0, s) == 2.55 * p as real;
    assert RoundHalfEven(Blend(0, 168, s)) == red;
    assert RoundHalfEven(Blend(255, 0, s)) == rest;
  }

  lemma RatioAgainst(hi: real, lo: real, k: real)
    requires 0.0 <= lo <= hi
    ensures Ratio(hi, lo) < k <==> hi + 0.05 < k * (lo + 0.05)
  {
    var q := Ratio(hi, lo);
    assert (q - k) * (lo + 0.05) == hi + 0.05 - k * (lo + 0.05);
    SignOfFactor(q - k, lo + 0.05);
    SignOfFactor(k - q, lo + 0.05);
  }

  /** The surface floor on dark red, decided by a luminance below the background's. */
  lemma OnDarkRed(t: Curve, c: Rgb)
    requires Near(t[168], 0.39157) && Luminance(t, c) < 0.0832
    ensures 1.0799 * (Luminance(t, c) + 0.05) > 0.1333 ==> !Clears(t, c, DARK_RED, SURFACE_MIN)
    ensures 1.08 * (Luminance(t, c) + 0.05) < 0.1332 ==> Clears(t, c, DARK_RED, SURFACE_MIN)
  {
    var hi, lo := Luminance(t, DARK_RED), Luminance(t, c);
    assert 0.0832 < hi < 0.0833;
    RatioAgainst(hi, lo, SURFACE_MIN - SLACK);
  }

  /** One step of the search: the mix `p`, with its two distinct channels' curve values. */
  lemma SurfaceStep(t: Curve, p: Percent, red: Channel, rest: Channel, x: real, y: real)
    requires -0.5 < red as real - 1.68 * (100 - p) as real < 0.5
    requires -0.5 < rest as real - 2.55 * p as real < 0.5 || (p == 10 && rest == 26)
    requires Near(t[168], 0.39157) && Near(t[red], x) && Near(t[rest], y)
    requires 0.2126 * x + 0.7874 * y < 0.0831
    ensures 1.0799 * (0.2126 * x + 0.7874 * y + 0.04999) > 0.1333
            ==> !Clears(t, MixPct(CYAN, DARK_RED, p), DARK_RED, SURFACE_MIN)
    ensures 1.08 * (0.2126 * x + 0.7874 * y + 0.05001) < 0.1332
            ==> Clears(t, MixPct(CYAN, DARK_RED, p), DARK_RED, SURFACE_MIN)
  {
    CyanInDarkRed(p, red, rest);
    OnDarkRed(t, Rgb(red, rest, rest));
  }

  lemma NothingClearsUnder13(t: Curve, p: Percent)
    requires NearSrgb(t) && 5 <= p < 13
    ensures !Clears(t, MixPct(CYAN, DARK_RED, p), DARK_RED, SURFACE_MIN)
  {
    if p == 5 {
      SurfaceStep(t, 5, 160, 13, 0.35153, 0.00402);
    } else if p == 6 {
      SurfaceStep(t, 6, 158, 15, 0.34191, 0.00478);
    } else if p == 7 {
      SurfaceStep(t, 7, 156, 18, 0.33245, 0.00605);
    } else if p == 8 {
      SurfaceStep(t, 8, 155, 20, 0.32778, 0.00700);
    } else if p == 9 {
      SurfaceStep(t, 9, 153, 23, 0.31855, 0.00857);
    } else if p == 10 {
      SurfaceStep(t, 10, 151, 26, 0.30947, 0.01033);
    } else if p == 11 {
      SurfaceStep(t, 11, 150, 28, 0.30499, 0.01161);
    } else {
      SurfaceStep(t, 12, 148, 31, 0.29614, 0.01370);
    }
  }

  /** Cyan ink on dark red, with the real sRGB curve: the surface search stops at 13 percent,
      and four percent more ink brings the contrast back under the surface floor. */
  lemma SurfaceTwoCanLoseItsFloor(t: Curve)
    requires NearSrgb(t)
    ensures Clears(t, CYAN, DARK_RED, INK_MIN) && !OneSided(CYAN, DARK_RED)
    ensures IsLeastClearing(t, CYAN, DARK_RED, SURFACE_MIN, 5, 13)
    ensures !Clears(t, MixPct(CYAN, DARK_RED, Raised(13, 4, 99)), DARK_RED, SURFACE_MIN)
  {
    forall p: Percent | 5 <= p < 13
      ensures !Clears(t, MixPct(CYAN, DARK_RED, p), DARK_RED, SURFACE_MIN)
    {
      NothingClearsUnder13(t, p);
    }
    SurfaceStep(t, 13, 146, 33, 0.28744, 0.01521);
    SurfaceStep(t, 17, 139, 43, 0.25818, 0.02416);
    CyanIsInk(t);
  }

  lemma CyanIsInk(t: Curve)
    requires Near(t[168], 0.39157)
    ensures Clears(t, CYAN, DARK_RED, INK_MIN)
  {
    RatioAgainst(Luminance(t, CYAN), Luminance(t, DARK_RED), INK_MIN);
  }
}
