/** Payout distribution (`compute_payouts_for_event`). The six best-ranked
    standings of an event share a pool: when their normalised scores are
    (nearly) tied the pool is split evenly, otherwise in proportion to the
    weights exp(-k * z); a sixth share below the floor `min6` is raised to it
    at the cost of the other five in proportion to their shares; a final adds
    a fixed bonus per rank. Amounts are exact reals here; `exp` is a parameter. */
module Payouts {
  import opened Collections
  import opened Ordering
  import opened Models

  /** The keyword parameters of the source, with their defaults in `Defaults`. */
  datatype Params = Params(k: real, eps: real, tieEps: real, base: int, min6: real, finalExtras: seq<real>)

  const Defaults: Params :=
    Params(2.0, 0.000001, 0.02, DefaultBasePool, 30.0, [200.0, 100.0, 100.0, 0.0, 0.0, 0.0])

  /** The defaults `compute_payouts_for_event(event)` runs with meet every
      requirement the payout lemmas place on the parameters. */
  lemma DefaultsAdmissible()
    ensures Defaults.eps > 0.0 && 0.0 < Defaults.tieEps <= 1.0 && Defaults.k >= 0.0
    ensures Defaults.base > 0 && |Defaults.finalExtras| >= 6
  {
  }

  function Sum(s: seq<real>): real {
    if s == [] then 0.0 else Sum(s[..|s| - 1]) + s[|s| - 1]
  }

  /** Python's `min` of a non-empty list. */
  function MinOf(s: seq<real>): (m: real)
    requires s != []
    ensures m in s && forall i :: 0 <= i < |s| ==> m <= s[i]
  {
    if |s| == 1 then s[0]
    else
      var init := s[..|s| - 1];
      var m := MinOf(init);
      assert forall i :: 0 <= i < |init| ==> s[i] == init[i];
      if s[|s| - 1] < m then s[|s| - 1] else m
  }

  /** Python's `max` of a non-empty list. */
  function MaxOf(s: seq<real>): (m: real)
    requires s != []
    ensures m in s && forall i :: 0 <= i < |s| ==> s[i] <= m
  {
    if |s| == 1 then s[0]
    else
      var init := s[..|s| - 1];
      var m := MaxOf(init);
      assert forall i :: 0 <= i < |init| ==> s[i] == init[i];
      if s[|s| - 1] > m then s[|s| - 1] else m
  }

  function RankOf(s: Standing): int { s.rank }
  function ScoreOf(s: Standing): int { s.totalScore }

  /** `Standing.objects.filter(event=e).order_by('rank')[:6]`. */
  function TopSix(standings: seq<Standing>, e: EventId): (top: seq<Standing>)
    ensures |top| <= 6
    ensures forall i :: 0 <= i < |top| ==> top[i] in standings && top[i].event == e
  {
    var rows := Filter(standings, (s: Standing) => s.event == e);
    var ranked := SortBy(rows, RankOf, IntLe);
    FilterMembers(standings, (s: Standing) => s.event == e);
    SortByMembers(rows, RankOf, IntLe);
    if |ranked| <= 6 then ranked else ranked[..6]
  }

  /** R = max(1, rounds), the divisor of the totals. */
  function RoundsDivisor(rounds: int): (r: real)
    ensures r >= 1.0
  {
    (if rounds > 1 then rounds else 1) as real
  }

  /** S' = total_score / R. */
  function Rescaled(top: seq<Standing>, rounds: int): (r: seq<real>)
    ensures |r| == |top|
  {
    seq(|top|, i requires 0 <= i < |top| => top[i].totalScore as real / RoundsDivisor(rounds))
  }

  /** Min-max normalisation z = (v - Smin) / max(Smax - Smin, eps). */
  function Normalised(sp: seq<real>, eps: real): (r: seq<real>)
    requires sp != [] && eps > 0.0
    ensures |r| == |sp|
  {
    var lo := MinOf(sp);
    var hi := MaxOf(sp);
    var denom := if hi - lo >= eps then hi - lo else eps;
    Spread(sp, lo, denom)
  }

  /** (v - lo) / denom for every score v. */
  function Spread(sp: seq<real>, lo: real, denom: real): (r: seq<real>)
    requires denom > 0.0
    ensures |r| == |sp|
  {
    seq(|sp|, i requires 0 <= i < |sp| => (sp[i] - lo) / denom)
  }

  /** base * w_i / sum(w): every weight times the factor base / sum(w). */
  function Shares(w: seq<real>, base: int): (r: seq<real>)
    requires Sum(w) != 0.0
    ensures |r| == |w|
  {
    Scale(w, base as real / Sum(w))
  }

  /** The floor step on six amounts. */
  function Floor(a: seq<real>, min6: real): (r: seq<real>)
    requires |a| == 6
    ensures |r| == 6
    ensures r[5] >= min6 && r[5] >= a[5]
    ensures a[5] >= min6 ==> r == a
  {
    if a[5] < min6 then
      var delta := min6 - a[5];
      var t := if Sum(a[..5]) != 0.0 then Sum(a[..5]) else 1.0;
      Shift(a, delta, t)
    else a
  }

  /** Moves `delta` to the sixth amount, taken from the first five in
      proportion to each one's part of `t`. */
  function Shift(a: seq<real>, delta: real, t: real): (r: seq<real>)
    requires |a| == 6 && t != 0.0
    ensures |r| == 6
  {
    seq(6, i requires 0 <= i < 6 => if i < 5 then a[i] - delta * (a[i] / t) else a[i] + delta)
  }

  /** The spread of the normalised scores is below tie_eps. */
  predicate IsTie(sp: seq<real>, p: Params)
    requires sp != [] && p.eps > 0.0
  {
    var z := Normalised(sp, p.eps);
    MaxOf(z) - MinOf(z) < p.tieEps
  }

  /** The weights exp(-k * z_i). */
  function Weights(top: seq<Standing>, rounds: int, p: Params, exp: real -> real): (w: seq<real>)
    requires top != [] && p.eps > 0.0
    requires forall x :: exp(x) > 0.0
    ensures |w| == |top| && forall i :: 0 <= i < |w| ==> w[i] > 0.0
  {
    var z := Normalised(Rescaled(top, rounds), p.eps);
    seq(|z|, i requires 0 <= i < |z| => exp(-p.k * z[i]))
  }

  /** The base amounts of the six, before rounding to cents. */
  function BaseAmounts(top: seq<Standing>, rounds: int, p: Params, exp: real -> real): (r: seq<real>)
    requires |top| == 6 && p.eps > 0.0
    requires forall x :: exp(x) > 0.0
    ensures |r| == 6
  {
    if IsTie(Rescaled(top, rounds), p) then seq(6, i => p.base as real / 6.0)
    else
      var w := Weights(top, rounds, p, exp);
      PositiveSum(w);
      Floor(Shares(w, p.base), p.min6)
  }

  /** The bonus per rank: `final_extras` for a final, zeros otherwise. */
  function Extras(format: Format, p: Params): (r: seq<real>)
    requires format == Final ==> |p.finalExtras| >= 6
    ensures |r| >= 6
  {
    if format == Final then p.finalExtras else [0.0, 0.0, 0.0, 0.0, 0.0, 0.0]
  }

  lemma {:induction false} PositiveSum(w: seq<real>)
    requires forall i :: 0 <= i < |w| ==> w[i] > 0.0
    ensures w != [] ==> Sum(w) > 0.0
  {
    if w != [] { PositiveSum(w[..|w| - 1]); }
  }

  lemma Sum6(a: seq<real>)
    requires |a| == 6
    ensures Sum(a[..5]) == a[0] + a[1] + a[2] + a[3] + a[4]
    ensures Sum(a) == a[0] + a[1] + a[2] + a[3] + a[4] + a[5]
  {
    assert Sum(a[..1]) == a[0] by { assert a[..1][..0] == []; }
    assert Sum(a[..2]) == Sum(a[..1]) + a[1] by { assert a[..2][..1] == a[..1]; }
    assert Sum(a[..3]) == Sum(a[..2]) + a[2] by { assert a[..3][..2] == a[..2]; }
    assert Sum(a[..4]) == Sum(a[..3]) + a[3] by { assert a[..4][..3] == a[..3]; }
    assert Sum(a[..5]) == Sum(a[..4]) + a[4] by { assert a[..5][..4] == a[..4]; }
    assert Sum(a) == Sum(a[..5]) + a[5] by { assert a[..5] == a[..|a| - 1]; }
  }

  /** c * w_i for every i. */
  function Scale(w: seq<real>, c: real): seq<real> {
    seq(|w|, i requires 0 <= i < |w| => c * w[i])
  }

  lemma {:induction false} ScaleSum(w: seq<real>, c: real)
    ensures Sum(Scale(w, c)) == c * Sum(w)
  {
    if w != [] {
      var n := |w| - 1;
      ScaleSum(w[..n], c);
      var v := Scale(w, c);
      assert v[..n] == Scale(w[..n], c) by {
        forall i | 0 <= i < n ensures v[..n][i] == Scale(w[..n], c)[i] {
          assert w[..n][i] == w[i];
        }
      }
      assert v[..|v| - 1] == v[..n];
    }
  }

  /** The proportional shares add up to the pool. */
  lemma SharesSumToPool(w: seq<real>, base: int)
    requires Sum(w) != 0.0
    ensures Sum(Shares(w, base)) == base as real
  {
    ScaleSum(w, base as real / Sum(w));
    assert (base as real / Sum(w)) * Sum(w) == base as real;
  }

  /** The floor step raises the sixth amount to exactly the floor when it is
      below, and keeps the sum of the six amounts, as long as the other five
      do not sum to zero (the source then divides by 1.0 instead). */
  lemma FloorKeepsSum(a: seq<real>, min6: real)
    requires |a| == 6
    requires a[5] >= min6 || Sum(a[..5]) != 0.0
    ensures Sum(Floor(a, min6)) == Sum(a)
    ensures Floor(a, min6)[5] == (if a[5] < min6 then min6 else a[5])
  {
    if a[5] < min6 {
      var delta := min6 - a[5];
      var t := Sum(a[..5]);
      var f := Shift(a, delta, t);
      Sum6(a);
      Sum6(f);
      ShiftKeepsTotal(a, delta, t);
    }
  }

  /** Shift keeps the total of the six amounts when t is the first five's total. */
  lemma ShiftKeepsTotal(a: seq<real>, delta: real, t: real)
    requires |a| == 6 && t == a[0] + a[1] + a[2] + a[3] + a[4] && t != 0.0
    ensures var f := Shift(a, delta, t);
      f[0] + f[1] + f[2] + f[3] + f[4] + f[5] == a[0] + a[1] + a[2] + a[3] + a[4] + a[5]
  {
    var q := delta / t;
    ShiftAt(a, delta, t, 0);
    ShiftAt(a, delta, t, 1);
    ShiftAt(a, delta, t, 2);
    ShiftAt(a, delta, t, 3);
    ShiftAt(a, delta, t, 4);
    FactorFive(a[0], a[1], a[2], a[3], a[4], q);
    DivCancel(delta, t);
  }

  lemma ShiftAt(a: seq<real>, delta: real, t: real, i: int)
    requires |a| == 6 && t != 0.0 && 0 <= i < 5
    ensures Shift(a, delta, t)[i] == a[i] - a[i] * (delta / t)
  {
    MulDivSwap(delta, a[i], t);
  }

  lemma DivCancel(d: real, t: real)
    requires t != 0.0
    ensures t * (d / t) == d
  {
  }

  lemma MulDivSwap(d: real, x: real, t: real)
    requires t != 0.0
    ensures d * (x / t) == x * (d / t)
  {
  }

  lemma FactorFive(x0: real, x1: real, x2: real, x3: real, x4: real, q: real)
    ensures (x0 - x0 * q) + (x1 - x1 * q) + (x2 - x2 * q) + (x3 - x3 * q) + (x4 - x4 * q)
         == (x0 + x1 + x2 + x3 + x4) - (x0 + x1 + x2 + x3 + x4) * q
  {
  }

  /** Below the floor, each of the first five amounts is scaled by the same
      factor 1 - delta / T. */
  lemma FloorFactor(a: seq<real>, min6: real, i: int)
    requires |a| == 6 && a[5] < min6 && Sum(a[..5]) != 0.0 && 0 <= i < 5
    ensures Floor(a, min6)[i] == a[i] - a[i] * ((min6 - a[5]) / Sum(a[..5]))
  {
    MulDivSwap(min6 - a[5], a[i], Sum(a[..5]));
  }

  lemma PositiveProduct(x: real, q: real)
    requires x > 0.0 && q > 0.0
    ensures x * q > 0.0
  {
  }

  lemma PositiveQuotient(d: real, t: real)
    requires d > 0.0 && t > 0.0
    ensures d / t > 0.0
  {
  }

  lemma CommonFactor(x: real, y: real, q: real)
    ensures (x - x * q) * y == (y - y * q) * x
  {
  }

  lemma FloorProportional(a: seq<real>, min6: real, i: int, j: int)
    requires |a| == 6 && a[5] < min6 && Sum(a[..5]) != 0.0 && 0 <= i < 5 && 0 <= j < 5
    ensures Floor(a, min6)[i] * a[j] == Floor(a, min6)[j] * a[i]
  {
    FloorFactor(a, min6, i);
    FloorFactor(a, min6, j);
    CommonFactor(a[i], a[j], (min6 - a[5]) / Sum(a[..5]));
  }

  /** Below the floor, when the other five amounts are positive each of
      them gives something up. */
  lemma FloorTakesFromEach(a: seq<real>, min6: real)
    requires |a| == 6 && a[5] < min6
    requires forall i :: 0 <= i < 5 ==> a[i] > 0.0
    ensures forall i :: 0 <= i < 5 ==> Floor(a, min6)[i] < a[i]
  {
    var t := Sum(a[..5]);
    assert t > 0.0 by { Sum6(a); }
    var q := (min6 - a[5]) / t;
    assert q > 0.0 by { PositiveQuotient(min6 - a[5], t); }
    forall i | 0 <= i < 5 ensures Floor(a, min6)[i] < a[i] {
      FloorFactor(a, min6, i);
      PositiveProduct(a[i], q);
    }
  }

  /** Below the floor, the first five amounts keep their proportions to each
      other: the deduction is proportional to each share. */
  lemma FloorKeepsProportions(a: seq<real>, min6: real)
    requires |a| == 6 && a[5] < min6
    requires forall i :: 0 <= i < 5 ==> a[i] > 0.0
    ensures forall i, j :: 0 <= i < 5 && 0 <= j < 5 ==> Floor(a, min6)[i] * a[j] == Floor(a, min6)[j] * a[i]
  {
    assert Sum(a[..5]) > 0.0 by { Sum6(a); }
    forall i, j | 0 <= i < 5 && 0 <= j < 5 ensures Floor(a, min6)[i] * a[j] == Floor(a, min6)[j] * a[i] {
      FloorProportional(a, min6, i, j);
    }
  }

  /** Equal totals make a tie, whatever tie_eps > 0 is: every base amount is base / 6. */
  lemma TieSplitsEvenly(top: seq<Standing>, rounds: int, p: Params, exp: real -> real)
    requires |top| == 6 && p.eps > 0.0 && p.tieEps > 0.0
    requires forall x :: exp(x) > 0.0
    requires forall i :: 0 <= i < 6 ==> top[i].totalScore == top[0].totalScore
    ensures forall i :: 0 <= i < 6 ==> BaseAmounts(top, rounds, p, exp)[i] == p.base as real / 6.0
  {
    var sp := Rescaled(top, rounds);
    var lo := MinOf(sp);
    var hi := MaxOf(sp);
    assert forall i :: 0 <= i < 6 ==> sp[i] == sp[0];
    assert lo == sp[0] && hi == sp[0];
    var z := Normalised(sp, p.eps);
    assert forall i :: 0 <= i < 6 ==> z[i] == 0.0;
    assert MinOf(z) == 0.0 && MaxOf(z) == 0.0;
    assert IsTie(sp, p);
  }

  /** With a non-zero pool the five best shares never sum to zero. */
  lemma FiveSharesNonzero(w: seq<real>, base: int)
    requires |w| == 6 && base != 0
    requires forall i :: 0 <= i < 6 ==> w[i] > 0.0
    ensures Sum(w) > 0.0 && Sum(Shares(w, base)[..5]) != 0.0
  {
    PositiveSum(w);
    var c := base as real / Sum(w);
    assert c != 0.0 by { NonzeroQuotient(base as real, Sum(w)); }
    assert Sum(w[..5]) > 0.0 by { PositiveSum(w[..5]); }
    assert Shares(w, base)[..5] == Scale(w[..5], c) by { ScalePrefix(w, c, 5); }
    ScaleSum(w[..5], c);
    NonzeroProduct(c, Sum(w[..5]));
  }

  lemma NonzeroQuotient(x: real, d: real)
    requires x != 0.0 && d > 0.0
    ensures x / d != 0.0
  {
    assert x == (x / d) * d;
  }

  lemma NonzeroProduct(x: real, y: real)
    requires x != 0.0 && y != 0.0
    ensures x * y != 0.0
  {
  }

  lemma ScalePrefix(w: seq<real>, c: real, n: int)
    requires 0 <= n <= |w|
    ensures Scale(w, c)[..n] == Scale(w[..n], c)
  {
    forall i | 0 <= i < n ensures Scale(w, c)[..n][i] == Scale(w[..n], c)[i] {
      assert w[..n][i] == w[i];
    }
  }

  /** Over exact reals the six base amounts add up to the pool (the source
      rounds each to cents afterwards). */
  lemma BaseAmountsSumToPool(top: seq<Standing>, rounds: int, p: Params, exp: real -> real)
    requires |top| == 6 && p.eps > 0.0 && p.base != 0
    requires forall x :: exp(x) > 0.0
    ensures Sum(BaseAmounts(top, rounds, p, exp)) == p.base as real
  {
    var b := BaseAmounts(top, rounds, p, exp);
    if IsTie(Rescaled(top, rounds), p) {
      Sum6(b);
    } else {
      var w := Weights(top, rounds, p, exp);
      FiveSharesNonzero(w, p.base);
      SharesSumToPool(w, p.base);
      FloorKeepsSum(Shares(w, p.base), p.min6);
    }
  }

  lemma DivMono(x: real, y: real, d: real)
    requires x <= y && d > 0.0
    ensures x / d <= y / d
  {
    assert y / d - x / d == (y - x) / d;
  }

  lemma MulMono(c: real, x: real, y: real)
    requires c >= 0.0 && x <= y
    ensures c * x <= c * y
  {
    assert c * y - c * x == c * (y - x);
  }

  /** A lower bound that occurs in the list is its minimum. */
  lemma MinIs(s: seq<real>, v: real)
    requires v in s && forall i :: 0 <= i < |s| ==> v <= s[i]
    ensures MinOf(s) == v
  {
  }

  /** An upper bound that occurs in the list is its maximum. */
  lemma MaxIs(s: seq<real>, v: real)
    requires v in s && forall i :: 0 <= i < |s| ==> s[i] <= v
    ensures MaxOf(s) == v
  {
  }

  lemma DivBounds(x: real, r: real, d: real)
    requires 0.0 <= x <= r && d > 0.0
    ensures 0.0 <= x / d <= r / d
  {
    DivMono(0.0, x, d);
    DivMono(x, r, d);
  }

  lemma SpreadBounds(sp: seq<real>, lo: real, hi: real, denom: real, k: int, m: int)
    requires denom > 0.0 && 0 <= k < |sp| && 0 <= m < |sp| && sp[k] == lo && sp[m] == hi
    requires forall i :: 0 <= i < |sp| ==> lo <= sp[i] <= hi
    ensures var z := Spread(sp, lo, denom);
      && (forall i :: 0 <= i < |z| ==> 0.0 <= z[i] <= (hi - lo) / denom)
      && z[k] == 0.0 && z[m] == (hi - lo) / denom
  {
    var z := Spread(sp, lo, denom);
    forall i | 0 <= i < |z| ensures 0.0 <= z[i] <= (hi - lo) / denom {
      DivBounds(sp[i] - lo, hi - lo, denom);
    }
  }

  /** Every normalised score lies in [0, (Smax - Smin) / denom], and both ends occur. */
  lemma NormalisedBounds(sp: seq<real>, eps: real, lo: real, hi: real, denom: real)
    requires sp != [] && eps > 0.0
    requires lo == MinOf(sp) && hi == MaxOf(sp) && denom == if hi - lo >= eps then hi - lo else eps
    ensures var z := Normalised(sp, eps);
      && (forall i :: 0 <= i < |z| ==> 0.0 <= z[i] <= (hi - lo) / denom)
      && 0.0 in z && (hi - lo) / denom in z
  {
    var z := Normalised(sp, eps);
    var k :| 0 <= k < |sp| && sp[k] == lo;
    var m :| 0 <= m < |sp| && sp[m] == hi;
    SpreadBounds(sp, lo, hi, denom, k, m);
  }

  /** The normalised scores run from exactly 0 to (Smax - Smin) / denom. */
  lemma NormalisedRange(sp: seq<real>, eps: real)
    requires sp != [] && eps > 0.0
    ensures var lo, hi := MinOf(sp), MaxOf(sp);
      var denom := if hi - lo >= eps then hi - lo else eps;
      var z := Normalised(sp, eps);
      MinOf(z) == 0.0 && MaxOf(z) == (hi - lo) / denom
  {
    var lo, hi := MinOf(sp), MaxOf(sp);
    var denom := if hi - lo >= eps then hi - lo else eps;
    var z := Normalised(sp, eps);
    NormalisedBounds(sp, eps, lo, hi, denom);
    MinIs(z, 0.0);
    MaxIs(z, (hi - lo) / denom);
  }

  lemma DivSelf(d: real)
    requires d > 0.0
    ensures d / d == 1.0
  {
  }

  /** x / d < t exactly when x < t * d, for d > 0. */
  lemma DivLess(x: real, t: real, d: real)
    requires d > 0.0
    ensures x / d < t <==> x < t * d
  {
    assert t * d - x == (t - x / d) * d;
  }

  /** tie_eps * eps: the spread of rescaled scores below which the tie
      branch is taken. */
  function TieWidth(p: Params): real {
    p.tieEps * p.eps
  }

  /** The arithmetic of the tie test: the spread of z is d / max(d, eps). */
  lemma TieArith(range: real, d: real, p: Params)
    requires p.eps > 0.0 && 0.0 < p.tieEps <= 1.0 && d >= 0.0
    requires range == d / (if d >= p.eps then d else p.eps)
    ensures range < p.tieEps <==> d < TieWidth(p)
  {
    if d >= p.eps {
      assert range == 1.0 by { DivSelf(d); }
      assert TieWidth(p) <= p.eps by {
        MulMono(p.eps, p.tieEps, 1.0);
        assert TieWidth(p) == p.eps * p.tieEps;
      }
    } else {
      DivLess(d, p.tieEps, p.eps);
    }
  }

  /** For tie_eps in (0, 1], a tie means exactly that the rescaled scores
      spread less than tie_eps * eps. */
  lemma TieMeansSpreadBelow(sp: seq<real>, p: Params)
    requires sp != [] && p.eps > 0.0 && 0.0 < p.tieEps <= 1.0
    ensures IsTie(sp, p) <==> MaxOf(sp) - MinOf(sp) < TieWidth(p)
  {
    var d := MaxOf(sp) - MinOf(sp);
    SpreadNonnegative(sp);
    TieByRange(sp, p);
    TieArith(d / (if d >= p.eps then d else p.eps), d, p);
  }

  lemma SpreadNonnegative(sp: seq<real>)
    requires sp != []
    ensures MaxOf(sp) - MinOf(sp) >= 0.0
  {
    assert MinOf(sp) <= sp[0] <= MaxOf(sp);
  }

  /** The tie test compares the spread of the rescaled scores, divided by
      max(spread, eps), with tie_eps. */
  lemma TieByRange(sp: seq<real>, p: Params)
    requires sp != [] && p.eps > 0.0
    ensures var d := MaxOf(sp) - MinOf(sp);
      IsTie(sp, p) <==> d / (if d >= p.eps then d else p.eps) < p.tieEps
  {
    NormalisedRange(sp, p.eps);
  }

  /** A higher total never rescales to a lower score. */
  lemma RescaledMono(top: seq<Standing>, rounds: int, i: int, j: int)
    requires 0 <= i < |top| && 0 <= j < |top| && top[i].totalScore <= top[j].totalScore
    ensures Rescaled(top, rounds)[i] <= Rescaled(top, rounds)[j]
  {
    DivMono(top[i].totalScore as real, top[j].totalScore as real, RoundsDivisor(rounds));
  }

  /** Normalisation keeps the order of the scores. */
  lemma NormalisedMono(sp: seq<real>, eps: real, i: int, j: int)
    requires sp != [] && eps > 0.0 && 0 <= i < |sp| && 0 <= j < |sp| && sp[i] <= sp[j]
    ensures Normalised(sp, eps)[i] <= Normalised(sp, eps)[j]
  {
    var lo, hi := MinOf(sp), MaxOf(sp);
    var denom := if hi - lo >= eps then hi - lo else eps;
    DivMono(sp[i] - lo, sp[j] - lo, denom);
  }

  /** With an increasing exp and k >= 0, a higher normalised score never
      gets a higher weight. */
  lemma WeightsMono(top: seq<Standing>, rounds: int, p: Params, exp: real -> real, i: int, j: int)
    requires top != [] && p.eps > 0.0 && p.k >= 0.0
    requires forall x :: exp(x) > 0.0
    requires forall x, y :: x <= y ==> exp(x) <= exp(y)
    requires 0 <= i < |top| && 0 <= j < |top|
    requires Normalised(Rescaled(top, rounds), p.eps)[i] <= Normalised(Rescaled(top, rounds), p.eps)[j]
    ensures Weights(top, rounds, p, exp)[j] <= Weights(top, rounds, p, exp)[i]
  {
    var z := Normalised(Rescaled(top, rounds), p.eps);
    MulMono(p.k, z[i], z[j]);
    assert -p.k * z[j] <= -p.k * z[i];
  }

  /** A smaller weight never earns a larger share. */
  lemma SharesMono(w: seq<real>, base: int, i: int, j: int)
    requires Sum(w) > 0.0 && base >= 0 && 0 <= i < |w| && 0 <= j < |w| && w[j] <= w[i]
    ensures Shares(w, base)[j] <= Shares(w, base)[i]
  {
    NonnegativeQuotient(base as real, Sum(w));
    ScaleMono(w, base as real / Sum(w), i, j);
  }

  lemma NonnegativeQuotient(x: real, d: real)
    requires x >= 0.0 && d > 0.0
    ensures x / d >= 0.0
  {
    DivMono(0.0, x, d);
  }

  lemma ScaleMono(w: seq<real>, c: real, i: int, j: int)
    requires c >= 0.0 && 0 <= i < |w| && 0 <= j < |w| && w[j] <= w[i]
    ensures Scale(w, c)[j] <= Scale(w, c)[i]
  {
    MulMono(c, w[j], w[i]);
  }

  /** With an increasing exp and k >= 0, a lower total never earns a smaller
      proportional share (before the floor step). */
  lemma SharesFollowTotals(top: seq<Standing>, rounds: int, p: Params, exp: real -> real, i: int, j: int)
    requires |top| == 6 && p.eps > 0.0 && p.k >= 0.0 && p.base >= 0
    requires forall x :: exp(x) > 0.0
    requires forall x, y :: x <= y ==> exp(x) <= exp(y)
    requires 0 <= i < 6 && 0 <= j < 6 && top[i].totalScore <= top[j].totalScore
    ensures var w := Weights(top, rounds, p, exp);
      Sum(w) > 0.0 && Shares(w, p.base)[j] <= Shares(w, p.base)[i]
  {
    var w := Weights(top, rounds, p, exp);
    var sp := Rescaled(top, rounds);
    assert Normalised(sp, p.eps)[i] <= Normalised(sp, p.eps)[j] by {
      RescaledMono(top, rounds, i, j);
      NormalisedMono(sp, p.eps, i, j);
    }
    WeightsMono(top, rounds, p, exp, i, j);
    PositiveSum(w);
    SharesMono(w, p.base, i, j);
  }

  /** The standings of `e` in rank order. */
  function ByRank(standings: seq<Standing>, e: EventId): seq<Standing> {
    SortBy(Filter(standings, (s: Standing) => s.event == e), RankOf, IntLe)
  }

  /** The paid rows are at most six standings of `e`, as many as there are. */
  lemma TopSixRows(standings: seq<Standing>, e: EventId)
    ensures var top, rows := TopSix(standings, e), Filter(standings, (s: Standing) => s.event == e);
      && |top| == (if |rows| < 6 then |rows| else 6)
      && (forall i :: 0 <= i < |top| ==> top[i] in standings && top[i].event == e)
  {
    var rows := Filter(standings, (s: Standing) => s.event == e);
    var ranked := ByRank(standings, e);
    var top := TopSix(standings, e);
    forall i | 0 <= i < |top| ensures top[i] in standings && top[i].event == e {
      assert top[i] == ranked[i] && ranked[i] in multiset(rows);
    }
  }

  /** The paid rows come in ascending rank and name each player once. */
  lemma TopSixOrdered(standings: seq<Standing>, e: EventId)
    requires UniqueBy(standings, StandingKey)
    ensures var top := TopSix(standings, e);
      && (forall i, j :: 0 <= i < j < |top| ==> top[i].rank <= top[j].rank)
      && UniqueBy(top, StandingPlayer)
  {
    var ranked := ByRank(standings, e);
    var top := TopSix(standings, e);
    assert top == ranked[..|top|];
    assert SortedBy(ranked, RankOf, IntLe) by {
      IntLeTotal();
      SortBySorted(Filter(standings, (s: Standing) => s.event == e), RankOf, IntLe);
    }
    SortedByPrefix(ranked, |top|, RankOf, IntLe);
    ByRankUnique(standings, e);
    UniqueByPrefix(ranked, |top|, StandingPlayer);
  }

  /** One standing per (event, player): the event's standings name each player once. */
  lemma ByRankUnique(standings: seq<Standing>, e: EventId)
    requires UniqueBy(standings, StandingKey)
    ensures UniqueBy(ByRank(standings, e), StandingPlayer)
  {
    var keep := (s: Standing) => s.event == e;
    var rows := Filter(standings, keep);
    UniqueByFilter(standings, keep, StandingKey);
    assert UniqueBy(rows, StandingPlayer) by {
      forall a, b | 0 <= a < b < |rows| ensures rows[a].player != rows[b].player {
        assert StandingKey(rows[a]) != StandingKey(rows[b]);
      }
    }
    SortByUnique(rows, RankOf, IntLe, StandingPlayer);
  }

  /** No standing of `e` left unpaid outranks a paid one. */
  lemma TopSixBestRanked(standings: seq<Standing>, e: EventId)
    ensures var top, rows := TopSix(standings, e), Filter(standings, (s: Standing) => s.event == e);
      forall i, k :: 0 <= i < |top| && 0 <= k < |rows| && rows[k] !in top ==> top[i].rank <= rows[k].rank
  {
    var rows := Filter(standings, (s: Standing) => s.event == e);
    var ranked := ByRank(standings, e);
    var top := TopSix(standings, e);
    IntLeTotal();
    SortBySorted(rows, RankOf, IntLe);
    forall i, k | 0 <= i < |top| && 0 <= k < |rows| && rows[k] !in top ensures top[i].rank <= rows[k].rank {
      assert rows[k] in multiset(ranked);
      var m :| 0 <= m < |ranked| && ranked[m] == rows[k];
      assert top[i] == ranked[i];
    }
  }

  /** The Payout rows written for the six paid standings. */
  function PayoutRows(e: EventId, top: seq<Standing>, base: int, amounts: seq<real>, extras: seq<real>): seq<Payout>
    requires |top| == 6 && |amounts| == 6 && |extras| >= 6
  {
    seq(6, i requires 0 <= i < 6 => Payout(e, top[i].player, base, amounts[i], extras[i], amounts[i] + extras[i]))
  }

  /** The payout rows of other events, which a computation keeps. */
  function OtherEventPayouts(payouts: seq<Payout>, e: EventId): seq<Payout> {
    Filter(payouts, (x: Payout) => x.event != e)
  }

  /** Distinct paid players give distinct Payout keys, and each row's total
      is its base amount plus its rank's bonus. */
  lemma PayoutRowsShape(e: EventId, top: seq<Standing>, base: int, amounts: seq<real>, extras: seq<real>)
    requires |top| == 6 && |amounts| == 6 && |extras| >= 6
    requires UniqueBy(top, StandingPlayer)
    ensures var rows := PayoutRows(e, top, base, amounts, extras);
      && UniqueBy(rows, PayoutKey)
      && (forall i :: 0 <= i < 6 ==>
            && rows[i].event == e && rows[i].player == top[i].player && rows[i].basePool == base
            && rows[i].baseAmount == amounts[i] && rows[i].extraBonus == extras[i]
            && rows[i].totalAmount == rows[i].baseAmount + rows[i].extraBonus)
  {
    var rows := PayoutRows(e, top, base, amounts, extras);
    forall a, b | 0 <= a < b < 6 ensures PayoutKey(rows[a]) != PayoutKey(rows[b]) {
      assert StandingPlayer(top[a]) != StandingPlayer(top[b]);
    }
  }

  /** The bonus of each rank: `final_extras` in a final, zero otherwise. */
  lemma ExtrasByFormat(format: Format, p: Params)
    requires format == Final ==> |p.finalExtras| >= 6
    ensures forall i :: 0 <= i < 6 ==>
      Extras(format, p)[i] == if format == Final then p.finalExtras[i] else 0.0
  {
  }

  /** What the payouts of an event hold: one row per paid player, in rank
      order, each total the base amount plus the rank's bonus (zero outside
      a final), and with a non-zero pool the base amounts sum to the pool. */
  lemma PayoutsTable(standings: seq<Standing>, ev: Event, p: Params, exp: real -> real)
    requires UniqueBy(standings, StandingKey)
    requires |TopSix(standings, ev.id)| == 6
    requires p.eps > 0.0 && forall x :: exp(x) > 0.0
    requires ev.format == Final ==> |p.finalExtras| >= 6
    ensures var top := TopSix(standings, ev.id);
      var amounts := BaseAmounts(top, ev.rounds, p, exp);
      var rows := PayoutRows(ev.id, top, p.base, amounts, Extras(ev.format, p));
      && UniqueBy(rows, PayoutKey)
      && (forall i :: 0 <= i < 6 ==>
            && rows[i].event == ev.id && rows[i].player == top[i].player
            && rows[i].basePool == p.base
            && rows[i].totalAmount == rows[i].baseAmount + rows[i].extraBonus
            && (ev.format != Final ==> rows[i].extraBonus == 0.0)
            && (ev.format == Final ==> rows[i].extraBonus == p.finalExtras[i]))
      && (p.base != 0 ==> Sum(amounts) == p.base as real)
  {
    var top := TopSix(standings, ev.id);
    var amounts := BaseAmounts(top, ev.rounds, p, exp);
    var extras := Extras(ev.format, p);
    assert UniqueBy(top, StandingPlayer) by { TopSixOrdered(standings, ev.id); }
    PayoutRowsShape(ev.id, top, p.base, amounts, extras);
    ExtrasByFormat(ev.format, p);
    if p.base != 0 {
      assert Sum(amounts) == p.base as real by { BaseAmountsSumToPool(top, ev.rounds, p, exp); }
    }
  }

  /** The loop creating one Payout row per paid standing. */
  method BuildRows(e: EventId, top: seq<Standing>, base: int, amounts: seq<real>, extras: seq<real>)
    returns (out: seq<Payout>)
    requires |top| == 6 && |amounts| == 6 && |extras| >= 6
    ensures out == PayoutRows(e, top, base, amounts, extras)
  {
    out := [];
    var i := 0;
    while i < 6
      invariant 0 <= i <= 6
      invariant out == PayoutRows(e, top, base, amounts, extras)[..i]
    {
      out := out + [Payout(e, top[i].player, base, amounts[i], extras[i], amounts[i] + extras[i])];
      i := i + 1;
    }
  }

  /** `compute_payouts_for_event`: with fewer than six standings nothing is
      written; otherwise the event's payouts are replaced by the six rows. */
  method ComputePayouts(db: Db, ev: Event, p: Params, exp: real -> real) returns (out: seq<Payout>)
    requires db.Valid()
    requires p.eps > 0.0 && forall x :: exp(x) > 0.0
    requires ev.format == Final ==> |p.finalExtras| >= 6
    modifies db`payouts
    ensures db.Valid()
    ensures var top := TopSix(db.standings, ev.id);
      if |top| < 6 then out == [] && db.payouts == old(db.payouts)
      else
        && out == PayoutRows(ev.id, top, p.base, BaseAmounts(top, ev.rounds, p, exp), Extras(ev.format, p))
        && db.payouts == OtherEventPayouts(old(db.payouts), ev.id) + out
  {
    var top := TopSix(db.standings, ev.id);
    if |top| < 6 {
      return [];
    }
    var amounts := BaseAmounts(top, ev.rounds, p, exp);
    out := BuildRows(ev.id, top, p.base, amounts, Extras(ev.format, p));
    assert UniqueBy(OtherEventPayouts(db.payouts, ev.id) + out, PayoutKey) by {
      PayoutsTable(db.standings, ev, p, exp);
      UniqueByReplace(db.payouts, (x: Payout) => x.event != ev.id, out, PayoutKey);
    }
    db.payouts := OtherEventPayouts(db.payouts, ev.id) + out;
  }
}
