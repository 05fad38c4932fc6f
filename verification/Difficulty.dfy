/** Difficulty retargeting. Real numbers stand for the doubles of the program. */
module Difficulty {
  import opened Primitives
  import opened Blocks

  /** The settings of the adjuster. */
  datatype AdjusterSettings = AdjusterSettings(
    targetBlockTimeSec: nat,
    windowSize: nat,
    maxFactor: real,
    minDifficulty: nat,
    maxDifficulty: nat)

  type Adjuster = a: AdjusterSettings | a.windowSize > 0 && a.maxFactor > 0.0
    witness AdjusterSettings(10, 10, 4.0, 1, 8)

  /** Epoch seconds of a block; a timestamp that does not parse counts as 0. */
  function TimeOf(b: Block): int {
    match ISO_PARSER(b.timestamp)
    case None => 0
    case Some(time) => time
  }

  predicate ShouldRetarget(a: Adjuster, chainLength: nat) {
    chainLength > 1 && (chainLength - 1) % a.windowSize == 0
  }

  function RMin(x: real, y: real): real { if x < y then x else y }

  function RMax(x: real, y: real): real { if x < y then y else x }

  /** Rounding to the nearest integer, halves away from zero, of a non-negative number. */
  function Round(x: real): (n: nat)
    requires x >= 0.0
    ensures n as real - 0.5 <= x < n as real + 0.5
  {
    (x + 0.5).Floor
  }

  /** The smallest ratio a retarget uses. */
  function MinRatio(a: Adjuster): (r: real)
    ensures r > 0.0 && r * a.maxFactor == 1.0
  {
    1.0 / a.maxFactor
  }

  /** Expected over actual time of a window, kept within the adjustment factor. */
  function ClampedRatio(a: Adjuster, span: int): (r: real)
    requires span > 0
    ensures r > 0.0
  {
    var expected := a.windowSize * a.targetBlockTimeSec;
    var ratio := expected as real / span as real;
    RMax(MinRatio(a), RMin(a.maxFactor, ratio))
  }

  /** A difficulty times a ratio, rounded. */
  function RoundedTimes(d: nat, ratio: real): nat
    requires ratio >= 0.0
  {
    Round(d as real * ratio)
  }

  /** The difficulty multiplied by a ratio, rounded and kept in range. */
  function Scaled(a: Adjuster, current: nat, ratio: real): nat
    requires ratio >= 0.0
  {
    Max(a.minDifficulty, Min(a.maxDifficulty, RoundedTimes(current, ratio)))
  }

  /** The retargeted difficulty after a window that took a positive number of seconds. */
  function Retargeted(a: Adjuster, current: nat, span: int): nat
    requires span > 0
  {
    Scaled(a, current, ClampedRatio(a, span))
  }

  function NextDifficulty(a: Adjuster, chain: seq<Block>, current: nat): nat {
    if |chain| < a.windowSize + 1 || !ShouldRetarget(a, |chain|) then current
    else
      var span := TimeOf(chain[|chain| - 1]) - TimeOf(chain[|chain| - 1 - a.windowSize]);
      if span <= 0 then current else Retargeted(a, current, span)
  }

  // ----- what a retarget can do -----

  predicate InRange(a: Adjuster, d: nat) {
    a.minDifficulty <= d <= a.maxDifficulty
  }

  /** The difficulty stays in range, and it moves only at the boundary of a window. */
  lemma NextStaysInRange(a: Adjuster, chain: seq<Block>, current: nat)
    requires InRange(a, current)
    ensures InRange(a, NextDifficulty(a, chain, current))
    ensures NextDifficulty(a, chain, current) != current ==>
              |chain| > a.windowSize && (|chain| - 1) % a.windowSize == 0
  {
  }

  lemma RoundMonotone(x: real, y: real)
    requires 0.0 <= x <= y
    ensures Round(x) <= Round(y)
  {
  }

  lemma ProductMonotone(n: nat, x: real, y: real)
    requires 0.0 <= x <= y
    ensures 0.0 <= n as real * x <= n as real * y
  {
  }

  lemma ProductLess(x: real, y: real, z: real)
    requires z > 0.0
    ensures x < y <==> x * z < y * z
  {
  }

  lemma RatioAntitone(a: Adjuster, span: int, longer: int)
    requires 0 < span <= longer
    ensures ClampedRatio(a, longer) <= ClampedRatio(a, span)
  {
    var e, x, y := (a.windowSize * a.targetBlockTimeSec) as real, span as real, longer as real;
    var p, q := e / x, e / y;
    assert p * x == e && q * y == e;
    assert p * x <= p * y;
    ProductLess(p, q, y);
  }

  lemma ScaledMonotone(a: Adjuster, current: nat, x: real, y: real)
    requires 0.0 <= x <= y
    ensures Scaled(a, current, x) <= Scaled(a, current, y)
    ensures RoundedTimes(current, x) <= RoundedTimes(current, y)
  {
    ProductMonotone(current, x, y);
    RoundMonotone(current as real * x, current as real * y);
  }

  /** A longer window never gives a higher difficulty. */
  lemma SlowerIsNotHarder(a: Adjuster, current: nat, span: int, longer: int)
    requires 0 < span <= longer
    ensures Retargeted(a, current, longer) <= Retargeted(a, current, span)
  {
    RatioAntitone(a, span, longer);
    ScaledMonotone(a, current, ClampedRatio(a, longer), ClampedRatio(a, span));
  }

  lemma RatioBounds(a: Adjuster, span: int)
    requires span > 0 && a.maxFactor >= 1.0
    ensures MinRatio(a) <= 1.0
    ensures MinRatio(a) <= ClampedRatio(a, span) <= a.maxFactor
  {
    ProductLess(1.0, MinRatio(a), a.maxFactor);
  }

  lemma ScaledBounds(a: Adjuster, current: nat, low: real, r: real, high: real)
    requires 0.0 <= low <= 1.0 <= high && low <= r <= high && InRange(a, current)
    ensures RoundedTimes(current, low) <= Scaled(a, current, r) <= RoundedTimes(current, high)
  {
    ScaledMonotone(a, current, low, r);
    ScaledMonotone(a, current, r, high);
    ScaledMonotone(a, current, low, 1.0);
    ScaledMonotone(a, current, 1.0, high);
    assert RoundedTimes(current, 1.0) == current;
  }

  /** One retarget divides or multiplies by at most the adjustment factor, rounded. */
  lemma BoundedMove(a: Adjuster, current: nat, span: int)
    requires span > 0 && a.maxFactor >= 1.0 && InRange(a, current)
    ensures RoundedTimes(current, MinRatio(a)) <= Retargeted(a, current, span)
    ensures Retargeted(a, current, span) <= RoundedTimes(current, a.maxFactor)
  {
    RatioBounds(a, span);
    ScaledBounds(a, current, MinRatio(a), ClampedRatio(a, span), a.maxFactor);
  }

  /** A window that takes exactly as long as expected changes nothing. */
  lemma OnTargetKeeps(a: Adjuster, current: nat)
    requires a.maxFactor >= 1.0 && InRange(a, current) && a.targetBlockTimeSec > 0
    ensures a.windowSize * a.targetBlockTimeSec > 0
    ensures Retargeted(a, current, a.windowSize * a.targetBlockTimeSec) == current
  {
    var expected := a.windowSize * a.targetBlockTimeSec;
    assert expected > 0;
    assert expected as real / expected as real == 1.0;
    RatioBounds(a, expected);
    assert ClampedRatio(a, expected) == 1.0;
  }

  // ----- sustained slow windows -----

  /** A window that is too slow by at least the adjustment factor. */
  predicate TooSlow(a: Adjuster, span: int) {
    span > 0 && span as real >= a.maxFactor * (a.windowSize * a.targetBlockTimeSec) as real
  }

  lemma TooSlowRatio(a: Adjuster, span: int)
    requires TooSlow(a, span)
    ensures ClampedRatio(a, span) == MinRatio(a)
  {
    var e, s, f := (a.windowSize * a.targetBlockTimeSec) as real, span as real, a.maxFactor;
    var ratio, low := e / s, MinRatio(a);
    if f >= 1.0 {
      assert ratio * s == e;
      assert low * s >= low * (f * e);
      assert low * (f * e) == (low * f) * e;
      assert low * f == 1.0;
      ProductLess(low, ratio, s);
      assert RMin(f, ratio) <= low;
    } else {
      ProductLess(f, 1.0, f);
      ProductLess(low, f, f);
    }
  }

  lemma RoundsBelow(d: nat, x: real)
    requires x >= 0.0
    ensures Round(x) < d <==> x < d as real - 0.5
  {
  }

  /** The difficulty is above what dividing it by the factor can round back to. */
  predicate DividesDown(a: Adjuster, d: nat) {
    d as real < a.maxFactor * (d as real - 0.5)
  }

  lemma TimesReciprocal(x: real, low: real, f: real)
    requires low * f == 1.0
    ensures x * low * f == x
  {
    assert x * low * f == x * (low * f);
  }

  lemma DividedRoundsBelow(a: Adjuster, d: nat)
    ensures RoundedTimes(d, MinRatio(a)) < d <==> DividesDown(a, d)
  {
    var low, x := MinRatio(a), d as real * MinRatio(a);
    ProductMonotone(d, 0.0, low);
    RoundsBelow(d, x);
    TimesReciprocal(d as real, low, a.maxFactor);
    ProductLess(x, d as real - 0.5, a.maxFactor);
  }

  /** Above the minimum a window that slow lowers the difficulty exactly when the difficulty exceeds
      what it could round back to. */
  lemma TooSlowLowers(a: Adjuster, d: nat, span: int)
    requires TooSlow(a, span) && InRange(a, d) && d > a.minDifficulty
    ensures Retargeted(a, d, span) < d <==> DividesDown(a, d)
  {
    TooSlowRatio(a, span);
    DividedRoundsBelow(a, d);
  }

  /** The settings under which every difficulty above the minimum falls. */
  predicate AlwaysFalls(a: Adjuster) {
    DividesDown(a, a.minDifficulty + 1)
  }

  lemma DividesDownUpwards(a: Adjuster, d: nat, higher: nat)
    requires d > 0 && DividesDown(a, d) && d <= higher
    ensures a.maxFactor > 1.0 && DividesDown(a, higher)
  {
    var f, x, y := a.maxFactor, d as real - 0.5, (higher - d) as real;
    ProductLess(f, 1.0, x);
    assert f * x > x;
    ProductLess(1.0, f, x);
    assert f * (x + y) == f * x + f * y;
    assert y <= f * y;
  }

  lemma SomeSpanIsTooSlow(a: Adjuster) returns (span: int)
    ensures TooSlow(a, span)
  {
    var x := a.maxFactor * (a.windowSize * a.targetBlockTimeSec) as real;
    assert x >= 0.0;
    span := x.Floor + 1;
  }

  /** Slow windows bring every difficulty down exactly under these settings: what the difficulty just
      above the minimum does decides for all of them. */
  lemma FallsExactlyWhen(a: Adjuster)
    requires a.minDifficulty < a.maxDifficulty
    ensures AlwaysFalls(a) <==>
              forall d: nat, span: int | TooSlow(a, span) && InRange(a, d) && d > a.minDifficulty ::
                Retargeted(a, d, span) < d
  {
    if AlwaysFalls(a) {
      forall d: nat, span: int | TooSlow(a, span) && InRange(a, d) && d > a.minDifficulty
        ensures Retargeted(a, d, span) < d
      {
        DividesDownUpwards(a, a.minDifficulty + 1, d);
        TooSlowLowers(a, d, span);
      }
    } else {
      var span := SomeSpanIsTooSlow(a);
      TooSlowLowers(a, a.minDifficulty + 1, span);
    }
  }

  /** A minimum of 1, with a factor of 4 or of 2, is such a setting; a minimum of 0 with a factor of
      2, or of 1 with a factor of 1.25, is not. */
  lemma SettingsThatFall(a: Adjuster)
    ensures a.minDifficulty == 1 && a.maxFactor >= 2.0 ==> AlwaysFalls(a)
    ensures a.maxFactor > 2.0 ==> AlwaysFalls(a)
    ensures a.minDifficulty == 0 && a.maxFactor == 2.0 ==> !AlwaysFalls(a)
    ensures a.minDifficulty == 1 && a.maxFactor == 1.25 ==> !AlwaysFalls(a)
  {
    var f, x := a.maxFactor, a.minDifficulty as real + 0.5;
    if f > 2.0 {
      ProductLess(2.0, f, x);
      assert 2.0 * x < f * x;
    }
  }

  /** With a factor of 2 the fall can stop short: 1 rounds back to 1 above a minimum of 0. */
  lemma FactorTwoSticks(span: int)
    requires span >= 200
    ensures var a: Adjuster := AdjusterSettings(10, 10, 2.0, 0, 8);
            TooSlow(a, span) && Retargeted(a, 1, span) == 1
  {
    var a: Adjuster := AdjusterSettings(10, 10, 2.0, 0, 8);
    TooSlowRatio(a, span);
  }

  lemma MinimumStays(a: Adjuster, span: int)
    requires TooSlow(a, span) && AlwaysFalls(a) && a.minDifficulty <= a.maxDifficulty
    ensures Retargeted(a, a.minDifficulty, span) == a.minDifficulty
  {
    DividesDownUpwards(a, a.minDifficulty + 1, a.minDifficulty + 1);
    TooSlowRatio(a, span);
    ProductLess(1.0, a.maxFactor, MinRatio(a));
    ScaledMonotone(a, a.minDifficulty, MinRatio(a), 1.0);
    assert RoundedTimes(a.minDifficulty, 1.0) == a.minDifficulty;
  }

  /** One such window brings the difficulty down by at least one, or keeps it at the minimum. */
  lemma SlowWindowLowers(a: Adjuster, d: nat, span: int)
    requires TooSlow(a, span) && AlwaysFalls(a) && InRange(a, d)
    ensures a.minDifficulty <= Retargeted(a, d, span) <= Max(a.minDifficulty, d - 1)
  {
    if d == a.minDifficulty {
      MinimumStays(a, span);
    } else {
      DividesDownUpwards(a, a.minDifficulty + 1, d);
      TooSlowLowers(a, d, span);
    }
  }

  // ----- what a retarget computes -----

  /** n is the nearest integer to the difficulty times a number, the upper one where two are equally
      near. */
  predicate Nearest(n: int, d: nat, multiplier: real) {
    n as real - 0.5 <= d as real * multiplier < n as real + 0.5
  }

  /** Seconds a window should take. */
  function Expected(a: Adjuster): nat {
    a.windowSize * a.targetBlockTimeSec
  }

  /** A window is faster than expected by at least the factor. */
  predicate TooFast(a: Adjuster, span: int) {
    span > 0 && Expected(a) as real >= a.maxFactor * span as real
  }

  /** The result is the difficulty times a number, rounded to the nearest integer and kept in range. */
  ghost predicate RoundedInRange(a: Adjuster, result: int, d: nat, multiplier: real) {
    exists n: int :: Nearest(n, d, multiplier) && result == Max(a.minDifficulty, Min(a.maxDifficulty, n))
  }

  lemma ScaledIsRounded(a: Adjuster, d: nat, ratio: real)
    requires ratio >= 0.0
    ensures RoundedInRange(a, Scaled(a, d, ratio), d, ratio)
  {
    var n := RoundedTimes(d, ratio);
    ProductMonotone(d, 0.0, ratio);
    assert Nearest(n, d, ratio);
  }

  /** What a retarget multiplies by, with a factor of at least 1: the factor after a window too fast by
      it, one over the factor after one too slow by it, and otherwise expected over actual time. */
  function Multiplier(a: Adjuster, span: int): real
    requires span > 0
  {
    if TooFast(a, span) then a.maxFactor
    else if TooSlow(a, span) then 1.0 / a.maxFactor
    else Expected(a) as real / span as real
  }

  lemma QuotientAgainst(e: real, s: real, x: real)
    requires s > 0.0
    ensures e / s >= x <==> e >= x * s
    ensures e / s <= x <==> e <= x * s
  {
    var q := e / s;
    assert q * s == e;
    ProductLess(q, x, s);
    ProductLess(x, q, s);
  }

  lemma TooSlowAgainst(a: Adjuster, span: int)
    requires span > 0
    ensures TooSlow(a, span) <==> Expected(a) as real <= MinRatio(a) * span as real
  {
    var e, s, f, low := Expected(a) as real, span as real, a.maxFactor, MinRatio(a);
    TimesReciprocal(s, low, f);
    ProductLess(low * s, e, f);
    assert s * low * f == low * s * f;
    assert e * f == f * e;
  }

  lemma RatioIsMultiplier(a: Adjuster, span: int)
    requires span > 0 && a.maxFactor >= 1.0
    ensures ClampedRatio(a, span) == Multiplier(a, span)
  {
    var e, s, f := Expected(a) as real, span as real, a.maxFactor;
    QuotientAgainst(e, s, f);
    QuotientAgainst(e, s, MinRatio(a));
    TooSlowAgainst(a, span);
    RatioBounds(a, span);
  }

  /** What a retarget computes for every window of a positive length. */
  lemma RetargetComputes(a: Adjuster, d: nat, span: int)
    requires span > 0 && a.maxFactor >= 1.0
    ensures RoundedInRange(a, Retargeted(a, d, span), d, Multiplier(a, span))
  {
    hide RoundedInRange, Scaled, Multiplier;
    RatioIsMultiplier(a, span);
    ScaledIsRounded(a, d, ClampedRatio(a, span));
  }

  /** With a factor below 1 the lower bound exceeds the upper one, and every window divides by it. */
  lemma RetargetBelowOne(a: Adjuster, d: nat, span: int)
    requires span > 0 && a.maxFactor < 1.0
    ensures RoundedInRange(a, Retargeted(a, d, span), d, 1.0 / a.maxFactor)
  {
    hide RoundedInRange, Scaled;
    BelowOneDivides(a, span);
    ScaledIsRounded(a, d, ClampedRatio(a, span));
  }

  lemma BelowOneDivides(a: Adjuster, span: int)
    requires span > 0 && a.maxFactor < 1.0
    ensures ClampedRatio(a, span) == MinRatio(a)
  {
    ProductLess(a.maxFactor, 1.0, a.maxFactor);
    ProductLess(MinRatio(a), a.maxFactor, a.maxFactor);
  }

  // ----- fast windows -----

  lemma AboveExactlyWhen(a: Adjuster, result: int, d: nat, multiplier: real)
    requires RoundedInRange(a, result, d, multiplier) && InRange(a, d) && d < a.maxDifficulty
    ensures result > d <==> Reaches(d, multiplier)
  {
    var n: int :| Nearest(n, d, multiplier) && result == Max(a.minDifficulty, Min(a.maxDifficulty, n));
    assert n > d <==> Reaches(d, multiplier);
  }

  /** Multiplying the difficulty brings it up by at least half a step. */
  predicate Reaches(d: nat, multiplier: real) {
    d as real * multiplier >= d as real + 0.5
  }

  lemma ReachesMore(d: nat, x: real, y: real)
    requires 0.0 <= x <= y && Reaches(d, x)
    ensures Reaches(d, y)
  {
    ProductMonotone(d, x, y);
  }

  lemma ReachesAboveOne(d: nat, x: real)
    requires 0.0 <= x && Reaches(d, x)
    ensures x > 1.0
  {
    if x <= 1.0 {
      ProductMonotone(d, x, 1.0);
    }
  }

  lemma MultiplierReaches(a: Adjuster, span: int, d: nat)
    requires span > 0 && a.maxFactor >= 1.0
    ensures Reaches(d, Multiplier(a, span)) <==>
              Reaches(d, a.maxFactor) && Reaches(d, Expected(a) as real / span as real)
  {
    hide Reaches;
    var f, ratio, low, m := a.maxFactor, Expected(a) as real / span as real, MinRatio(a), Multiplier(a, span);
    MultiplierPlace(a, span);
    if m == f && f <= ratio {
      if Reaches(d, f) {
        ReachesMore(d, f, ratio);
      }
    } else if m == ratio && ratio <= f {
      if Reaches(d, ratio) {
        ReachesMore(d, ratio, f);
      }
    } else {
      if Reaches(d, ratio) {
        ReachesAboveOne(d, ratio);
      }
      if Reaches(d, low) {
        ReachesAboveOne(d, low);
      }
    }
  }

  lemma MultiplierPlace(a: Adjuster, span: int)
    requires span > 0 && a.maxFactor >= 1.0
    ensures var f, ratio, low := a.maxFactor, Expected(a) as real / span as real, MinRatio(a);
      && 0.0 <= ratio && 0.0 < low <= 1.0
      && (|| (Multiplier(a, span) == f && f <= ratio)
          || (Multiplier(a, span) == ratio && ratio <= f)
          || (Multiplier(a, span) == low && ratio <= low))
  {
    QuotientAgainst(Expected(a) as real, span as real, a.maxFactor);
    QuotientAgainst(Expected(a) as real, span as real, 0.0);
    QuotientAgainst(Expected(a) as real, span as real, MinRatio(a));
    TooSlowAgainst(a, span);
    RatioBounds(a, span);
  }

  /** A window raises a difficulty below the maximum exactly when half a step more is reached both by the
      factor and by expected over actual time. */
  lemma RaisesExactlyWhen(a: Adjuster, d: nat, span: int)
    requires span > 0 && a.maxFactor >= 1.0 && InRange(a, d) && d < a.maxDifficulty
    ensures Retargeted(a, d, span) > d <==>
              Reaches(d, a.maxFactor) && Reaches(d, Expected(a) as real / span as real)
  {
    hide RoundedInRange, Retargeted, Multiplier, Reaches;
    RetargetComputes(a, d, span);
    AboveExactlyWhen(a, Retargeted(a, d, span), d, Multiplier(a, span));
    MultiplierReaches(a, span, d);
  }

  /** A window too fast by the factor raises a difficulty below the maximum exactly when the factor
      carries it half a step up. */
  lemma TooFastRaises(a: Adjuster, d: nat, span: int)
    requires TooFast(a, span) && a.maxFactor >= 1.0 && InRange(a, d) && d < a.maxDifficulty
    ensures Retargeted(a, d, span) > d <==> Reaches(d, a.maxFactor)
  {
    hide RoundedInRange, Retargeted;
    RetargetComputes(a, d, span);
    AboveExactlyWhen(a, Retargeted(a, d, span), d, a.maxFactor);
  }

  /** The settings under which every difficulty below the maximum rises. */
  predicate AlwaysRises(a: Adjuster) {
    a.maxFactor >= 1.0 && Reaches(a.minDifficulty, a.maxFactor)
  }

  lemma ReachesUpwards(a: Adjuster, d: nat, higher: nat)
    requires a.maxFactor >= 1.0 && Reaches(d, a.maxFactor) && d <= higher
    ensures Reaches(higher, a.maxFactor)
  {
    var f, x, y := a.maxFactor, d as real, (higher - d) as real;
    assert (x + y) * f == x * f + y * f;
    ProductMonotone(higher - d, 1.0, f);
  }

  /** Windows too fast by the factor raise every difficulty exactly under these settings, if a window can
      be that fast at all. */
  lemma RisesExactlyWhen(a: Adjuster)
    requires a.minDifficulty < a.maxDifficulty && a.maxFactor >= 1.0 && TooFast(a, 1)
    ensures AlwaysRises(a) <==>
              forall d: nat, span: int | TooFast(a, span) && InRange(a, d) && d < a.maxDifficulty ::
                Retargeted(a, d, span) > d
  {
    if AlwaysRises(a) {
      forall d: nat, span: int | TooFast(a, span) && InRange(a, d) && d < a.maxDifficulty
        ensures Retargeted(a, d, span) > d
      {
        ReachesUpwards(a, a.minDifficulty, d);
        TooFastRaises(a, d, span);
      }
    } else {
      TooFastRaises(a, a.minDifficulty, 1);
    }
  }

  /** One such window brings the difficulty up by at least one, or keeps it at the maximum. */
  lemma FastWindowRaises(a: Adjuster, d: nat, span: int)
    requires TooFast(a, span) && AlwaysRises(a) && InRange(a, d)
    ensures Min(a.maxDifficulty, d + 1) <= Retargeted(a, d, span) <= a.maxDifficulty
  {
    if d < a.maxDifficulty {
      ReachesUpwards(a, a.minDifficulty, d);
      TooFastRaises(a, d, span);
    } else {
      MaximumStays(a, span);
    }
  }

  lemma MaximumStays(a: Adjuster, span: int)
    requires TooFast(a, span) && a.maxFactor >= 1.0 && a.minDifficulty <= a.maxDifficulty
    ensures Retargeted(a, a.maxDifficulty, span) == a.maxDifficulty
  {
    hide RoundedInRange, Retargeted;
    RetargetComputes(a, a.maxDifficulty, span);
    AtTheTop(a, Retargeted(a, a.maxDifficulty, span), a.maxFactor);
  }

  lemma AtTheTop(a: Adjuster, result: int, multiplier: real)
    requires RoundedInRange(a, result, a.maxDifficulty, multiplier)
    requires multiplier >= 1.0 && a.minDifficulty <= a.maxDifficulty
    ensures result == a.maxDifficulty
  {
    hide Nearest;
    var d := a.maxDifficulty;
    var n: int :| Nearest(n, d, multiplier) && result == Max(a.minDifficulty, Min(a.maxDifficulty, n));
    NearestAtLeast(n, d, multiplier);
  }

  lemma NearestAtLeast(n: int, d: nat, multiplier: real)
    requires Nearest(n, d, multiplier) && multiplier >= 1.0
    ensures n >= d
  {
    ProductMonotone(d, 1.0, multiplier);
  }

  /** Mining looks at the last window when the chain has a whole number of windows above genesis and the
      window took a positive time; otherwise the difficulty stays. */
  lemma NextDifficultyIs(a: Adjuster, chain: seq<Block>, current: nat)
    ensures NextDifficulty(a, chain, current)
         == if |chain| > a.windowSize && (|chain| - 1) % a.windowSize == 0
               && TimeOf(chain[|chain| - 1]) > TimeOf(chain[|chain| - 1 - a.windowSize])
            then Retargeted(a, current, TimeOf(chain[|chain| - 1]) - TimeOf(chain[|chain| - 1 - a.windowSize]))
            else current
  {
  }
}
