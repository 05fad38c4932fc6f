/** Sustained slowness over runs of the node: what a chain of slow windows does to the difficulty. */
module SlowChains {
  import opened Primitives
  import opened Transactions
  import opened Blocks
  import opened Difficulty
  import opened ChainValidity
  import opened Machine
  import opened LedgerSpec
  import opened LocalRuns

  /** Mining on a chain of this length retargets. */
  predicate IsBoundary(a: Adjuster, length: nat) {
    length > a.windowSize && ShouldRetarget(a, length)
  }

  /** The seconds that the last window of the first blocks took. */
  function Span(a: Adjuster, chain: seq<Block>, length: nat): int
    requires a.windowSize < length <= |chain|
  {
    TimeOf(chain[length - 1]) - TimeOf(chain[length - 1 - a.windowSize])
  }

  /** Every window that ended at a boundary, from this length on, took too long. */
  predicate SlowWindows(a: Adjuster, chain: seq<Block>, from: nat) {
    forall n: nat | from <= n < |chain| && IsBoundary(a, n) :: TooSlow(a, Span(a, chain, n))
  }

  /** How many boundaries a chain of this length has behind it. */
  function Boundaries(a: Adjuster, length: nat): nat {
    if length < 2 then 0 else (length - 2) / a.windowSize
  }

  lemma Multiple(k: int, w: nat)
    ensures k >= 1 ==> k * w >= w
    ensures k <= -1 ==> k * w + w <= 0
  {
    if k >= 1 {
      assert (k - 1) * w >= 0;
    } else if k <= -1 {
      assert (-k - 1) * w >= 0;
    }
  }

  lemma Quotient(x: nat, w: nat, q: nat, r: nat)
    requires x == q * w + r && r < w
    ensures x / w == q
  {
    var k := x / w - q;
    assert x == (x / w) * w + x % w;
    assert k * w == (x / w) * w - q * w;
    Multiple(k, w);
  }

  lemma OneBoundaryMore(a: Adjuster, length: nat)
    ensures Boundaries(a, length + 1) == Boundaries(a, length) + if IsBoundary(a, length) then 1 else 0
  {
    if length >= 2 {
      var w := a.windowSize;
      var q, r := (length - 1) / w, (length - 1) % w;
      assert length - 1 == q * w + r;
      if r == 0 {
        assert length - 1 == (q - 1) * w + w;
        assert q >= 1 by {
          assert q == 0 ==> q * w == 0;
        }
        assert (q - 1) * w >= 0;
        Quotient(length - 2, w, q - 1, w - 1);
      } else {
        Quotient(length - 2, w, q, r - 1);
      }
    }
  }

  lemma {:induction false} BoundariesGrow(a: Adjuster, length: nat, longer: nat)
    requires length <= longer
    ensures Boundaries(a, length) <= Boundaries(a, longer)
    decreases longer
  {
    hide Boundaries, IsBoundary;
    if length < longer {
      BoundariesGrow(a, length, longer - 1);
      OneBoundaryMore(a, longer - 1);
    }
  }

  lemma MinedDifficulty(s: NodeState, a: Adjuster)
    requires s.engine == PoW(a) && InRange(a, s.difficulty) && AlwaysFalls(a)
    requires IsBoundary(a, |s.chain|) ==> TooSlow(a, Span(a, s.chain, |s.chain|))
    ensures a.minDifficulty <= MiningDifficulty(s)
    ensures MiningDifficulty(s)
         <= if IsBoundary(a, |s.chain|) then Max(a.minDifficulty, s.difficulty - 1) else s.difficulty
  {
    hide TooSlow, Retargeted, AlwaysFalls, TimeOf;
    if IsBoundary(a, |s.chain|) {
      var span := Span(a, s.chain, |s.chain|);
      TooSlowIsPositive(a, span);
      SlowWindowLowers(a, s.difficulty, span);
    }
  }

  lemma TooSlowIsPositive(a: Adjuster, span: int)
    requires TooSlow(a, span)
    ensures span > 0
  {
  }

  lemma LocalStepExtends(s: NodeState, step: Step)
    requires Enabled(s, step) && (step.Add? || step.Mine?)
    ensures var t := Next(s, step);
      && t.engine == s.engine
      && |t.chain| == |s.chain| + (if step.Mine? then 1 else 0) && t.chain[..|s.chain|] == s.chain
      && t.difficulty == if step.Mine? then MiningDifficulty(s) else s.difficulty
  {
    hide Sealed, Template, ApplyTxs, Admissible, MiningDifficulty;
  }

  lemma {:induction false} LocalRunExtends(s: NodeState, steps: seq<Step>)
    requires IsRun(s, steps) && IsLocal(steps)
    ensures var t := Final(s, steps);
      && t.engine == s.engine
      && |t.chain| == |s.chain| + MineCount(steps) && t.chain[..|s.chain|] == s.chain
    decreases |steps|
  {
    hide Next, Enabled;
    if steps != [] {
      var next := Next(s, steps[0]);
      EnabledFirst(s, steps);
      LocalStepExtends(s, steps[0]);
      LocalRunExtends(next, steps[1..]);
      assert Final(s, steps).chain[..|next.chain|][..|s.chain|] == Final(s, steps).chain[..|s.chain|];
    }
  }

  lemma EnabledFirst(s: NodeState, steps: seq<Step>)
    requires IsRun(s, steps) && steps != []
    ensures Enabled(s, steps[0]) && IsRun(Next(s, steps[0]), steps[1..])
  {
  }

  lemma SameSpan(a: Adjuster, chain: seq<Block>, longer: seq<Block>)
    requires |chain| <= |longer| && longer[..|chain|] == chain && a.windowSize < |chain|
    ensures Span(a, chain, |chain|) == Span(a, longer, |chain|)
  {
    assert forall i | 0 <= i < |chain| :: chain[i] == longer[..|chain|][i] == longer[i];
  }

  /** Over a local run whose windows all take too long, the difficulty falls by at least one at every
      boundary or reaches the minimum, where it stays, given settings under which slow windows bring
      every difficulty down. */
  lemma {:induction false} SustainedSlowness(s: NodeState, a: Adjuster, steps: seq<Step>)
    requires s.engine == PoW(a) && InRange(a, s.difficulty) && AlwaysFalls(a)
    requires IsRun(s, steps) && IsLocal(steps) && SlowWindows(a, Final(s, steps).chain, |s.chain|)
    ensures var t := Final(s, steps);
            a.minDifficulty <= t.difficulty
            <= Max(a.minDifficulty, s.difficulty - (Boundaries(a, |t.chain|) - Boundaries(a, |s.chain|)))
    decreases |steps|
  {
    hide Next, Enabled, MiningDifficulty, IsBoundary, TooSlow, AlwaysFalls, Boundaries, Span;
    if steps != [] {
      var next, t := Next(s, steps[0]), Final(s, steps);
      EnabledFirst(s, steps);
      LocalStepExtends(s, steps[0]);
      LocalRunExtends(s, steps);
      LocalRunExtends(next, steps[1..]);
      if steps[0].Mine? {
        FirstWindowIsSlow(s, a, t.chain);
        MinedDifficulty(s, a);
        OneBoundaryMore(a, |s.chain|);
        MiningDifficultyInRange(s, a);
      }
      BoundariesGrow(a, |next.chain|, |t.chain|);
      SustainedSlowness(next, a, steps[1..]);
    }
  }

  lemma FirstWindowIsSlow(s: NodeState, a: Adjuster, longer: seq<Block>)
    requires |s.chain| < |longer| && longer[..|s.chain|] == s.chain && SlowWindows(a, longer, |s.chain|)
    ensures IsBoundary(a, |s.chain|) ==> TooSlow(a, Span(a, s.chain, |s.chain|))
  {
    hide TooSlow, Span;
    if IsBoundary(a, |s.chain|) {
      SameSpan(a, s.chain, longer);
    }
  }

  lemma MiningDifficultyInRange(s: NodeState, a: Adjuster)
    requires s.engine == PoW(a) && InRange(a, s.difficulty)
    ensures InRange(a, MiningDifficulty(s))
  {
    NextStaysInRange(a, s.chain, s.difficulty);
  }

  lemma ManyBoundaries(a: Adjuster, length: nat, mined: nat, k: nat)
    requires length > 0 && mined > k * a.windowSize
    ensures Boundaries(a, length + mined) - Boundaries(a, length) >= k
  {
    Multiple(k, a.windowSize);
    var before, after: nat := if length < 2 then 0 else length - 2, length + mined - 2;
    QuotientsApart(before, after, a.windowSize, k);
  }

  lemma QuotientsApart(x: nat, y: nat, w: nat, k: nat)
    requires w > 0 && y - x >= k * w
    ensures y / w - x / w >= k
  {
    var d := x / w + k - y / w;
    assert x == (x / w) * w + x % w && y == (y / w) * w + y % w;
    assert d * w == (x / w) * w + k * w - (y / w) * w;
    Multiple(d, w);
  }

  /** Enough of them reach the minimum: one window for each step above it, and one block. */
  lemma ReachesMinimum(s: NodeState, a: Adjuster, steps: seq<Step>)
    requires s.chain != [] && s.engine == PoW(a) && InRange(a, s.difficulty) && AlwaysFalls(a)
    requires IsRun(s, steps) && IsLocal(steps) && SlowWindows(a, Final(s, steps).chain, |s.chain|)
    requires MineCount(steps) > (s.difficulty - a.minDifficulty) * a.windowSize
    ensures Final(s, steps).difficulty == a.minDifficulty
  {
    hide Boundaries, SlowWindows, AlwaysFalls, IsRun, IsLocal, Final;
    var k := s.difficulty - a.minDifficulty;
    SustainedSlowness(s, a, steps);
    LocalRunExtends(s, steps);
    ManyBoundaries(a, |s.chain|, MineCount(steps), k);
  }
}
