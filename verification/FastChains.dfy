/** Sustained speed over runs of the node: what a chain of fast windows does to the difficulty. */
module FastChains {
  import opened Primitives
  import opened Transactions
  import opened Blocks
  import opened Difficulty
  import opened ChainValidity
  import opened Machine
  import opened LocalRuns
  import opened SlowChains

  /** Every window that ended at a boundary, from this length on, was too fast. */
  predicate FastWindows(a: Adjuster, chain: seq<Block>, from: nat) {
    forall n: nat | from <= n < |chain| && IsBoundary(a, n) :: TooFast(a, Span(a, chain, n))
  }

  lemma MinedDifficultyRises(s: NodeState, a: Adjuster)
    requires s.engine == PoW(a) && InRange(a, s.difficulty) && AlwaysRises(a)
    requires IsBoundary(a, |s.chain|) ==> TooFast(a, Span(a, s.chain, |s.chain|))
    ensures MiningDifficulty(s) <= a.maxDifficulty
    ensures MiningDifficulty(s)
         >= if IsBoundary(a, |s.chain|) then Min(a.maxDifficulty, s.difficulty + 1) else s.difficulty
  {
    hide TooFast, Retargeted, AlwaysRises, TimeOf;
    if IsBoundary(a, |s.chain|) {
      var span := Span(a, s.chain, |s.chain|);
      TooFastIsPositive(a, span);
      FastWindowRaises(a, s.difficulty, span);
    }
  }

  lemma TooFastIsPositive(a: Adjuster, span: int)
    requires TooFast(a, span)
    ensures span > 0
  {
  }

  lemma FirstWindowIsFast(s: NodeState, a: Adjuster, longer: seq<Block>)
    requires |s.chain| < |longer| && longer[..|s.chain|] == s.chain && FastWindows(a, longer, |s.chain|)
    ensures IsBoundary(a, |s.chain|) ==> TooFast(a, Span(a, s.chain, |s.chain|))
  {
    hide TooFast, Span;
    if IsBoundary(a, |s.chain|) {
      SameSpan(a, s.chain, longer);
    }
  }

  /** Over a local run whose windows are all too fast, the difficulty rises by at least one at every
      boundary or reaches the maximum, where it stays, given settings under which fast windows raise
      every difficulty. */
  lemma {:induction false} SustainedSpeed(s: NodeState, a: Adjuster, steps: seq<Step>)
    requires s.engine == PoW(a) && InRange(a, s.difficulty) && AlwaysRises(a)
    requires IsRun(s, steps) && IsLocal(steps) && FastWindows(a, Final(s, steps).chain, |s.chain|)
    ensures var t := Final(s, steps);
            Min(a.maxDifficulty, s.difficulty + (Boundaries(a, |t.chain|) - Boundaries(a, |s.chain|)))
            <= t.difficulty <= a.maxDifficulty
    decreases |steps|
  {
    hide Next, Enabled, MiningDifficulty, IsBoundary, TooFast, AlwaysRises, Boundaries, Span;
    if steps != [] {
      var next, t := Next(s, steps[0]), Final(s, steps);
      EnabledFirst(s, steps);
      LocalStepExtends(s, steps[0]);
      LocalRunExtends(s, steps);
      LocalRunExtends(next, steps[1..]);
      if steps[0].Mine? {
        FirstWindowIsFast(s, a, t.chain);
        MinedDifficultyRises(s, a);
        OneBoundaryMore(a, |s.chain|);
        MiningDifficultyInRange(s, a);
      }
      BoundariesGrow(a, |next.chain|, |t.chain|);
      SustainedSpeed(next, a, steps[1..]);
    }
  }

  /** Enough of them reach the maximum: one window for each step below it, and one block. */
  lemma ReachesMaximum(s: NodeState, a: Adjuster, steps: seq<Step>)
    requires s.chain != [] && s.engine == PoW(a) && InRange(a, s.difficulty) && AlwaysRises(a)
    requires IsRun(s, steps) && IsLocal(steps) && FastWindows(a, Final(s, steps).chain, |s.chain|)
    requires MineCount(steps) > (a.maxDifficulty - s.difficulty) * a.windowSize
    ensures Final(s, steps).difficulty == a.maxDifficulty
  {
    hide Boundaries, FastWindows, AlwaysRises, IsRun, IsLocal, Final;
    var k := a.maxDifficulty - s.difficulty;
    SustainedSpeed(s, a, steps);
    LocalRunExtends(s, steps);
    ManyBoundaries(a, |s.chain|, MineCount(steps), k);
  }
}
