/** Runs under the proof-of-work engine: every chain a node builds passes the engine's own rules, and
    how the difficulty moves. */
module EngineRuns {
  import opened Primitives
  import opened Transactions
  import opened Blocks
  import opened Difficulty
  import opened ChainValidity
  import opened Machine

  /** The timestamps a mined block needs: its own text reads as the clock, and the clock is not
      behind the tip. */
  predicate ClockFits(s: NodeState, clock: Clock)
    requires s.chain != []
  {
    ISO_PARSER(clock.iso) == Some(clock.epoch) && TimeOf(s.chain[|s.chain| - 1]) <= clock.epoch
  }

  predicate DifficultyFits(s: NodeState) {
    match s.engine
    case NoEngine => true
    case PoW(a) => 1 <= a.minDifficulty <= a.maxDifficulty <= 64 && 1 <= s.difficulty <= 64
  }

  /** A mined block passes the engine exactly when its difficulty is from 1 to 64 and its time lies
      between the tip's and two minutes from now. */
  lemma MinedBlockUnderEngine(s: NodeState, miner: string, clock: Clock, nonce: u64)
    requires Sound(s) && s.engine.PoW? && Solves(Template(s, miner, clock), nonce)
    ensures var b := Sealed(Template(s, miner, clock), nonce);
            var tip := s.chain[|s.chain| - 1];
            EngineAccepts(s.engine, b, tip, clock.epoch) <==>
              1 <= MiningDifficulty(s) <= 64 && TimeOf(tip) <= TimeOf(b) <= clock.epoch + 120
  {
    hide Machine.Sound, Blocks.Header, Merkle.Root, Transactions.TxCore;
    MinedBlockIsValid(s, miner, clock, nonce);
  }

  lemma MiningDifficultyFits(s: NodeState)
    requires DifficultyFits(s) && s.engine.PoW?
    ensures 1 <= MiningDifficulty(s) <= 64
  {
  }

  lemma MinePassesEngine(s: NodeState, miner: string, clock: Clock, nonce: u64)
    requires Sound(s) && DifficultyFits(s) && Solves(Template(s, miner, clock), nonce)
    requires ValidUnder(s.engine, s.chain, clock.epoch) && ClockFits(s, clock)
    ensures ValidUnder(s.engine, AfterMine(s, miner, clock, nonce).chain, clock.epoch)
    ensures DifficultyFits(AfterMine(s, miner, clock, nonce))
  {
    var b := Sealed(Template(s, miner, clock), nonce);
    MinedBlockIsValid(s, miner, clock, nonce);
    if s.engine.PoW? {
      MiningDifficultyFits(s);
      MinedBlockUnderEngine(s, miner, clock, nonce);
      assert TimeOf(b) == clock.epoch;
    }
    ExtensionIsValid(s.engine, s.chain, b, clock.epoch);
  }

  lemma OfferedPassesEngine(s: NodeState, block: Block, chain: seq<Block>, clock: Clock)
    requires ValidUnder(s.engine, s.chain, clock.epoch)
    ensures ValidUnder(s.engine, AfterAccept(s, block, clock).chain, clock.epoch)
    ensures ValidUnder(s.engine, AfterReplace(s, chain, clock).chain, clock.epoch)
  {
  }

  lemma StepPassesEngine(s: NodeState, step: Step, now: int)
    requires Sound(s) && Enabled(s, step) && DifficultyFits(s)
    requires ValidUnder(s.engine, s.chain, now) && now <= step.clock.epoch
    requires step.Mine? ==> ClockFits(s, step.clock)
    ensures ValidUnder(s.engine, Next(s, step).chain, step.clock.epoch)
    ensures DifficultyFits(Next(s, step))
  {
    hide Sound, ValidUnder;
    LaterClock(s.engine, s.chain, now, step.clock.epoch);
    match step
    case Add(tx, clock) =>
    case Mine(miner, clock, nonce) => MinePassesEngine(s, miner, clock, nonce);
    case Accept(block, clock) => OfferedPassesEngine(s, block, s.chain, clock);
    case Replace(chain, clock) => OfferedPassesEngine(s, s.chain[0], chain, clock);
  }

  /** The clock never runs backwards, and at every mining it is not behind the tip. */
  ghost predicate ClocksFit(s: NodeState, steps: seq<Step>, now: int)
    requires IsRun(s, steps)
    decreases |steps|
  {
    steps == [] ||
    (&& now <= steps[0].clock.epoch
     && (steps[0].Mine? ==> ClockFits(s, steps[0].clock))
     && ClocksFit(Next(s, steps[0]), steps[1..], steps[0].clock.epoch))
  }

  function LastTime(steps: seq<Step>, now: int): int {
    if steps == [] then now else steps[|steps| - 1].clock.epoch
  }

  lemma LastTimeOfRest(steps: seq<Step>, now: int)
    requires steps != []
    ensures LastTime(steps[1..], steps[0].clock.epoch) == LastTime(steps, now)
  {
  }

  /** With difficulties from 1 to 64 and such a clock, the chain passes every rule of the engine
      after every run, whatever blocks and chains were offered. */
  lemma {:induction false} RunPassesEngine(s: NodeState, steps: seq<Step>, now: int)
    requires Sound(s) && DifficultyFits(s) && ValidUnder(s.engine, s.chain, now)
    requires IsRun(s, steps) && ClocksFit(s, steps, now)
    ensures ValidUnder(s.engine, Final(s, steps).chain, LastTime(steps, now))
    decreases |steps|
  {
    if steps != [] {
      var step := steps[0];
      StepPassesEngine(s, step, now);
      NextIsSound(s, step);
      ChainGrows(s, step);
      RunPassesEngine(Next(s, step), steps[1..], step.clock.epoch);
      LastTimeOfRest(steps, now);
    }
  }

  // ----- difficulty -----

  lemma MiningDifficultyMoves(s: NodeState)
    requires s.engine.PoW? && InRange(s.engine.adjuster, s.difficulty)
    ensures InRange(s.engine.adjuster, MiningDifficulty(s))
    ensures MiningDifficulty(s) != s.difficulty ==>
              && |s.chain| > s.engine.adjuster.windowSize
              && (|s.chain| - 1) % s.engine.adjuster.windowSize == 0
  {
    NextStaysInRange(s.engine.adjuster, s.chain, s.difficulty);
  }

  /** Only mining moves the difficulty, only at the boundary of a window, and never out of range. */
  lemma DifficultyStep(s: NodeState, step: Step)
    requires Enabled(s, step) && s.engine.PoW? && InRange(s.engine.adjuster, s.difficulty)
    ensures InRange(s.engine.adjuster, Next(s, step).difficulty)
    ensures Next(s, step).difficulty != s.difficulty ==>
              && step.Mine?
              && |s.chain| > s.engine.adjuster.windowSize
              && (|s.chain| - 1) % s.engine.adjuster.windowSize == 0
  {
    MiningDifficultyMoves(s);
    assert Next(s, step).difficulty == if step.Mine? then MiningDifficulty(s) else s.difficulty;
  }

  lemma {:induction false} RunKeepsDifficultyInRange(s: NodeState, steps: seq<Step>)
    requires IsRun(s, steps) && s.engine.PoW? && InRange(s.engine.adjuster, s.difficulty)
    ensures Final(s, steps).engine == s.engine
    ensures InRange(s.engine.adjuster, Final(s, steps).difficulty)
    decreases |steps|
  {
    if steps != [] {
      DifficultyStep(s, steps[0]);
      ChainGrows(s, steps[0]);
      RunKeepsDifficultyInRange(Next(s, steps[0]), steps[1..]);
    }
  }
}
