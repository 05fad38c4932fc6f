/** Failures and crashes while the chain is stored: the file may fall behind the node, but it always
    holds some chain that the node once held, and a restart finds it. */
module Crashes {
  import opened Primitives
  import opened Transactions
  import opened Blocks
  import opened ChainValidity
  import opened LedgerSpec
  import opened Machine
  import opened AtomicFiles
  import opened ChainStorage
  import opened Durability
  import Core

  // ----- chains that were held -----

  /** Every chain the node holds along a run, the first and the last included. */
  function HeldChains(s: NodeState, steps: seq<Step>): set<seq<Block>>
    requires IsRun(s, steps)
    decreases |steps|
  {
    {s.chain} + if steps == [] then {} else HeldChains(Next(s, steps[0]), steps[1..])
  }

  /** Chains held one after the other have different lengths, each as long as its last index says. */
  predicate Earlier(c: seq<Block>, current: seq<Block>) {
    TipNumbered(c) && |c| <= |current| && (|c| == |current| ==> c == current)
  }

  ghost predicate StoresOneOf(f: Files<Content>, held: set<seq<Block>>) {
    exists c :: c in held && Stores(f, c)
  }

  ghost predicate Consistent(s: NodeState, f: Files<Content>, held: set<seq<Block>>) {
    && Sound(s) && TipNumbered(s.chain) && IsNormalPool(s.mempool) && IsNormalChain(s.chain)
    && s.chain in held && (forall c | c in held :: Earlier(c, s.chain))
    && StoresOneOf(f, held)
  }

  // ----- what a step asks to be written -----

  /** The content a step writes to the file, or nothing. */
  function Written(s: NodeState, f: Files<Content>, step: Step): Option<Content>
    requires Enabled(s, step)
  {
    match step
    case Add(_, _) => None
    case Mine(miner, clock, nonce) => Appended(f, Sealed(Template(s, miner, clock), nonce))
    case Accept(block, clock) => if Acceptable(s, block, clock) then Appended(f, block) else None
    case Replace(chain, clock) => if Preferable(s, chain, clock) then Some(ChainText(Encode(chain))) else None
  }

  function Appended(f: Files<Content>, b: Block): Option<Content> {
    if Appends(f, b) then Some(ChainText(StoredBlocks(f) + [BlockToJson(b)])) else None
  }

  /** The disk after a step whose write was cut off and recovered from. */
  function DiskAfterCrash(s: NodeState, f: Files<Content>, step: Step, io: WriteIO<Content>, at: nat,
                          attempts: seq<Attempt>)
    : Files<Content>
    requires Enabled(s, step)
  {
    match Written(s, f, step)
    case None => Last(RecoveryTrace(AfterAttempts(f, attempts), false))
    case Some(content) => AfterEpisode(f, CutOff(content, io, at, attempts))
  }

  lemma DiskAfterWrites(s: NodeState, f: Files<Content>, step: Step, io: WriteIO<Content>)
    requires Enabled(s, step)
    ensures DiskAfter(s, f, step, io)
         == match Written(s, f, step) case None => f case Some(content) => AfterWrite(f, content, io)
  {
    hide Acceptable, Preferable, Template, Sealed, AfterWrite, Encode;
  }

  /** Because held chains differ in length, the continuity check passes only where the file holds the
      node's own chain; whatever is written is the next chain. */
  lemma AppendedIsNext(s: NodeState, f: Files<Content>, c: seq<Block>, b: Block)
    requires Earlier(c, s.chain) && TipNumbered(s.chain) && Stores(f, c) && b.index == |s.chain|
    ensures Appended(f, b).Some? ==> Appended(f, b).value == ChainText(Encode(s.chain + [b]))
  {
    hide Encode, BlockToJson, BlockFromJson;
    AppendsToTip(f, c, b);
    EncodeOneMore(s.chain, b);
  }

  lemma WrittenIsNext(s: NodeState, f: Files<Content>, held: set<seq<Block>>, step: Step)
    requires Consistent(s, f, held) && Enabled(s, step) && Written(s, f, step).Some?
    ensures Written(s, f, step).value == ChainText(Encode(Next(s, step).chain))
  {
    hide Sound, ValidUnder, ApplyTxs, Rebuild, Appended, Encode, Solves, MerkleRoot, IsNormalChain, IsNormalPool;
    var c :| c in held && Stores(f, c);
    assert Earlier(c, s.chain);
    match step
    case Add(_, _) =>
    case Mine(miner, clock, nonce) =>
      AppendedIsNext(s, f, c, Sealed(Template(s, miner, clock), nonce));
    case Accept(block, clock) => AppendedIsNext(s, f, c, block);
    case Replace(chain, clock) =>
  }

  // ----- the chain after a step -----

  lemma MinedChain(s: NodeState, miner: string, clock: Clock, nonce: u64)
    requires TipNumbered(s.chain) && IsNormalPool(s.mempool) && IsNormalChain(s.chain)
    ensures var t := AfterMine(s, miner, clock, nonce);
      && TipNumbered(t.chain) && IsNormalPool(t.mempool) && IsNormalChain(t.chain) && |t.chain| == |s.chain| + 1
  {
    MinedBlockIsNormal(s, miner, clock, nonce);
    hide ApplyTxs, MerkleRoot, Reward, IsNormal;
  }

  lemma AcceptedChain(s: NodeState, block: Block, clock: Clock)
    requires TipNumbered(s.chain) && IsNormalPool(s.mempool) && IsNormalChain(s.chain) && IsNormalBlock(block)
    ensures var t := AfterAccept(s, block, clock);
      && TipNumbered(t.chain) && IsNormalPool(t.mempool) && IsNormalChain(t.chain)
      && (t.chain != s.chain ==> |t.chain| > |s.chain|)
  {
    hide ApplyTxs, ValidUnder, IsNormal;
    WithoutMembers(s.mempool, IDs(block.transactions));
  }

  lemma ReplacedChain(s: NodeState, chain: seq<Block>, clock: Clock)
    requires TipNumbered(s.chain) && IsNormalPool(s.mempool) && IsNormalChain(s.chain) && IsNormalChain(chain)
    ensures var t := AfterReplace(s, chain, clock);
      && TipNumbered(t.chain) && IsNormalPool(t.mempool) && IsNormalChain(t.chain)
      && (t.chain != s.chain ==> |t.chain| > |s.chain|)
  {
    hide Rebuild, IsNormal;
    WithoutMembers(s.mempool, Rebuild(chain).spent);
    assert Preferable(s, chain, clock) ==> ValidSuccessor(chain[|chain| - 1], chain[|chain| - 2], |chain| - 1);
  }

  lemma NextChain(s: NodeState, step: Step)
    requires Enabled(s, step) && IsNormalStep(step)
    requires TipNumbered(s.chain) && IsNormalPool(s.mempool) && IsNormalChain(s.chain)
    ensures var t := Next(s, step);
      && TipNumbered(t.chain) && IsNormalPool(t.mempool) && IsNormalChain(t.chain)
      && (t.chain != s.chain ==> |t.chain| > |s.chain|)
  {
    hide AfterMine, AfterAccept, AfterReplace, Admissible, IsNormal, IsNormalBlock;
    match step
    case Add(_, _) =>
    case Mine(miner, clock, nonce) => MinedChain(s, miner, clock, nonce);
    case Accept(block, clock) => AcceptedChain(s, block, clock);
    case Replace(chain, clock) => ReplacedChain(s, chain, clock);
  }

  lemma StillEarlier(held: set<seq<Block>>, current: seq<Block>, next: seq<Block>)
    requires forall c | c in held :: Earlier(c, current)
    requires TipNumbered(next) && (next != current ==> |next| > |current|)
    ensures forall c | c in held + {next} :: Earlier(c, next)
  {
    hide TipNumbered;
    forall c | c in held + {next}
      ensures Earlier(c, next)
    {
      assert c in held ==> Earlier(c, current);
    }
  }

  /** Whatever of the old and the new content ends up in the file, the node held it. */
  lemma FileFollows(s: NodeState, f: Files<Content>, held: set<seq<Block>>, step: Step, g: Files<Content>)
    requires Consistent(s, f, held) && Enabled(s, step) && IsNormalStep(step)
    requires g.main == f.main || (Written(s, f, step).Some? && g.main == Some(Written(s, f, step).value))
    ensures Consistent(Next(s, step), g, held + {Next(s, step).chain})
  {
    hide Sound, Earlier, Written, Next, Enabled, Encode, IsNormalChain, IsNormalStep, IsNormalPool, TipNumbered;
    var t := Next(s, step);
    NextIsSound(s, step);
    NextChain(s, step);
    StillEarlier(held, s.chain, t.chain);
    if g.main == f.main {
      var c :| c in held && Stores(f, c);
      assert c in held + {t.chain} && Stores(g, c);
    } else {
      WrittenIsNext(s, f, held, step);
      assert t.chain in held + {t.chain} && Stores(g, t.chain);
    }
  }

  lemma StepKeepsConsistent(s: NodeState, f: Files<Content>, held: set<seq<Block>>, step: Step, io: WriteIO<Content>)
    requires Consistent(s, f, held) && Enabled(s, step) && IsNormalStep(step) && !io.LosesMain()
    ensures Consistent(Next(s, step), DiskAfter(s, f, step, io), held + {Next(s, step).chain})
  {
    hide Written, DiskAfter, Next, Enabled, IsNormalStep, Sound, WriteRun, AfterWrite, Earlier;
    DiskAfterWrites(s, f, step, io);
    if Written(s, f, step).Some? {
      CompletedWrite(f, Written(s, f, step).value, io);
    }
    FileFollows(s, f, held, step, DiskAfter(s, f, step, io));
  }

  /** The write of a step is cut off before an exception handler dropped what was left. */
  predicate Survives(s: NodeState, f: Files<Content>, step: Step, io: WriteIO<Content>, at: nat)
    requires Enabled(s, step)
  {
    match Written(s, f, step)
    case None => true
    case Some(content) => KeepsMain(f, CutOff(content, io, at, []))
  }

  lemma CrashKeepsConsistent(s: NodeState, f: Files<Content>, held: set<seq<Block>>, step: Step, io: WriteIO<Content>,
                             at: nat, attempts: seq<Attempt>)
    requires Consistent(s, f, held) && Enabled(s, step) && IsNormalStep(step) && Survives(s, f, step, io, at)
    ensures Consistent(Next(s, step), DiskAfterCrash(s, f, step, io, at, attempts), held + {Next(s, step).chain})
  {
    hide Written, Next, Enabled, IsNormalStep, Sound, AfterEpisode, AfterAttempts, Earlier;
    var g := DiskAfterCrash(s, f, step, io, at, attempts);
    if Written(s, f, step).Some? {
      EpisodeIsAtomic(f, CutOff(Written(s, f, step).value, io, at, attempts));
    } else {
      UnwrittenStays(f, attempts);
    }
    FileFollows(s, f, held, step, g);
  }

  lemma UnwrittenStays(f: Files<Content>, attempts: seq<Attempt>)
    requires f.main.Some?
    ensures Last(RecoveryTrace(AfterAttempts(f, attempts), false)).main == f.main
  {
    AttemptsKeepFile(f, attempts);
  }

  lemma {:induction false} AttemptsKeepFile(f: Files<Content>, attempts: seq<Attempt>)
    requires f.main.Some?
    ensures AfterAttempts(f, attempts).main == f.main
    decreases |attempts|
  {
    if attempts != [] {
      var trace := RecoveryTrace(f, attempts[0].fails);
      AttemptsKeepFile(trace[Min(attempts[0].at, |trace| - 1)], attempts[1..]);
    }
  }

  predicate NoneLosesMain(ios: seq<WriteIO<Content>>) {
    forall i | 0 <= i < |ios| :: !ios[i].LosesMain()
  }

  lemma {:induction false} RunKeepsConsistent(s: NodeState, f: Files<Content>, held: set<seq<Block>>,
                                              steps: seq<Step>, ios: seq<WriteIO<Content>>)
    requires Consistent(s, f, held) && IsRun(s, steps)
    requires |ios| == |steps| && AllNormal(steps) && NoneLosesMain(ios)
    ensures Consistent(Final(s, steps), FinalDisk(s, f, steps, ios), held + HeldChains(s, steps))
    decreases |steps|
  {
    hide Consistent, Next, DiskAfter, WriteIO.LosesMain, IsNormalStep;
    if steps == [] {
      CurrentIsHeld(s, f, held);
      assert held + HeldChains(s, steps) == held;
    } else {
      var next := Next(s, steps[0]);
      StepKeepsConsistent(s, f, held, steps[0], ios[0]);
      RunKeepsConsistent(next, DiskAfter(s, f, steps[0], ios[0]), held + {next.chain}, steps[1..], ios[1..]);
      CurrentIsHeld(s, f, held);
      assert next.chain in HeldChains(next, steps[1..]);
      assert held + {next.chain} + HeldChains(next, steps[1..]) == held + HeldChains(s, steps);
    }
  }

  lemma CurrentIsHeld(s: NodeState, f: Files<Content>, held: set<seq<Block>>)
    requires Consistent(s, f, held)
    ensures s.chain in held
  {
  }

  lemma GenesisIsConsistent(engine: Engine, difficulty: nat, nonce: u64, f: Files<Content>)
    requires f.main == Some(ChainText(Encode([Genesis(difficulty, nonce)])))
    ensures var s := StartFrom(engine, difficulty, [Genesis(difficulty, nonce)]);
            Consistent(s, f, {s.chain})
  {
    hide Sound, Encode;
    var s := StartFrom(engine, difficulty, [Genesis(difficulty, nonce)]);
    GenesisIsSound(engine, difficulty, nonce);
    assert Stores(f, s.chain);
  }

  lemma UsableStored(f: Files<Content>, c: seq<Block>, engine: Engine, now: int)
    requires Stores(f, c) && c != []
    ensures Core.Usable(f, engine, now) == if ValidUnder(engine, c, now) then c else []
  {
    hide ValidUnder, Encode;
    StoredLoads(f, c);
  }

  lemma ConsistentRestarts(s: NodeState, f: Files<Content>, held: set<seq<Block>>, engine: Engine, now: int)
    requires Consistent(s, f, held)
    ensures exists c :: c in held && Core.Usable(f, engine, now) == if ValidUnder(engine, c, now) then c else []
  {
    hide ValidUnder, Sound, Stores, Core.Usable;
    var c :| c in held && Stores(f, c);
    assert Earlier(c, s.chain);
    UsableStored(f, c, engine, now);
  }

  /** A node that restarts from what it finds is in such a state again, so what follows holds for any
      number of crashes. */
  lemma RestartIsConsistent(s: NodeState, f: Files<Content>, held: set<seq<Block>>, engine: Engine,
                            difficulty: nat, now: int)
    requires Consistent(s, f, held) && Core.Usable(f, engine, now) != []
    ensures var c := Core.Usable(f, engine, now);
            c in held && Consistent(StartFrom(engine, difficulty, c), f, {c})
  {
    hide Sound, Core.Usable, ValidChain, EngineAccepts, Encode;
    var c :| c in held && Stores(f, c);
    assert Earlier(c, s.chain);
    UsableStored(f, c, engine, now);
    StartIsSound(engine, difficulty, c);
    assert Earlier(c, c);
  }

  lemma StartIsSound(engine: Engine, difficulty: nat, chain: seq<Block>)
    requires ValidChain(chain)
    ensures Sound(StartFrom(engine, difficulty, chain))
  {
    hide ValidChain, Rebuild;
  }

  /** From a state whose chain is stored, after any run in which writes may fail in every way that
      puts back what was moved aside, and after a crash anywhere in the next step and any number of
      crashed recoveries, a restart finds a chain that the node held, if the clock accepts it. */
  lemma CrashFindsHeldChain(start: NodeState, f: Files<Content>, steps: seq<Step>, ios: seq<WriteIO<Content>>,
                            last: Step, io: WriteIO<Content>, at: nat, attempts: seq<Attempt>, now: int)
    requires Consistent(start, f, {start.chain}) && IsRun(start, steps)
    requires |ios| == |steps| && AllNormal(steps) && NoneLosesMain(ios)
    requires Enabled(Final(start, steps), last) && IsNormalStep(last)
    requires Survives(Final(start, steps), FinalDisk(start, f, steps, ios), last, io, at)
    ensures var s := Final(start, steps);
            var disk := DiskAfterCrash(s, FinalDisk(start, f, steps, ios), last, io, at, attempts);
            && Consistent(Next(s, last), disk, HeldChains(start, steps) + {Next(s, last).chain})
            && exists c :: c in HeldChains(start, steps) + {Next(s, last).chain}
                 && Core.Usable(disk, start.engine, now) == if ValidUnder(start.engine, c, now) then c else []
  {
    hide Consistent, Encode, Next, Enabled, Core.Usable, DiskAfterCrash, ValidUnder, IsNormalStep, Survives;
    var s, g := Final(start, steps), FinalDisk(start, f, steps, ios);
    var held := HeldChains(start, steps);
    RunKeepsConsistent(start, f, {start.chain}, steps, ios);
    assert {start.chain} + held == held;
    CrashKeepsConsistent(s, g, held, last, io, at, attempts);
    ConsistentRestarts(Next(s, last), DiskAfterCrash(s, g, last, io, at, attempts), held + {Next(s, last).chain},
                       start.engine, now);
  }

  /** The same from a fresh genesis whose first save returned true. */
  lemma CrashAfterFreshStart(engine: Engine, difficulty: nat, nonce: u64, f: Files<Content>, first: WriteIO<Content>,
                             steps: seq<Step>, ios: seq<WriteIO<Content>>, last: Step, io: WriteIO<Content>,
                             at: nat, attempts: seq<Attempt>, now: int)
    requires first.Succeeds(f.main.Some?)
    requires IsRun(StartFrom(engine, difficulty, [Genesis(difficulty, nonce)]), steps)
    requires |ios| == |steps| && AllNormal(steps) && NoneLosesMain(ios)
    requires var start := StartFrom(engine, difficulty, [Genesis(difficulty, nonce)]);
             var disk := FinalDisk(start, AfterSave(f, start.chain, first), steps, ios);
             && Enabled(Final(start, steps), last) && IsNormalStep(last)
             && Survives(Final(start, steps), disk, last, io, at)
    ensures var start := StartFrom(engine, difficulty, [Genesis(difficulty, nonce)]);
            var s := Final(start, steps);
            var cut := FinalDisk(start, AfterSave(f, start.chain, first), steps, ios);
            var disk := DiskAfterCrash(s, cut, last, io, at, attempts);
            exists c :: c in HeldChains(start, steps) + {Next(s, last).chain}
              && Core.Usable(disk, engine, now) == if ValidUnder(engine, c, now) then c else []
  {
    hide Consistent, Encode, Next, Enabled, Core.Usable, DiskAfterCrash, ValidUnder, IsNormalStep, Survives;
    hide WriteRun, Genesis, Rebuild;
    var start := StartFrom(engine, difficulty, [Genesis(difficulty, nonce)]);
    ReturnsTrue(f, ChainText(Encode(start.chain)), first);
    GenesisIsConsistent(engine, difficulty, nonce, AfterSave(f, start.chain, first));
    CrashFindsHeldChain(start, AfterSave(f, start.chain, first), steps, ios, last, io, at, attempts, now);
  }

  // ----- when the file keeps up -----

  lemma SameEncoding(c: seq<Block>, d: seq<Block>)
    requires Encode(c) == Encode(d)
    ensures |c| == |d|
  {
  }

  lemma ChangesChain(s: NodeState, step: Step)
    requires Enabled(s, step) && Next(s, step).chain != s.chain
    ensures match step
      case Add(_, _) => false
      case Mine(miner, clock, nonce) => Next(s, step).chain == s.chain + [Sealed(Template(s, miner, clock), nonce)]
      case Accept(block, clock) => Acceptable(s, block, clock) && Next(s, step).chain == s.chain + [block]
      case Replace(chain, clock) => Preferable(s, chain, clock) && Next(s, step).chain == chain
  {
    hide ApplyTxs, Rebuild, Without, Admissible, ValidUnder;
  }

  lemma AppendedExactlyToOwn(s: NodeState, f: Files<Content>, c: seq<Block>, b: Block)
    requires Earlier(c, s.chain) && TipNumbered(s.chain) && Stores(f, c) && b.index == |s.chain|
    requires b.previousHash == s.chain[|s.chain| - 1].hash
    ensures Appended(f, b).Some? <==> c == s.chain
  {
    hide Encode, BlockToJson, BlockFromJson;
    AppendsToTip(f, c, b);
  }

  /** Something is written by a step that changes the chain exactly when it replaces the chain or the
      file holds the node's own. */
  lemma WrittenExactlyWhen(s: NodeState, f: Files<Content>, held: set<seq<Block>>, c: seq<Block>, step: Step)
    requires Consistent(s, f, held) && Enabled(s, step) && c in held && Stores(f, c)
    requires Next(s, step).chain != s.chain
    ensures Written(s, f, step).Some? <==> step.Replace? || c == s.chain
  {
    hide Sound, ValidUnder, ApplyTxs, Rebuild, Appended, Encode, Solves, MerkleRoot, IsNormalChain, IsNormalPool;
    hide Next, Stores;
    ChangesChain(s, step);
    assert Earlier(c, s.chain);
    match step
    case Add(_, _) =>
    case Mine(miner, clock, nonce) => AppendedExactlyToOwn(s, f, c, Sealed(Template(s, miner, clock), nonce));
    case Accept(block, clock) => AppendedExactlyToOwn(s, f, c, block);
    case Replace(chain, clock) =>
  }

  /** After a step that changes the chain the file holds the new chain exactly when the step replaced
      the chain or the file held the old one, and the write returned true. */
  lemma StoredExactlyWhen(s: NodeState, f: Files<Content>, held: set<seq<Block>>, c: seq<Block>, step: Step,
                          io: WriteIO<Content>)
    requires Consistent(s, f, held) && Enabled(s, step) && IsNormalStep(step) && c in held && Stores(f, c)
    requires Next(s, step).chain != s.chain
    ensures Stores(DiskAfter(s, f, step, io), Next(s, step).chain)
       <==> (step.Replace? || c == s.chain) && io.Succeeds(true)
  {
    hide Written, DiskAfter, Next, Enabled, IsNormalStep, Sound, WriteRun, AfterWrite, Encode;
    hide IsNormalChain, IsNormalPool;
    var next := Next(s, step).chain;
    NextChain(s, step);
    DiskAfterWrites(s, f, step, io);
    WrittenExactlyWhen(s, f, held, c, step);
    assert Earlier(c, s.chain);
    if Encode(c) == Encode(next) {
      SameEncoding(c, next);
    }
    if Written(s, f, step).Some? {
      WrittenIsNext(s, f, held, step);
      CompletedWrite(f, Written(s, f, step).value, io);
      ReturnsTrue(f, Written(s, f, step).value, io);
    }
  }

  predicate NeverReplaces(steps: seq<Step>) {
    forall i | 0 <= i < |steps| :: !steps[i].Replace?
  }

  lemma NothingAppended(s: NodeState, f: Files<Content>, c: seq<Block>, b: Block)
    requires Stores(f, c) && TipNumbered(c) && |c| < |s.chain| == b.index
    ensures Appended(f, b).None?
  {
    hide Encode, BlockToJson, BlockFromJson;
    AppendsToTip(f, c, b);
  }

  lemma BehindStep(s: NodeState, f: Files<Content>, c: seq<Block>, step: Step, io: WriteIO<Content>)
    requires Stores(f, c) && TipNumbered(c) && |c| < |s.chain| && Enabled(s, step) && !step.Replace?
    ensures DiskAfter(s, f, step, io) == f
  {
    hide ValidUnder, MerkleRoot, Solves, Stores, Appended, AfterWrite;
    DiskAfterWrites(s, f, step, io);
    match step
    case Add(_, _) =>
    case Mine(miner, clock, nonce) => NothingAppended(s, f, c, Sealed(Template(s, miner, clock), nonce));
    case Accept(block, clock) =>
      if Acceptable(s, block, clock) {
        NothingAppended(s, f, c, block);
      }
  }

  /** One failed append ends storing: once the file holds an earlier, shorter chain, no run without a
      replacement changes the file again, however well its writes would go. */
  lemma {:induction false} BehindStaysBehind(s: NodeState, f: Files<Content>, c: seq<Block>, steps: seq<Step>,
                                             ios: seq<WriteIO<Content>>)
    requires Stores(f, c) && TipNumbered(c) && |c| < |s.chain|
    requires IsRun(s, steps) && |ios| == |steps| && NeverReplaces(steps)
    ensures FinalDisk(s, f, steps, ios) == f
    decreases |steps|
  {
    hide Next, Enabled, DiskAfter, Stores, TipNumbered;
    if steps != [] {
      BehindStep(s, f, c, steps[0], ios[0]);
      ChainGrows(s, steps[0]);
      BehindStaysBehind(Next(s, steps[0]), f, c, steps[1..], ios[1..]);
    }
  }

  /** So it goes after any one append whose write returns false and puts back what it moved aside. */
  lemma FailedAppendEndsStoring(s: NodeState, f: Files<Content>, step: Step, io: WriteIO<Content>,
                                steps: seq<Step>, ios: seq<WriteIO<Content>>)
    requires Consistent(s, f, {s.chain}) && Enabled(s, step) && !step.Replace?
    requires Next(s, step).chain != s.chain && !io.Succeeds(true) && !io.LosesMain()
    requires IsRun(Next(s, step), steps) && |ios| == |steps| && NeverReplaces(steps)
    ensures FinalDisk(Next(s, step), DiskAfter(s, f, step, io), steps, ios).main == f.main
    ensures Stores(FinalDisk(Next(s, step), DiskAfter(s, f, step, io), steps, ios), s.chain)
  {
    hide Written, DiskAfter, Next, Enabled, Sound, WriteRun, AfterWrite, Encode, IsNormalChain, IsNormalPool;
    var g := DiskAfter(s, f, step, io);
    assert Stores(f, s.chain);
    DiskAfterWrites(s, f, step, io);
    if Written(s, f, step).Some? {
      CompletedWrite(f, Written(s, f, step).value, io);
      ReturnsTrue(f, Written(s, f, step).value, io);
    }
    LongerAfter(s, step);
    BehindStaysBehind(Next(s, step), g, s.chain, steps, ios);
  }

  lemma LongerAfter(s: NodeState, step: Step)
    requires Enabled(s, step) && Next(s, step).chain != s.chain
    ensures |Next(s, step).chain| > |s.chain|
  {
    ChangesChain(s, step);
  }
}
