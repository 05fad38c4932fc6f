/** The crash-safe replacement of a file: the protocol over the file itself, its temporary and its
    backup, and the recovery at start-up. A crash may follow any effect on the disk. */
module AtomicFiles {
  import opened Primitives

  /** What the three paths hold. */
  datatype Files<C> = Files(main: Option<C>, tmp: Option<C>, bak: Option<C>)

  /** What the operating system does during one write: the contents the temporary file passes
      through before it is complete, the truncated one first, and the calls that fail. */
  datatype WriteIO<C> = WriteIO(
    partials: seq<C>,
    openFails: bool,
    writeFails: bool,
    removeFails: bool,
    backupFails: bool,
    installFails: bool,
    lookThrows: bool,
    dropFails: bool,
    restoreFails: bool,
    cleanupFails: bool)
  {
    /** Nothing fails that the write has to have: moving the file aside matters only where there is
        one, and removing a backup does not matter. */
    predicate Succeeds(hasFile: bool) {
      !openFails && !writeFails && !installFails && (hasFile ==> !backupFails)
    }

    /** The install fails and the backup is not put back either: the rename fails, or already looking
        for the backup throws. */
    predicate LosesMain() {
      !openFails && !writeFails && !backupFails && installFails && (lookThrows || restoreFails)
    }

    /** Looking for the backup throws, and the handler of the exception drops the temporary file. */
    predicate DropsBoth() {
      LosesMain() && lookThrows && !dropFails
    }
  }

  // ----- the states the disk goes through -----

  /** While the temporary file is written. */
  function WritingTrace<C>(before: Files<C>, io: WriteIO<C>): (trace: seq<Files<C>>)
    ensures |trace| > 0
  {
    [before] + if io.openFails then []
               else seq(|io.partials|, i requires 0 <= i < |io.partials| => before.(tmp := Some(io.partials[i])))
  }

  /** Once the temporary file is complete: move the file aside. */
  function BackupTrace<C>(full: Files<C>, io: WriteIO<C>): (trace: seq<Files<C>>)
    ensures |trace| > 0
  {
    if full.main.None? then [full]
    else
      var cleared := if io.removeFails then full else full.(bak := None);
      [full, cleared] + if io.backupFails then [] else [cleared.(main := None, bak := full.main)]
  }

  function BackupSucceeds<C>(full: Files<C>, io: WriteIO<C>): bool {
    full.main.None? || !io.backupFails
  }

  /** Put the temporary file in place; where that fails, put the backup back. Where looking for the
      backup throws, the temporary file is dropped instead. */
  function InstallTrace<C>(ready: Files<C>, io: WriteIO<C>): seq<Files<C>> {
    if io.installFails then
      if io.lookThrows then
        if io.dropFails then [] else [ready.(tmp := None)]
      else if ready.bak.Some? && !io.restoreFails then [ready.(main := ready.bak, bak := None)] else []
    else
      var installed := ready.(main := ready.tmp, tmp := None);
      [installed, if io.cleanupFails then installed else installed.(bak := None)]
  }

  function Last<T>(s: seq<T>): T
    requires |s| > 0
  {
    s[|s| - 1]
  }

  /** Every state of the disk during a write, first to last, and the value the write returns. */
  function WriteRun<C>(before: Files<C>, content: C, io: WriteIO<C>): (run: (seq<Files<C>>, bool))
    ensures |run.0| > 0
  {
    var writing := WritingTrace(before, io);
    if io.openFails || io.writeFails then (writing, false)
    else
      var backup := BackupTrace(before.(tmp := Some(content)), io);
      if !BackupSucceeds(before.(tmp := Some(content)), io) then (writing + backup, false)
      else (writing + backup + InstallTrace(Last(backup), io), !io.installFails)
  }

  function AfterWrite<C>(before: Files<C>, content: C, io: WriteIO<C>): Files<C> {
    Last(WriteRun(before, content, io).0)
  }

  /** Recovery: a leftover temporary file is dropped next to a file, and becomes the file where
      there is none. */
  function RecoveryTrace<C>(f: Files<C>, fails: bool): (trace: seq<Files<C>>)
    ensures |trace| > 0
  {
    if f.tmp.None? || fails then [f]
    else if f.main.Some? then [f, f.(tmp := None)]
    else [f, f.(main := f.tmp, tmp := None)]
  }

  // ----- the operations as the program runs them -----

  class AtomicFile<C(==)> {
    var main: Option<C>
    var tmp: Option<C>
    var bak: Option<C>

    ghost function View(): Files<C>
      reads this
    {
      Files(main, tmp, bak)
    }

    constructor (main: Option<C>, tmp: Option<C>, bak: Option<C>)
      ensures View() == Files(main, tmp, bak)
    {
      this.main, this.tmp, this.bak := main, tmp, bak;
    }

    /** The write, effect by effect. The trace records the disk after each one. */
    method AtomicWrite(content: C, io: WriteIO<C>) returns (ok: bool, ghost trace: seq<Files<C>>)
      modifies this
      ensures (trace, ok) == WriteRun(old(View()), content, io)
      ensures View() == Last(trace)
    {
      trace := [View()];
      if io.openFails {
        assert trace == WritingTrace(old(View()), io);
        return false, trace;
      }
      for i := 0 to |io.partials|
        invariant main == old(main) && bak == old(bak) && trace != [] && View() == Last(trace)
        invariant trace == WritingTrace(old(View()), io)[..i + 1]
      {
        tmp := Some(io.partials[i]);
        trace := trace + [View()];
      }
      ghost var writing := trace;
      assert writing == WritingTrace(old(View()), io);
      if io.writeFails {
        return false, trace;
      }
      tmp := Some(content);
      ghost var backup := [View()];
      if main.Some? {
        if !io.removeFails {
          bak := None;
        }
        backup := backup + [View()];
        if io.backupFails {
          assert backup == BackupTrace(old(View()).(tmp := Some(content)), io);
          return false, writing + backup;
        }
        main, bak := None, main;
        backup := backup + [View()];
      }
      assert backup == BackupTrace(old(View()).(tmp := Some(content)), io);
      if io.installFails {
        trace := writing + backup;
        if io.lookThrows {
          if !io.dropFails {
            tmp := None;
            trace := trace + [View()];
          }
        } else if bak.Some? && !io.restoreFails {
          main, bak := bak, None;
          trace := trace + [View()];
        }
        assert trace == writing + backup + InstallTrace(Last(backup), io);
        return false, trace;
      }
      main, tmp := tmp, None;
      trace := writing + backup + [View()];
      if !io.cleanupFails {
        bak := None;
      }
      trace := trace + [View()];
      assert trace == writing + backup + InstallTrace(Last(backup), io);
      ok := true;
    }

    method Recover(fails: bool)
      modifies this
      ensures View() == Last(RecoveryTrace(old(View()), fails))
    {
      if tmp.None? {
        return;
      }
      if main.Some? {
        if !fails {
          tmp := None;
        }
        return;
      }
      if !fails {
        main, tmp := tmp, None;
      }
    }
  }

  // ----- what a crash can leave -----

  /** The file is complete, the old or the new one; or it is missing and the temporary file is the
      complete new one. */
  predicate Intact<C(==)>(f: Files<C>, old': C, new': C) {
    f.main == Some(old') || f.main == Some(new') || (f.main.None? && f.tmp == Some(new'))
  }

  /** At every point of a write the files are intact, save at the very end of one whose exception
      handler has dropped the temporary file after the file itself was lost. */
  lemma EveryStateIsIntact<C>(before: Files<C>, old': C, content: C, io: WriteIO<C>, at: nat)
    requires before.main == Some(old') && at < |WriteRun(before, content, io).0|
    ensures var trace := WriteRun(before, content, io).0;
      && (Intact(trace[at], old', content) <==> !(io.DropsBoth() && at == |trace| - 1))
      && (!Intact(trace[at], old', content) ==> trace[at] == Files(None, None, Some(old')))
  {
  }

  lemma RecoveryKeepsIntact<C>(f: Files<C>, old': C, new': C, fails: bool, at: nat)
    requires Intact(f, old', new') && at < |RecoveryTrace(f, fails)|
    ensures Intact(RecoveryTrace(f, fails)[at], old', new')
    ensures !fails ==> Last(RecoveryTrace(f, fails)).main in {Some(old'), Some(new')}
  {
  }

  /** A crashed attempt to recover: whether its effect fails, and the state it stops in. */
  datatype Attempt = Attempt(fails: bool, at: nat)

  function AfterAttempts<C>(f: Files<C>, attempts: seq<Attempt>): Files<C>
    decreases |attempts|
  {
    if attempts == [] then f
    else
      var trace := RecoveryTrace(f, attempts[0].fails);
      AfterAttempts(trace[Min(attempts[0].at, |trace| - 1)], attempts[1..])
  }

  lemma {:induction false} AttemptsKeepIntact<C>(f: Files<C>, old': C, new': C, attempts: seq<Attempt>)
    requires Intact(f, old', new')
    ensures Intact(AfterAttempts(f, attempts), old', new')
    decreases |attempts|
  {
    if attempts != [] {
      var trace := RecoveryTrace(f, attempts[0].fails);
      var at := Min(attempts[0].at, |trace| - 1);
      RecoveryKeepsIntact(f, old', new', attempts[0].fails, at);
      AttemptsKeepIntact(trace[at], old', new', attempts[1..]);
    }
  }

  lemma {:induction false} AttemptsFindNothing<C>(f: Files<C>, attempts: seq<Attempt>)
    requires f.tmp.None?
    ensures AfterAttempts(f, attempts) == f
    decreases |attempts|
  {
    if attempts != [] {
      AttemptsFindNothing(f, attempts[1..]);
    }
  }

  // ----- whole histories -----

  /** A write that runs to its end, or one that is cut off and followed by start-ups, the last of
      which completes its recovery. */
  datatype Episode<C> =
    | Completed(content: C, io: WriteIO<C>)
    | CutOff(content: C, io: WriteIO<C>, at: nat, attempts: seq<Attempt>)

  function AfterEpisode<C>(f: Files<C>, e: Episode<C>): Files<C> {
    match e
    case Completed(content, io) => AfterWrite(f, content, io)
    case CutOff(content, io, at, attempts) =>
      var trace := WriteRun(f, content, io).0;
      Last(RecoveryTrace(AfterAttempts(trace[Min(at, |trace| - 1)], attempts), false))
  }

  /** A completed write puts back what it moved aside; one that is cut off was cut before the
      exception handler dropped what was left. */
  predicate KeepsMain<C>(f: Files<C>, e: Episode<C>) {
    match e
    case Completed(_, io) => !io.LosesMain()
    case CutOff(content, io, at, _) => !(io.DropsBoth() && at >= |WriteRun(f, content, io).0| - 1)
  }

  predicate AllKeepMain<C>(f: Files<C>, es: seq<Episode<C>>)
    decreases |es|
  {
    es == [] || (KeepsMain(f, es[0]) && AllKeepMain(AfterEpisode(f, es[0]), es[1..]))
  }

  /** The file exists at the start and after every episode. */
  predicate AlwaysThere<C>(f: Files<C>, es: seq<Episode<C>>)
    decreases |es|
  {
    f.main.Some? && (es == [] || AlwaysThere(AfterEpisode(f, es[0]), es[1..]))
  }

  function AfterEpisodes<C>(f: Files<C>, es: seq<Episode<C>>): Files<C>
    decreases |es|
  {
    if es == [] then f else AfterEpisodes(AfterEpisode(f, es[0]), es[1..])
  }

  /** A write returns true exactly when nothing failed that it has to have. */
  lemma ReturnsTrue<C>(f: Files<C>, content: C, io: WriteIO<C>)
    ensures WriteRun(f, content, io).1 <==> io.Succeeds(f.main.Some?)
    ensures WriteRun(f, content, io).1 ==> AfterWrite(f, content, io).main == Some(content)
  {
  }

  lemma CompletedWrite<C>(f: Files<C>, content: C, io: WriteIO<C>)
    requires f.main.Some?
    ensures AfterWrite(f, content, io).main
         == if WriteRun(f, content, io).1 then Some(content) else if io.LosesMain() then None else f.main
  {
  }

  /** One episode leaves the complete old or the complete new content, whatever fails and wherever it
      is cut off, exactly when it keeps the file; a write that returns true leaves the new one, one
      that returns false the old one. */
  lemma EpisodeIsAtomic<C>(f: Files<C>, e: Episode<C>)
    requires f.main.Some?
    ensures KeepsMain(f, e) <==> AfterEpisode(f, e).main in {f.main, Some(e.content)}
    ensures KeepsMain(f, e) <==> AfterEpisode(f, e).main.Some?
    ensures e.Completed? && KeepsMain(f, e) ==>
              AfterEpisode(f, e).main == if WriteRun(f, e.content, e.io).1 then Some(e.content) else f.main
  {
    match e
    case Completed(content, io) =>
      CompletedWrite(f, content, io);
      ReturnsTrue(f, content, io);
    case CutOff(content, io, at, attempts) =>
      hide WriteRun, RecoveryTrace;
      var trace := WriteRun(f, content, io).0;
      var stop := Min(at, |trace| - 1);
      EveryStateIsIntact(f, f.main.value, content, io, stop);
      if KeepsMain(f, e) {
        AttemptsKeepIntact(trace[stop], f.main.value, content, attempts);
        RecoveryKeepsIntact(AfterAttempts(trace[stop], attempts), f.main.value, content, false, 0);
      } else {
        AttemptsFindNothing(trace[stop], attempts);
        NothingRecovered(trace[stop]);
      }
  }

  lemma NothingRecovered<C>(f: Files<C>)
    requires f.tmp.None?
    ensures Last(RecoveryTrace(f, false)) == f
  {
  }

  /** The contents the file may hold at the end: the one of the last write that returned true, or
      of a later one that was cut off. */
  function Candidates<C(==)>(f: Files<C>, es: seq<Episode<C>>, possible: set<C>): set<C>
    decreases |es|
  {
    if es == [] then possible
    else
      var e := es[0];
      var next := if e.CutOff? then possible + {e.content}
                  else if WriteRun(f, e.content, e.io).1 then {e.content} else possible;
      Candidates(AfterEpisode(f, e), es[1..], next)
  }

  /** Over any sequence of writes, failures, crashes and recoveries the file always exists exactly when
      every episode keeps it, and then holds one complete content, never older than the last write
      that returned true. */
  lemma {:induction false} HistoryIsAtomic<C>(f: Files<C>, es: seq<Episode<C>>, possible: set<C>)
    requires f.main.Some? && f.main.value in possible
    ensures AlwaysThere(f, es) <==> AllKeepMain(f, es)
    ensures var g := AfterEpisodes(f, es);
            AllKeepMain(f, es) ==> g.main.Some? && g.main.value in Candidates(f, es, possible)
    decreases |es|
  {
    hide KeepsMain, AfterEpisode, WriteRun;
    if es != [] {
      var e := es[0];
      EpisodeIsAtomic(f, e);
      if KeepsMain(f, e) {
        var next := if e.CutOff? then possible + {e.content}
                    else if WriteRun(f, e.content, e.io).1 then {e.content} else possible;
        HistoryIsAtomic(AfterEpisode(f, e), es[1..], next);
      }
    }
  }

  // ----- where it stops being atomic -----

  /** Where there is no file, be it before the first write or after the file was lost, a crash in a
      write recovers to nothing, to the complete content or to the backup there was exactly when the
      temporary file it leaves alone is one of these, not a partial one. */
  lemma FirstWrite<C>(before: Files<C>, content: C, io: WriteIO<C>, at: nat)
    requires before.main.None? && at < |WriteRun(before, content, io).0|
    ensures var cut := WriteRun(before, content, io).0[at];
            Last(RecoveryTrace(cut, false)).main in {None, Some(content), before.bak} <==>
              cut.main.Some? || cut.tmp in {None, Some(content), before.bak}
  {
  }

  /** A partial first file does become the file. */
  lemma FirstWriteCutShort<C>(content: C, partial: C, io: WriteIO<C>)
    requires io == WriteIO([partial], false, false, false, false, false, false, false, false, false)
    ensures var trace := WriteRun(Files(None, None, None), content, io).0;
            |trace| > 1 && Last(RecoveryTrace(trace[1], false)).main == Some(partial)
  {
  }

  /** When the install and the restore both fail the file is gone; a crash in the next write then
      recovers to a partial file although the backup is complete. */
  lemma LostMainThenCrash<C>(old': C, content: C, next: C, partial: C)
    ensures var none: Option<C> := None;
            var io1 := WriteIO([], false, false, false, false, true, false, false, true, false);
            var io2 := WriteIO([partial], false, false, false, false, false, false, false, false, false);
            var lost := AfterWrite(Files(Some(old'), none, none), content, io1);
            var trace := WriteRun(lost, next, io2).0;
            && lost == Files(None, Some(content), Some(old'))
            && |trace| > 1 && Last(RecoveryTrace(trace[1], false)) == Files(Some(partial), None, Some(old'))
  {
  }

  /** Where looking for the backup throws, both the file and the temporary file are gone, and recovery
      does not bring the backup back. */
  lemma OnlyBackupLeft<C>(f: Files<C>, content: C, io: WriteIO<C>)
    requires f.main.Some? && io.DropsBoth()
    ensures AfterWrite(f, content, io) == Files(None, None, f.main) && !WriteRun(f, content, io).1
    ensures Last(RecoveryTrace(AfterWrite(f, content, io), false)) == Files(None, None, f.main)
  {
  }

  /** A write that returns true leaves no temporary file, and no backup unless there was none to move
      aside and an older one, or its removal fails. */
  lemma NothingLeftOver<C>(f: Files<C>, content: C, io: WriteIO<C>)
    requires WriteRun(f, content, io).1
    ensures AfterWrite(f, content, io).tmp.None?
    ensures AfterWrite(f, content, io).bak
         == if !io.cleanupFails then None else if f.main.Some? then f.main else f.bak
  {
  }

  /** What a write that returns false leaves, by the first call that failed: nothing new; the last partial
      temporary file; the complete one, with the older backup removed where that succeeded; or the
      complete one beside the file that was put back. */
  lemma FailedWriteLeaves<C>(f: Files<C>, content: C, io: WriteIO<C>)
    requires f.main.Some? && !WriteRun(f, content, io).1 && !io.LosesMain()
    ensures io.openFails ==> AfterWrite(f, content, io) == f
    ensures !io.openFails && io.writeFails ==>
              AfterWrite(f, content, io)
              == f.(tmp := if io.partials == [] then f.tmp else Some(io.partials[|io.partials| - 1]))
    ensures !io.openFails && !io.writeFails && io.backupFails ==>
              AfterWrite(f, content, io) == Files(f.main, Some(content), if io.removeFails then f.bak else None)
    ensures !io.openFails && !io.writeFails && !io.backupFails ==>
              AfterWrite(f, content, io) == Files(f.main, Some(content), None)
  {
  }
}
