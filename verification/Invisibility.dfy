/** Active expiration cannot be observed, except through commands that skip the expiry check. */
module Invisibility {
  import opened ByteStrings
  import opened RespTypes
  import opened Commands
  import opened Dispatcher
  import opened Expiration
  import opened Worlds
  import S = Store
  import Snapshots

  ghost predicate Monotone(clock: Clock) {
    forall i: nat, j: nat :: i <= j ==> clock(i) <= clock(j)
  }

  /** The cell is the same, or it was purged and had passed its deadline at time `t`. */
  ghost predicate CellHidden(full: S.Cell, purged: S.Cell, t: S.Instant) {
    purged == full || (purged == S.ABSENT && S.Expired(full, t))
  }

  ghost predicate Hidden(full: S.Store, purged: S.Store, t: S.Instant) {
    forall k :: CellHidden(S.At(full, k), S.At(purged, k), t)
  }

  /** LPUSH, RPUSH and EXPIRE do not look at the deadline of their key. */
  predicate SkipsCheck(op: S.Op) {
    op.LPush? || op.RPush? || op.Expire?
  }

  /** The operation works on a key past its deadline; EXPIRE needs a value there to do so. */
  predicate Reveals(op: S.Op, c: S.Cell, now: S.Instant) {
    SkipsCheck(op) && S.Expired(c, now) && (op.Expire? ==> c.value.Some?)
  }

  /** The command does not skip the check on a key past its deadline. */
  ghost predicate Safe(s: S.Store, c: Command, now: S.Instant) {
    StoreOp(c).KeyOp? ==> !Reveals(StoreOp(c).op, S.At(s, StoreOp(c).key), now)
  }

  lemma CellSimulation(op: S.Op, full: S.Cell, purged: S.Cell, t: S.Instant, now: S.Instant)
    requires CellHidden(full, purged, t) && t <= now && !Reveals(op, full, now)
    ensures S.CellOp(op, full, now).1 == S.CellOp(op, purged, now).1
    ensures CellHidden(S.CellOp(op, full, now).0, S.CellOp(op, purged, now).0, now)
  {
    hide S.Range, S.PushCell, S.UpdatesDeadline;
  }

  /** A safe command answers alike on both stores and keeps them alike. */
  lemma CommandSimulation(full: S.Store, purged: S.Store, c: Command, t: S.Instant, now: S.Instant)
    requires !IsControl(c) && Hidden(full, purged, t) && t <= now && Safe(full, c, now)
    ensures ExecCommand(full, c, now).1 == ExecCommand(purged, c, now).1
    ensures Hidden(ExecCommand(full, c, now).0, ExecCommand(purged, c, now).0, now)
  {
    hide S.CellOp, S.Put, S.At, Reveals;
    match StoreOp(c)
    case NoOp =>
    case KeyOp(k, op) =>
      CellSimulation(op, S.At(full, k), S.At(purged, k), t, now);
      var x, y := S.CellOp(op, S.At(full, k), now).0, S.CellOp(op, S.At(purged, k), now).0;
      forall j ensures CellHidden(S.At(S.Put(full, k, x), j), S.At(S.Put(purged, k, y), j), now) {
        S.PutAt(full, k, x, j);
        S.PutAt(purged, k, y, j);
      }
  }

  ghost predicate SafeBatch(s: S.Store, cmds: seq<Command>, clock: Clock, tick: nat)
    requires Plain(cmds)
    decreases |cmds|
  {
    cmds == [] ||
    var n := |cmds| - 1;
    var b := RunAll(s, cmds[..n], clock, tick);
    SafeBatch(s, cmds[..n], clock, tick) && (b.error.None? ==> Safe(b.store, cmds[n], clock(tick + b.executed)))
  }

  /** Two batches that replied alike and left stores alike. */
  ghost predicate AlikeBatches(f: Batch, p: Batch, clock: Clock, tick: nat) {
    && f.replies == p.replies && f.error == p.error && f.executed == p.executed
    && Hidden(f.store, p.store, clock(tick + f.executed))
  }

  lemma StepSimulation(f: S.Store, p: S.Store, c: Command, clock: Clock, i: nat)
    requires Monotone(clock) && !IsControl(c) && Hidden(f, p, clock(i)) && Safe(f, c, clock(i))
    ensures ExecCommand(f, c, clock(i)).1 == ExecCommand(p, c, clock(i)).1
    ensures Hidden(ExecCommand(f, c, clock(i)).0, ExecCommand(p, c, clock(i)).0, clock(i + 1))
  {
    hide ExecCommand, Hidden, Safe;
    CommandSimulation(f, p, c, clock(i), clock(i));
    HiddenLater(ExecCommand(f, c, clock(i)).0, ExecCommand(p, c, clock(i)).0, clock(i), clock(i + 1));
  }

  lemma {:induction false} BatchSimulation(full: S.Store, purged: S.Store, cmds: seq<Command>, clock: Clock, tick: nat)
    requires Monotone(clock) && Plain(cmds) && Hidden(full, purged, clock(tick)) && SafeBatch(full, cmds, clock, tick)
    ensures AlikeBatches(RunAll(full, cmds, clock, tick), RunAll(purged, cmds, clock, tick), clock, tick)
    decreases |cmds|
  {
    hide ExecCommand, Hidden, Safe, Monotone;
    if cmds != [] {
      var n := |cmds| - 1;
      BatchSimulation(full, purged, cmds[..n], clock, tick);
      var f, p := RunAll(full, cmds[..n], clock, tick), RunAll(purged, cmds[..n], clock, tick);
      if f.error.None? {
        StepSimulation(f.store, p.store, cmds[n], clock, tick + f.executed);
      }
    }
  }

  lemma HiddenLater(full: S.Store, purged: S.Store, t: S.Instant, later: S.Instant)
    requires Hidden(full, purged, t) && t <= later
    ensures Hidden(full, purged, later)
  {
    hide S.At;
  }

  /** What a dispatched command is about to run is safe. */
  ghost predicate SafeDispatch(st: Session, c: Command, clock: Clock)
    requires TxValid(st.tx)
  {
    if c.EXEC? then SafeBatch(st.store, st.tx.queue, clock, st.tick)
    else !st.tx.inTransaction && !IsControl(c) ==> Safe(st.store, c, clock(st.tick))
  }

  /** The sessions differ only in purged cells. */
  ghost predicate Alike(full: Session, purged: Session, clock: Clock) {
    full.tx == purged.tx && full.tick == purged.tick && Hidden(full.store, purged.store, clock(full.tick))
  }

  lemma DispatchSimulation(full: Session, purged: Session, c: Command, clock: Clock)
    requires Monotone(clock) && TxValid(full.tx) && Alike(full, purged, clock) && SafeDispatch(full, c, clock)
    ensures Dispatch(full, c, clock).1 == Dispatch(purged, c, clock).1
    ensures Alike(Dispatch(full, c, clock).0, Dispatch(purged, c, clock).0, clock)
  {
    hide ExecCommand, RunAll, Hidden, Safe, SafeBatch;
    if c.EXEC? {
      BatchSimulation(full.store, purged.store, full.tx.queue, clock, full.tick);
    } else if !full.tx.inTransaction && !IsControl(c) {
      StepSimulation(full.store, purged.store, c, clock, full.tick);
    }
  }

  /** Purging more of the purged store stays hidden. */
  lemma {:induction false} RoundsHidden(full: S.Store, purged: S.Store, rounds: seq<Round>, t: S.Instant)
    requires Hidden(full, purged, t)
    requires forall i :: 0 <= i < |rounds| ==> rounds[i].now <= t
    ensures Hidden(full, AfterRounds(purged, rounds), t)
    decreases |rounds|
  {
    if rounds != [] {
      var gone := Dead(purged, rounds[0]);
      var next := Remove(purged, gone);
      forall k ensures CellHidden(S.At(full, k), S.At(next, k), t) {
        RemoveAt(purged, gone, k);
        assert k in gone ==> S.Expired(S.At(purged, k), t);
      }
      RoundsHidden(full, next, rounds[1..], t);
    }
  }

  ghost predicate NoLater(rounds: seq<Round>, now: S.Instant) {
    forall i :: 0 <= i < |rounds| ==> rounds[i].now <= now
  }

  /** A run without its cycles. */
  function Without(events: seq<Event>): seq<Event> {
    if events == [] then []
    else
      var n := |events| - 1;
      Without(events[..n]) + if events[n].Purge? then [] else [events[n]]
  }

  /** Every cycle reads the clock no later than the command after it. */
  ghost predicate OnTime(w: World, events: seq<Event>, clock: Clock)
    requires ClientsValid(w)
    decreases |events|
  {
    events == [] ||
    var n := |events| - 1;
    && OnTime(w, events[..n], clock)
    && (events[n].Purge? ==> NoLater(events[n].rounds, clock(Run(w, events[..n], clock).0.tick)))
  }

  /** Every command of a run is safe when it is dispatched. */
  ghost predicate SafeRun(w: World, events: seq<Event>, clock: Clock)
    requires ClientsValid(w)
    decreases |events|
  {
    events == [] ||
    var n := |events| - 1;
    && SafeRun(w, events[..n], clock)
    && (events[n].Act? ==> SafeDispatch(SessionOf(Run(w, events[..n], clock).0, events[n].id), events[n].cmd, clock))
  }

  ghost predicate NoRestart(events: seq<Event>) {
    forall i :: 0 <= i < |events| ==> !events[i].Restart?
  }

  /** The worlds differ only in purged cells and in what is on disk. */
  ghost predicate AlikeWorlds(full: World, purged: World, clock: Clock) {
    && full.up == purged.up && full.txs == purged.txs && full.tick == purged.tick
    && Hidden(full.store, purged.store, clock(full.tick))
  }

  /** An event other than a cycle or a restart, on both worlds. */
  lemma EventSimulation(full: World, purged: World, e: Event, clock: Clock)
    requires Monotone(clock) && ClientsValid(full) && ClientsValid(purged) && AlikeWorlds(full, purged, clock)
    requires !e.Purge? && !e.Restart? && (e.Act? ==> SafeDispatch(SessionOf(full, e.id), e.cmd, clock))
    ensures Step(full, e, clock).1 == Step(purged, e, clock).1
    ensures AlikeWorlds(Step(full, e, clock).0, Step(purged, e, clock).0, clock)
  {
    hide Dispatch, SafeDispatch, Hidden, Monotone, Snapshots.ValidSave, Snapshots.File;
    if e.Act? {
      assert TxValid(TxOf(full, e.id));
      DispatchSimulation(SessionOf(full, e.id), SessionOf(purged, e.id), e.cmd, clock);
    }
  }

  lemma PurgeSimulation(full: World, purged: World, rounds: seq<Round>, clock: Clock)
    requires ClientsValid(purged) && AlikeWorlds(full, purged, clock) && NoLater(rounds, clock(purged.tick))
    ensures Step(purged, Purge(rounds), clock).1 == []
    ensures AlikeWorlds(full, Step(purged, Purge(rounds), clock).0, clock)
  {
    hide Hidden, AfterRounds;
    RoundsHidden(full.store, purged.store, rounds, clock(full.tick));
  }

  lemma WithoutSnoc(init: seq<Event>, e: Event)
    ensures Without(init + [e]) == if e.Purge? then Without(init) else Without(init) + [e]
  {
    assert (init + [e])[..|init|] == init;
  }

  lemma SafeSnoc(w: World, init: seq<Event>, e: Event, clock: Clock)
    requires ClientsValid(w) && SafeRun(w, init + [e], clock)
    ensures SafeRun(w, init, clock)
    ensures e.Act? ==> SafeDispatch(SessionOf(Run(w, init, clock).0, e.id), e.cmd, clock)
  {
    hide SafeDispatch, Run;
    assert (init + [e])[..|init|] == init;
  }

  /** Running with cycles and without them gives the same replies to the same clients. */
  lemma {:induction false} CyclesUnseen(full: World, purged: World, events: seq<Event>, clock: Clock)
    requires Monotone(clock) && ClientsValid(full) && ClientsValid(purged) && AlikeWorlds(full, purged, clock)
    requires NoRestart(events)
    requires OnTime(purged, events, clock) && SafeRun(full, Without(events), clock)
    ensures Run(full, Without(events), clock).1 == Run(purged, events, clock).1
    ensures AlikeWorlds(Run(full, Without(events), clock).0, Run(purged, events, clock).0, clock)
    decreases |events|
  {
    if events != [] {
      hide Step, SafeDispatch, AlikeWorlds, Run, Without, SafeRun, Monotone, ClientsValid, NoLater;
      var init, e := events[..|events| - 1], events[|events| - 1];
      assert events == init + [e];
      WithoutSnoc(init, e);
      RunSnoc(purged, init, e, clock);
      var p := Run(purged, init, clock).0;
      if e.Purge? {
        CyclesUnseen(full, purged, init, clock);
        PurgeSimulation(Run(full, Without(init), clock).0, p, e.rounds, clock);
        assert Run(purged, init, clock).1 + [] == Run(purged, init, clock).1;
      } else {
        SafeSnoc(full, Without(init), e, clock);
        CyclesUnseen(full, purged, init, clock);
        RunSnoc(full, Without(init), e, clock);
        EventSimulation(Run(full, Without(init), clock).0, p, e, clock);
      }
    }
  }

  /**
   Active expiration is invisible: with a clock that never goes back, cycles inserted anywhere into a run
   of any number of clients, between two restarts, change no reply to any of them, as long as LPUSH, RPUSH
   and EXPIRE are used only on keys not past their deadline.
   */
  lemma ActiveExpirationInvisible(w: World, events: seq<Event>, clock: Clock)
    requires Monotone(clock) && ClientsValid(w) && NoRestart(events)
    requires OnTime(w, events, clock) && SafeRun(w, Without(events), clock)
    ensures Run(w, events, clock).1 == Run(w, Without(events), clock).1
  {
    hide Run, OnTime, SafeRun, Without;
    CyclesUnseen(w, w, events, clock);
  }

  // ---- The condition is exact ----

  /** The replies to a command and to a read of the same key right after it. */
  function Probe(s: S.Store, c: Command, k: S.Key, now: S.Instant): (Result<RespType>, Result<RespType>)
    requires !IsControl(c)
  {
    var r := ExecCommand(s, c, now);
    (r.1, ExecCommand(r.0, LRANGE(k, 0, -1), now).1)
  }

  function CellProbe(op: S.Op, c: S.Cell, now: S.Instant): (S.Outcome, S.Outcome) {
    var r := S.CellOp(op, c, now);
    (r.1, S.CellOp(S.LRange(0, -1), r.0, now).1)
  }

  lemma ProbeIsCellProbe(s: S.Store, c: Command, now: S.Instant)
    requires StoreOp(c).KeyOp?
    ensures !IsControl(c)
    ensures var k, p := StoreOp(c).key, CellProbe(StoreOp(c).op, S.At(s, StoreOp(c).key), now);
      Probe(s, c, k, now) == (Reply(c, p.0), Reply(LRANGE(k, 0, -1), p.1))
  {
    hide S.CellOp, Reply;
    var k := StoreOp(c).key;
    S.PutAt(s, k, S.CellOp(StoreOp(c).op, S.At(s, k), now).0, k);
  }

  /** From every store some cycle exists, and one that removes any given expired key. */
  lemma {:induction false} CycleExists(s: S.Store, now: S.Instant) returns (rounds: seq<Round>, after: S.Store)
    ensures IsCycle(s, rounds, after)
    ensures forall i :: 0 <= i < |rounds| ==> rounds[i].now == now
    decreases |s.exps|
  {
    if s.exps == map[] {
      rounds, after := [], s;
    } else {
      assert s.exps.Keys != {};
      var k :| k in s.exps;
      rounds, after := CycleStartingAt(s, k, now);
    }
  }

  /** A pass over a sample of one key. */
  lemma SingleKeyPass(s: S.Store, k: S.Key, now: S.Instant)
    requires k in s.exps
    ensures s.exps != map[] && IsSample(s.exps, [k])
    ensures S.Expired(S.At(s, k), now) ==> S.At(Remove(s, Dead(s, Round([k], now))), k) == S.ABSENT
  {
    RemoveAt(s, Dead(s, Round([k], now)), k);
  }

  lemma {:induction false} CycleStartingAt(s: S.Store, k: S.Key, now: S.Instant)
    returns (rounds: seq<Round>, after: S.Store)
    requires k in s.exps
    ensures IsCycle(s, rounds, after)
    ensures forall i :: 0 <= i < |rounds| ==> rounds[i].now == now
    ensures S.Expired(S.At(s, k), now) ==> S.At(after, k) == S.ABSENT
    decreases |s.exps|, 0
  {
    hide OverQuarter, IsCycle, Dead, Remove, IsSample, RunsAgain;
    SingleKeyPass(s, k, now);
    var r := Round([k], now);
    var next := Remove(s, Dead(s, r));
    if RunsAgain(s, r) {
      PassShrinks(s, r);
      var more;
      more, after := CycleExists(next, now);
      CycleCons(s, r, more, after);
      CycleRemovesOnlyExpired(next, more, after, now, k);
      rounds := [r] + more;
    } else {
      CycleCons(s, r, [], next);
      rounds, after := [r] + [], next;
    }
  }

  lemma LapsedPushDiffers(op: S.Op, c: S.Cell, now: S.Instant)
    requires (op.LPush? || op.RPush?) && S.Expired(c, now)
    ensures var f, p := CellProbe(op, c, now), CellProbe(op, S.ABSENT, now);
      p.0.Done? && p.1.Value? && p.1.obj.List? && (f.0.Err? || f.1 == S.NIL_VALUE)
  {
    hide S.Range;
  }

  lemma LapsedExpireDiffers(op: S.Op, c: S.Cell, now: S.Instant)
    requires op.Expire? && c.value.Some?
    ensures CellProbe(op, c, now).0 == S.Done || CellProbe(op, c, now).0 == S.Err(S.BAD_OPTION)
    ensures CellProbe(op, S.ABSENT, now).0 == S.Err(S.NOT_FOUND)
  {
    hide S.Range;
  }

  lemma LapsedProbesDiffer(s: S.Store, after: S.Store, c: Command, now: S.Instant)
    requires StoreOp(c).KeyOp? && Reveals(StoreOp(c).op, S.At(s, StoreOp(c).key), now)
    requires S.At(after, StoreOp(c).key) == S.ABSENT
    ensures !IsControl(c) && Probe(after, c, StoreOp(c).key, now) != Probe(s, c, StoreOp(c).key, now)
  {
    hide CellProbe, Probe;
    var op, cell := StoreOp(c).op, S.At(s, StoreOp(c).key);
    ProbeIsCellProbe(s, c, now);
    ProbeIsCellProbe(after, c, now);
    if op.Expire? {
      LapsedExpireDiffers(op, cell, now);
      assert |FAILED + S.BAD_OPTION| != |FAILED + S.NOT_FOUND|;
    } else {
      LapsedPushDiffers(op, cell, now);
    }
  }

  lemma HiddenProbesAgree(op: S.Op, full: S.Cell, purged: S.Cell, now: S.Instant)
    requires CellHidden(full, purged, now) && !Reveals(op, full, now)
    ensures CellProbe(op, full, now) == CellProbe(op, purged, now)
  {
    hide S.CellOp, CellHidden;
    CellSimulation(op, full, purged, now, now);
    CellSimulation(S.LRange(0, -1), S.CellOp(op, full, now).0, S.CellOp(op, purged, now).0, now, now);
  }

  /**
   The condition is exact, for every command with a key: no cycle at or before that moment can be noticed
   by the command and a read after it, if and only if the command does not work on a key past its deadline.
   */
  lemma SafetyIsExact(s: S.Store, c: Command, now: S.Instant)
    requires StoreOp(c).KeyOp? && !IsControl(c)
    ensures Safe(s, c, now) <==>
      forall rounds: seq<Round>, after :: IsCycle(s, rounds, after) && NoLater(rounds, now) ==>
        Probe(after, c, StoreOp(c).key, now) == Probe(s, c, StoreOp(c).key, now)
  {
    hide Probe, IsCycle, CellProbe;
    var k := StoreOp(c).key;
    if Safe(s, c, now) {
      forall rounds: seq<Round>, after | IsCycle(s, rounds, after) && NoLater(rounds, now)
        ensures Probe(after, c, k, now) == Probe(s, c, k, now)
      {
        CycleRemovesOnlyExpired(s, rounds, after, now, k);
        HiddenProbesAgree(StoreOp(c).op, S.At(s, k), S.At(after, k), now);
        ProbeIsCellProbe(s, c, now);
        ProbeIsCellProbe(after, c, now);
      }
    } else {
      var rounds, after := CycleStartingAt(s, k, now);
      LapsedProbesDiffer(s, after, c, now);
    }
  }
}
