/** What a client has set is what clients read, whatever others do in between. */
module Laws {
  import opened ByteStrings
  import opened RespTypes
  import opened RespParser
  import opened Commands
  import opened Dispatcher
  import opened Expiration
  import opened Worlds
  import opened Invisibility
  import Snapshots
  import S = Store

  /** The command does not write to the key. */
  predicate Avoids(c: Command, k: S.Key) {
    StoreOp(c).KeyOp? && StoreOp(c).key == k ==> c.GET? || c.LRANGE?
  }

  ghost predicate AllAvoid(cmds: seq<Command>, k: S.Key) {
    forall i :: 0 <= i < |cmds| ==> Avoids(cmds[i], k)
  }

  lemma ReadKeeps(op: S.Op, full: S.Cell, cell: S.Cell, t: S.Instant, now: S.Instant)
    requires (op.Get? || op.LRange?) && CellHidden(full, cell, t) && t <= now
    ensures CellHidden(full, S.CellOp(op, cell, now).0, now)
  {
    hide S.Range;
  }

  /** A command that does not write to the key leaves its cell, unless its deadline has passed. */
  lemma ExecKeeps(s: S.Store, c: Command, k: S.Key, full: S.Cell, clock: Clock, i: nat)
    requires Monotone(clock) && !IsControl(c) && Avoids(c, k) && CellHidden(full, S.At(s, k), clock(i))
    ensures CellHidden(full, S.At(ExecCommand(s, c, clock(i)).0, k), clock(i + 1))
  {
    hide S.CellOp, S.At, S.Put;
    assert clock(i) <= clock(i + 1);
    if StoreOp(c).KeyOp? {
      var j, op := StoreOp(c).key, StoreOp(c).op;
      S.PutAt(s, j, S.CellOp(op, S.At(s, j), clock(i)).0, k);
      if j == k {
        ReadKeeps(op, full, S.At(s, k), clock(i), clock(i));
      }
    }
  }

  lemma {:induction false} BatchKeeps(s: S.Store, cmds: seq<Command>, k: S.Key, full: S.Cell, clock: Clock, tick: nat)
    requires Monotone(clock) && Plain(cmds) && AllAvoid(cmds, k) && CellHidden(full, S.At(s, k), clock(tick))
    ensures var b := RunAll(s, cmds, clock, tick); CellHidden(full, S.At(b.store, k), clock(tick + b.executed))
    decreases |cmds|
  {
    hide ExecCommand, Monotone, S.At, CellHidden, Avoids;
    if cmds != [] {
      var n := |cmds| - 1;
      BatchKeeps(s, cmds[..n], k, full, clock, tick);
      var b := RunAll(s, cmds[..n], clock, tick);
      if b.error.None? {
        ExecKeeps(b.store, cmds[n], k, full, clock, tick + b.executed);
      }
    }
  }

  lemma DispatchKeeps(st: Session, c: Command, k: S.Key, full: S.Cell, clock: Clock)
    requires Monotone(clock) && TxValid(st.tx) && AllAvoid(st.tx.queue, k) && Avoids(c, k)
    requires CellHidden(full, S.At(st.store, k), clock(st.tick))
    ensures var next := Dispatch(st, c, clock).0;
      CellHidden(full, S.At(next.store, k), clock(next.tick)) && AllAvoid(next.tx.queue, k)
  {
    hide ExecCommand, RunAll, Monotone, S.At, CellHidden, Avoids;
    if c.EXEC? {
      BatchKeeps(st.store, st.tx.queue, k, full, clock, st.tick);
    } else if !IsControl(c) {
      ExecKeeps(st.store, c, k, full, clock, st.tick);
    }
  }

  lemma {:induction false} RoundsKeep(s: S.Store, rounds: seq<Round>, k: S.Key, full: S.Cell, t: S.Instant)
    requires CellHidden(full, S.At(s, k), t) && NoLater(rounds, t)
    ensures CellHidden(full, S.At(AfterRounds(s, rounds), k), t)
    decreases |rounds|
  {
    if rounds != [] {
      var gone := Dead(s, rounds[0]);
      RemoveAt(s, gone, k);
      assert k in gone ==> S.Expired(S.At(s, k), t);
      RoundsKeep(Remove(s, gone), rounds[1..], k, full, t);
    }
  }

  /** No client has a write to the key queued, and the key holds the cell, or nothing once the deadline has passed. */
  ghost predicate Undisturbed(w: World, k: S.Key, full: S.Cell, clock: Clock) {
    w.up && CellHidden(full, S.At(w.store, k), clock(w.tick)) && forall id :: AllAvoid(TxOf(w, id).queue, k)
  }

  lemma StepKeeps(w: World, e: Event, k: S.Key, full: S.Cell, clock: Clock)
    requires Monotone(clock) && ClientsValid(w) && Undisturbed(w, k, full, clock) && !e.Restart?
    requires (e.Act? ==> Avoids(e.cmd, k)) && (e.Purge? ==> NoLater(e.rounds, clock(w.tick)))
    ensures Undisturbed(Step(w, e, clock).0, k, full, clock)
  {
    hide Dispatch, AfterRounds, Monotone, S.At, CellHidden, Avoids, AllAvoid, NoLater;
    hide Snapshots.File, Snapshots.ValidSave;
    var next := Step(w, e, clock).0;
    if e.Act? {
      DispatchKeeps(SessionOf(w, e.id), e.cmd, k, full, clock);
    } else if e.Purge? {
      RoundsKeep(w.store, e.rounds, k, full, clock(w.tick));
    }
    forall id ensures AllAvoid(TxOf(next, id).queue, k) {
      assert TxOf(next, id) == TxOf(w, id) || TxOf(next, id) == IDLE || (e.Act? && e.id == id);
      NothingQueued(k);
    }
  }

  lemma NothingQueued(k: S.Key)
    ensures AllAvoid(IDLE.queue, k)
  {
  }

  ghost predicate EventsAvoid(events: seq<Event>, k: S.Key) {
    forall i :: 0 <= i < |events| && events[i].Act? ==> Avoids(events[i].cmd, k)
  }

  lemma {:induction false} RunKeeps(w: World, events: seq<Event>, k: S.Key, full: S.Cell, clock: Clock)
    requires Monotone(clock) && ClientsValid(w) && Undisturbed(w, k, full, clock)
    requires NoRestart(events) && EventsAvoid(events, k) && OnTime(w, events, clock)
    ensures Undisturbed(Run(w, events, clock).0, k, full, clock)
    decreases |events|
  {
    hide Step, Monotone, Undisturbed, ClientsValid, NoLater, Avoids;
    if events != [] {
      var init := events[..|events| - 1];
      RunKeeps(w, init, k, full, clock);
      StepKeeps(Run(w, init, clock).0, events[|events| - 1], k, full, clock);
    }
  }

  lemma GetHidden(s: S.Store, k: S.Key, v: Bytes, e: Option<S.Instant>, t: S.Instant, now: S.Instant)
    requires CellHidden(S.Cell(Some(S.Str(v)), e), S.At(s, k), t) && t <= now
    ensures ExecCommand(s, GET(k), now).1 == Success(BulkString(if e.Some? && e.value < now then NIL else v))
  {
  }

  /** What a client has set. */
  ghost function AfterSet(w: World, id: nat, k: S.Key, v: Bytes, e: Option<S.Instant>, clock: Clock): (r: World)
    requires ClientsValid(w)
    ensures ClientsValid(r)
  {
    StepClients(w, Act(id, SET(k, v, e)), clock);
    Step(w, Act(id, SET(k, v, e)), clock).0
  }

  lemma SetHolds(w: World, id: nat, k: S.Key, v: Bytes, e: Option<S.Instant>, clock: Clock)
    requires ClientsValid(w) && w.up && TxOf(w, id) == IDLE && forall j :: AllAvoid(TxOf(w, j).queue, k)
    ensures Undisturbed(AfterSet(w, id, k, v, e, clock), k, S.Cell(Some(S.Str(v)), e), clock)
  {
    hide ExecCommand, Step, AllAvoid;
    DirectAct(w, id, SET(k, v, e), clock);
    SetStores(w.store, k, v, e, clock(w.tick));
    var next := AfterSet(w, id, k, v, e, clock);
    forall j ensures AllAvoid(TxOf(next, j).queue, k) {
      NothingQueued(k);
      assert TxOf(next, j) == TxOf(w, j) || TxOf(next, j) == IDLE;
    }
  }

  lemma SetStores(s: S.Store, k: S.Key, v: Bytes, e: Option<S.Instant>, now: S.Instant)
    ensures S.At(ExecCommand(s, SET(k, v, e), now).0, k) == S.Cell(Some(S.Str(v)), e)
  {
    S.PutAt(s, k, S.Cell(Some(S.Str(v)), e), k);
  }

  /**
   A value set by one client is what any client reads, until its deadline has passed and `nil` from then on,
   whatever else happens in between: other keys written by anybody, this one read by anybody, transactions,
   cycles, connections closed, snapshots.
   */
  lemma SetThenGet(w: World, id: nat, k: S.Key, v: Bytes, e: Option<S.Instant>, events: seq<Event>,
      reader: nat, clock: Clock)
    requires Monotone(clock) && ClientsValid(w) && w.up && TxOf(w, id) == IDLE
    requires forall j :: AllAvoid(TxOf(w, j).queue, k)
    requires NoRestart(events) && EventsAvoid(events, k)
    requires OnTime(AfterSet(w, id, k, v, e, clock), events, clock)
    requires var end := Run(AfterSet(w, id, k, v, e, clock), events, clock).0; TxOf(end, reader) == IDLE
    ensures var end := Run(AfterSet(w, id, k, v, e, clock), events, clock).0;
      Step(end, Act(reader, GET(k)), clock).1 ==
        [Delivery(reader, Success(BulkString(if e.Some? && e.value < clock(end.tick) then NIL else v)))]
  {
    hide Run, Step, ExecCommand, AfterSet, OnTime, Monotone, ClientsValid;
    SetHolds(w, id, k, v, e, clock);
    RunKeeps(AfterSet(w, id, k, v, e, clock), events, k, S.Cell(Some(S.Str(v)), e), clock);
    var end := Run(AfterSet(w, id, k, v, e, clock), events, clock).0;
    GetHidden(end.store, k, v, e, clock(end.tick), clock(end.tick));
    DirectAct(end, reader, GET(k), clock);
  }
}
