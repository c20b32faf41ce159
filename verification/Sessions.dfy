/** A client on its own: what errors leave behind, and transactions against commands sent directly. */
module Sessions {
  import opened ByteStrings
  import opened RespTypes
  import opened Commands
  import opened Dispatcher
  import S = Store

  // ---- Runs ----

  /** The session after a run of commands, and the replies in order. */
  ghost function Run(st: Session, cmds: seq<Command>, clock: Clock): (r: (Session, seq<Result<RespType>>))
    requires TxValid(st.tx)
    ensures TxValid(r.0.tx)
    decreases |cmds|
  {
    if cmds == [] then (st, [])
    else
      var before := Run(st, cmds[..|cmds| - 1], clock);
      var d := Dispatch(before.0, cmds[|cmds| - 1], clock);
      (d.0, before.1 + [d.1])
  }

  lemma RunNone(st: Session, clock: Clock)
    requires TxValid(st.tx)
    ensures Run(st, [], clock) == (st, [])
  {
  }

  lemma RunSnoc(st: Session, cmds: seq<Command>, c: Command, clock: Clock)
    requires TxValid(st.tx)
    ensures var before := Run(st, cmds, clock);
            var d := Dispatch(before.0, c, clock);
            Run(st, cmds + [c], clock) == (d.0, before.1 + [d.1])
  {
    hide Dispatch;
    assert (cmds + [c])[..|cmds|] == cmds;
  }

  lemma {:induction false} RunAppend(st: Session, a: seq<Command>, b: seq<Command>, clock: Clock)
    requires TxValid(st.tx)
    ensures var first := Run(st, a, clock);
            var second := Run(first.0, b, clock);
            Run(st, a + b, clock) == (second.0, first.1 + second.1)
    decreases |b|
  {
    hide Dispatch, Run;
    if b == [] {
      assert a + b == a;
      RunNone(Run(st, a, clock).0, clock);
      assert Run(st, a, clock).1 + [] == Run(st, a, clock).1;
    } else {
      var init, c := b[..|b| - 1], b[|b| - 1];
      assert b == init + [c] && a + b == a + init + [c];
      RunAppend(st, a, init, clock);
      RunSnoc(st, a + init, c, clock);
      RunSnoc(Run(st, a, clock).0, init, c, clock);
      var first, second := Run(st, a, clock), Run(Run(st, a, clock).0, init, clock);
      var reply := Dispatch(second.0, c, clock).1;
      assert first.1 + second.1 + [reply] == first.1 + (second.1 + [reply]);
    }
  }

  // ---- Errors ----

  lemma CellOpError(op: S.Op, c: S.Cell, now: S.Instant)
    requires S.CellOp(op, c, now).1.Err?
    ensures S.CellOp(op, c, now).0 == c
  {
    hide S.Range;
  }

  /** A command that fails has not touched the maps. */
  lemma ErrorsChangeNothing(s: S.Store, c: Command, now: S.Instant)
    requires !IsControl(c) && ExecCommand(s, c, now).1.Failure?
    ensures ExecCommand(s, c, now).0 == s
  {
    var k, op := StoreOp(c).key, StoreOp(c).op;
    var r := S.CellOp(op, S.At(s, k), now);
    S.PutSame(s, k);
    if r.1.Err? {
      CellOpError(op, S.At(s, k), now);
    } else {
      hide S.Range, S.Put;
      assert op.Get? && r.0 == S.At(s, k);
    }
  }

  /**
   Of the dispatched commands only EXEC can fail with the maps changed: it keeps what ran before the
   failing command.
   */
  lemma DispatchErrors(st: Session, c: Command, clock: Clock)
    requires TxValid(st.tx) && Dispatch(st, c, clock).1.Failure?
    ensures !c.EXEC? ==> Dispatch(st, c, clock).0.store == st.store
    ensures c.EXEC? ==>
      var j := |RunAll(st.store, st.tx.queue, clock, st.tick).replies|;
      && j < |st.tx.queue|
      && RunAll(st.store, st.tx.queue[..j], clock, st.tick).error.None?
      && Dispatch(st, c, clock).0.store == RunAll(st.store, st.tx.queue[..j], clock, st.tick).store
      && Dispatch(st, c, clock).0.tx == st.tx
  {
    hide ExecCommand, RunAll;
    if c.EXEC? {
      FirstError(st.store, st.tx.queue, clock, st.tick);
    } else if !IsControl(c) {
      ErrorsChangeNothing(st.store, c, clock(st.tick));
    }
  }

  /** The failing command of a batch, and the store it left behind. */
  lemma {:induction false} FirstError(s: S.Store, cmds: seq<Command>, clock: Clock, tick: nat)
    requires Plain(cmds) && RunAll(s, cmds, clock, tick).error.Some?
    ensures var b := RunAll(s, cmds, clock, tick);
      var j := |b.replies|;
      && j < |cmds|
      && var before := RunAll(s, cmds[..j], clock, tick);
      && before.error.None? && before.replies == b.replies && before.store == b.store
      && ExecCommand(before.store, cmds[j], clock(tick + j)) == (before.store, Failure(b.error.value))
    decreases |cmds|
  {
    hide ExecCommand;
    var n := |cmds| - 1;
    var b := RunAll(s, cmds[..n], clock, tick);
    if b.error.Some? {
      FirstError(s, cmds[..n], clock, tick);
      assert cmds[..n][..|b.replies|] == cmds[..|b.replies|];
    } else {
      RunAllExecuted(s, cmds[..n], clock, tick);
      ErrorsChangeNothing(b.store, cmds[n], clock(tick + b.executed));
    }
  }

  /** An EXEC that fails after changing the maps: SET k, then LPUSH on the string it made. */
  lemma ExecCanFailHalfway(k: S.Key, v: Bytes, clock: Clock)
    ensures var st := Session(Tx(true, [SET(k, v, None), LPUSH(k, [v])]), S.EMPTY, 0);
      && TxValid(st.tx)
      && Dispatch(st, EXEC, clock).1.Failure?
      && Dispatch(st, EXEC, clock).0.store != S.EMPTY
      && Dispatch(st, EXEC, clock).0.tx == st.tx
  {
    var q := [SET(k, v, None), LPUSH(k, [v])];
    assert q[..1] == [SET(k, v, None)] && q[..1][..0] == [];
    assert RunAll(S.EMPTY, q[..1][..0], clock, 0) == Batch(S.EMPTY, [], None, 0);
    assert RunAll(S.EMPTY, q[..1], clock, 0).error.None?;
    assert S.At(RunAll(S.EMPTY, q[..1], clock, 0).store, k).value == Some(S.Str(v));
  }

  // ---- Transactions ----

  function Successes(vs: seq<RespType>): seq<Result<RespType>> {
    seq(|vs|, i requires 0 <= i < |vs| => Success(vs[i]))
  }

  function QueuedReplies(n: nat): seq<Result<RespType>> {
    seq(n, _ => Success(SimpleString(Ascii("QUEUED"))))
  }

  /** Inside a transaction commands are queued, in order, and touch nothing else. */
  lemma {:induction false} Queueing(st: Session, cmds: seq<Command>, clock: Clock)
    requires TxValid(st.tx) && st.tx.inTransaction && Plain(cmds)
    ensures Run(st, cmds, clock) ==
            (st.(tx := Tx(true, st.tx.queue + cmds)), QueuedReplies(|cmds|))
    decreases |cmds|
  {
    if cmds == [] {
      assert st.tx.queue + cmds == st.tx.queue;
      assert QueuedReplies(0) == [];
    } else {
      hide Run, Execute;
      var n := |cmds| - 1;
      Queueing(st, cmds[..n], clock);
      RunSnoc(st, cmds[..n], cmds[n], clock);
      assert cmds == cmds[..n] + [cmds[n]];
      assert st.tx.queue + cmds[..n] + [cmds[n]] == st.tx.queue + cmds;
      assert Ascii("QUEUED") == QUEUED;
      assert QueuedReplies(n) + [Success(SimpleString(QUEUED))] == QueuedReplies(|cmds|);
    }
  }

  lemma DirectStep(st: Session, c: Command, clock: Clock)
    requires st.tx == IDLE && !IsControl(c)
    ensures Dispatch(st, c, clock) ==
            var r := ExecCommand(st.store, c, clock(st.tick)); (Session(IDLE, r.0, st.tick + 1), r.1)
  {
    hide ExecCommand, RunAll;
  }

  /** Outside a transaction commands run one by one, as a batch does until it fails. */
  lemma {:induction false} Direct(st: Session, cmds: seq<Command>, clock: Clock)
    requires st.tx == IDLE && Plain(cmds) && RunAll(st.store, cmds, clock, st.tick).error.None?
    ensures var b := RunAll(st.store, cmds, clock, st.tick);
            Run(st, cmds, clock) == (Session(IDLE, b.store, st.tick + |cmds|), Successes(b.replies))
    decreases |cmds|
  {
    hide Run, Dispatch, RunAll, ExecCommand;
    if cmds == [] {
      DirectNone(st, clock);
    } else {
      var n := |cmds| - 1;
      assert cmds == cmds[..n] + [cmds[n]];
      BatchSnoc(st.store, cmds[..n], cmds[n], clock, st.tick);
      Direct(st, cmds[..n], clock);
      DirectSnoc(st, cmds[..n], cmds[n], clock);
    }
  }

  lemma DirectNone(st: Session, clock: Clock)
    requires TxValid(st.tx)
    ensures RunAll(st.store, [], clock, st.tick) == Batch(st.store, [], None, 0)
    ensures Run(st, [], clock) == (st, Successes([]))
  {
    assert Successes([]) == [];
  }

  lemma BatchSnoc(s: S.Store, cmds: seq<Command>, c: Command, clock: Clock, tick: nat)
    requires Plain(cmds) && !IsControl(c)
    ensures RunAll(s, cmds + [c], clock, tick) ==
            var b := RunAll(s, cmds, clock, tick);
            if b.error.Some? then b
            else
              var r := ExecCommand(b.store, c, clock(tick + |cmds|));
              match r.1
              case Success(v) => Batch(r.0, b.replies + [v], None, |cmds| + 1)
              case Failure(e) => Batch(r.0, b.replies, Some(e), |cmds| + 1)
  {
    hide ExecCommand;
    assert (cmds + [c])[..|cmds|] == cmds;
    RunAllExecuted(s, cmds, clock, tick);
  }

  lemma SuccessesSnoc(vs: seq<RespType>, v: RespType)
    ensures Successes(vs + [v]) == Successes(vs) + [Success(v)]
  {
  }

  lemma DirectSnoc(st: Session, cmds: seq<Command>, c: Command, clock: Clock)
    requires st.tx == IDLE && Plain(cmds) && !IsControl(c)
    requires RunAll(st.store, cmds + [c], clock, st.tick).error.None?
    requires var b := RunAll(st.store, cmds, clock, st.tick);
      b.error.None? && Run(st, cmds, clock) == (Session(IDLE, b.store, st.tick + |cmds|), Successes(b.replies))
    ensures var b := RunAll(st.store, cmds + [c], clock, st.tick);
      Run(st, cmds + [c], clock) == (Session(IDLE, b.store, st.tick + |cmds| + 1), Successes(b.replies))
  {
    hide Run, Dispatch, RunAll, ExecCommand, Successes;
    var b := RunAll(st.store, cmds, clock, st.tick);
    BatchSnoc(st.store, cmds, c, clock, st.tick);
    RunSnoc(st, cmds, c, clock);
    DirectStep(Session(IDLE, b.store, st.tick + |cmds|), c, clock);
    SuccessesSnoc(b.replies, ExecCommand(b.store, c, clock(st.tick + |cmds|)).1.value);
  }

  /** The session and the last reply of MULTI, the commands, EXEC. */
  ghost function Transaction(st: Session, cmds: seq<Command>, clock: Clock): (Session, Result<RespType>)
    requires TxValid(st.tx)
  {
    var r := Run(st, [MULTI] + cmds + [EXEC], clock);
    (r.0, if |r.1| == 0 then Failure([]) else r.1[|r.1| - 1])
  }

  /** A transaction is its batch, run by EXEC. */
  lemma TransactionIsBatch(st: Session, cmds: seq<Command>, clock: Clock)
    requires st.tx == IDLE && Plain(cmds)
    ensures Transaction(st, cmds, clock) == Execute(st.(tx := Tx(true, cmds)), EXEC, clock)
  {
    hide Run, Execute, Dispatch;
    var started := st.(tx := Tx(true, []));
    MultiOpens(st, clock);
    Queueing(started, cmds, clock);
    RunAppend(st, [MULTI], cmds, clock);
    assert [] + cmds == cmds;
    RunSnoc(st, [MULTI] + cmds, EXEC, clock);
    ExecRuns(st.(tx := Tx(true, cmds)), clock);
  }

  lemma MultiOpens(st: Session, clock: Clock)
    requires st.tx == IDLE
    ensures Run(st, [MULTI], clock).0 == st.(tx := Tx(true, []))
  {
    hide Run;
    RunNone(st, clock);
    assert [] + [MULTI] == [MULTI];
    RunSnoc(st, [], MULTI, clock);
  }

  lemma ExecRuns(st: Session, clock: Clock)
    requires TxValid(st.tx)
    ensures Dispatch(st, EXEC, clock) == Execute(st, EXEC, clock)
  {
    hide Execute;
  }

  ghost predicate AllSucceed(replies: seq<Result<RespType>>) {
    forall i :: 0 <= i < |replies| ==> replies[i].Success?
  }

  /**
   MULTI, c1 .. cn, EXEC against c1 .. cn sent directly at the same clock readings. If all succeed, the
   sessions end equal and EXEC returns the direct replies as one array. Otherwise EXEC fails with the
   first failing command's error, the store is the one the commands before it leave, and the client
   stays in the transaction with its queue.
   */
  lemma TransactionLaw(st: Session, cmds: seq<Command>, clock: Clock)
    requires st.tx == IDLE && Plain(cmds)
    ensures var direct, tx := Run(st, cmds, clock), Transaction(st, cmds, clock);
      if AllSucceed(direct.1) then
        tx.0 == direct.0 && exists replies :: tx.1 == Success(Array(replies)) && direct.1 == Successes(replies)
      else
        exists j :: 0 <= j < |cmds| && j < |direct.1|
          && AllSucceed(direct.1[..j]) && direct.1[j].Failure?
          && tx.1 == Failure(QUEUE_FAILED + direct.1[j].error)
          && tx.0.store == Run(st, cmds[..j], clock).0.store
          && tx.0.tx == Tx(true, cmds)
  {
    hide Run, ExecCommand, RunAll, Transaction;
    TransactionIsBatch(st, cmds, clock);
    var b := RunAll(st.store, cmds, clock, st.tick);
    RunAllExecuted(st.store, cmds, clock, st.tick);
    if b.error.None? {
      Direct(st, cmds, clock);
      assert AllSucceed(Successes(b.replies));
    } else {
      DirectFailure(st, cmds, clock);
    }
  }

  lemma DirectFailure(st: Session, cmds: seq<Command>, clock: Clock)
    requires st.tx == IDLE && Plain(cmds) && RunAll(st.store, cmds, clock, st.tick).error.Some?
    ensures var b := RunAll(st.store, cmds, clock, st.tick);
      var direct, j := Run(st, cmds, clock), |b.replies|;
      && j < |cmds| && j < |direct.1|
      && AllSucceed(direct.1[..j]) && direct.1[j] == Failure(b.error.value)
      && b.store == Run(st, cmds[..j], clock).0.store
  {
    hide Run, ExecCommand, RunAll, Dispatch;
    FirstError(st.store, cmds, clock, st.tick);
    var b := RunAll(st.store, cmds, clock, st.tick);
    var j := |b.replies|;
    Direct(st, cmds[..j], clock);
    DirectStep(Session(IDLE, b.store, st.tick + j), cmds[j], clock);
    RunPrefix(st, cmds, j, clock);
    assert AllSucceed(Successes(b.replies));
  }

  /** The replies of a run start with those of a prefix and the next command's. */
  lemma RunPrefix(st: Session, cmds: seq<Command>, j: nat, clock: Clock)
    requires TxValid(st.tx) && j < |cmds|
    ensures var before, all := Run(st, cmds[..j], clock), Run(st, cmds, clock);
      && |before.1| < |all.1| && all.1[..|before.1|] == before.1
      && all.1[|before.1|] == Dispatch(before.0, cmds[j], clock).1
  {
    hide Run, Dispatch;
    RunSnoc(st, cmds[..j], cmds[j], clock);
    assert cmds == cmds[..j] + [cmds[j]] + cmds[j + 1..];
    RunAppend(st, cmds[..j] + [cmds[j]], cmds[j + 1..], clock);
  }

  // ---- DISCARD and nested MULTI ----

  /** DISCARD leaves any client idle and touches nothing else. */
  lemma DiscardForgets(st: Session, clock: Clock)
    requires TxValid(st.tx)
    ensures Dispatch(st, DISCARD, clock) == (st.(tx := Tx(false, [])), Success(SimpleString(Ascii("Ok"))))
  {
    assert Ascii("Ok") == OK;
  }

  /** MULTI opens an empty transaction; inside one it is refused and changes nothing. */
  lemma MultiLaw(st: Session, clock: Clock)
    requires TxValid(st.tx)
    ensures Dispatch(st, MULTI, clock) ==
      if st.tx.inTransaction then (st, Failure(Ascii("Can not nest multi")))
      else (st.(tx := Tx(true, [])), Success(SimpleString(Ascii("Ok"))))
  {
    assert Ascii("Ok") == OK;
  }

  /** EXEC without MULTI runs nothing. */
  lemma ExecIdle(st: Session, clock: Clock)
    requires TxValid(st.tx) && !st.tx.inTransaction
    ensures Dispatch(st, EXEC, clock) == (st, Success(Array([])))
  {
  }

  /**
   MULTI, any commands, DISCARD: the session is exactly what it was, and the replies are Ok, QUEUED for each
   command, and Ok.
   */
  lemma DiscardedTransaction(st: Session, cmds: seq<Command>, clock: Clock)
    requires st.tx == IDLE && Plain(cmds)
    ensures var ok := Success(SimpleString(Ascii("Ok")));
      Run(st, [MULTI] + cmds + [DISCARD], clock) == (st, [ok] + QueuedReplies(|cmds|) + [ok])
  {
    hide Run, Dispatch, QueuedReplies, Ascii;
    var open := st.(tx := Tx(true, []));
    RunNone(st, clock);
    assert [] + [MULTI] == [MULTI];
    RunSnoc(st, [], MULTI, clock);
    MultiLaw(st, clock);
    Queueing(open, cmds, clock);
    assert [] + cmds == cmds;
    RunAppend(st, [MULTI], cmds, clock);
    RunSnoc(st, [MULTI] + cmds, DISCARD, clock);
    DiscardForgets(st.(tx := Tx(true, cmds)), clock);
    assert [] + [Success(SimpleString(Ascii("Ok")))] == [Success(SimpleString(Ascii("Ok")))];
  }
}
