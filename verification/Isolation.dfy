/** An open transaction among other clients: until EXEC nobody sees it, and EXEC acts on what it finds. */
module Isolation {
  import opened ByteStrings
  import opened RespTypes
  import opened Commands
  import opened Dispatcher
  import opened Expiration
  import opened Worlds
  import Sessions
  import Snapshots

  predicate By(e: Event, id: nat) {
    e.Act? && e.id == id
  }

  /** The client only queues; the others do anything, with cycles and snapshots, but the server stays up. */
  predicate KeepsOpen(e: Event, id: nat) {
    !e.Restart? && e != Leave(id) && (By(e, id) ==> !IsControl(e.cmd))
  }

  ghost predicate StaysOpen(events: seq<Event>, id: nat) {
    forall i :: 0 <= i < |events| ==> KeepsOpen(events[i], id)
  }

  /** The commands of a client, in order. */
  function Mine(events: seq<Event>, id: nat): seq<Command>
    decreases |events|
  {
    if events == [] then []
    else
      var e := events[|events| - 1];
      Mine(events[..|events| - 1], id) + (if By(e, id) then [e.cmd] else [])
  }

  /** What happens besides them. */
  function Others(events: seq<Event>, id: nat): seq<Event>
    decreases |events|
  {
    if events == [] then []
    else
      var e := events[|events| - 1];
      Others(events[..|events| - 1], id) + (if By(e, id) then [] else [e])
  }

  /** The replies to a client. */
  function RepliesTo(ds: seq<Delivery>, id: nat): seq<Result<RespType>> {
    if ds == [] then []
    else
      var d := ds[|ds| - 1];
      RepliesTo(ds[..|ds| - 1], id) + (if d.id == id then [d.result] else [])
  }

  function RepliesBesides(ds: seq<Delivery>, id: nat): seq<Delivery> {
    if ds == [] then []
    else
      var d := ds[|ds| - 1];
      RepliesBesides(ds[..|ds| - 1], id) + (if d.id == id then [] else [d])
  }

  lemma RepliesSnoc(ds: seq<Delivery>, d: Delivery, id: nat)
    ensures RepliesTo(ds + [d], id) == RepliesTo(ds, id) + (if d.id == id then [d.result] else [])
    ensures RepliesBesides(ds + [d], id) == RepliesBesides(ds, id) + (if d.id == id then [] else [d])
  {
    assert (ds + [d])[..|ds|] == ds;
  }

  /** Worlds that differ at most in the transaction of one client. */
  ghost predicate AlikeBut(a: World, b: World, id: nat) {
    && a.up == b.up && a.store == b.store && a.tick == b.tick && a.disk == b.disk
    && forall other :: other != id ==> TxOf(a, other) == TxOf(b, other)
  }

  /** What a client does goes by its own transaction only, is answered to it, and leaves those of the others. */
  lemma ActLaw(w: World, id: nat, c: Command, clock: Clock, other: nat)
    requires ClientsValid(w) && w.up
    ensures var d, r := Dispatch(SessionOf(w, id), c, clock), Step(w, Act(id, c), clock);
      && r.1 == [Delivery(id, d.1)]
      && SessionOf(r.0, id) == d.0 && r.0.up && r.0.disk == w.disk
      && (other != id ==> TxOf(r.0, other) == TxOf(w, other))
  {
    hide Dispatch;
  }

  lemma QueuedStep(w: World, q: seq<Command>, id: nat, c: Command, clock: Clock)
    requires ClientsValid(w) && w.up && TxOf(w, id) == Tx(true, q) && !IsControl(c)
    ensures var r := Step(w, Act(id, c), clock);
      && AlikeBut(r.0, w, id) && TxOf(r.0, id) == Tx(true, q + [c])
      && r.1 == [Delivery(id, Success(SimpleString(Ascii("QUEUED"))))]
  {
    assert Ascii("QUEUED") == QUEUED;
    assert Dispatch(SessionOf(w, id), c, clock) ==
      (SessionOf(w, id).(tx := Tx(true, q + [c])), Success(SimpleString(QUEUED)));
    hide Dispatch;
    var r := Step(w, Act(id, c), clock);
    forall other | other != id ensures TxOf(r.0, other) == TxOf(w, other) {
      ActLaw(w, id, c, clock, other);
    }
    ActLaw(w, id, c, clock, id);
  }

  lemma OtherStep(a: World, b: World, id: nat, e: Event, clock: Clock)
    requires ClientsValid(a) && ClientsValid(b) && AlikeBut(a, b, id) && a.up
    requires KeepsOpen(e, id) && !By(e, id)
    ensures var x, y := Step(a, e, clock), Step(b, e, clock);
      && AlikeBut(x.0, y.0, id) && x.0.up && TxOf(x.0, id) == TxOf(a, id) && TxOf(y.0, id) == TxOf(b, id)
      && x.1 == y.1 && |x.1| <= 1 && (x.1 != [] ==> x.1[0].id != id)
  {
    hide Dispatch, AfterRounds, Snapshots.ValidSave, Snapshots.File;
    if e.Act? {
      assert SessionOf(a, e.id) == SessionOf(b, e.id);
    }
    var x, y := Step(a, e, clock).0, Step(b, e, clock).0;
    forall other | other != id ensures TxOf(x, other) == TxOf(y, other) {
      assert TxOf(a, other) == TxOf(b, other);
    }
  }

  /** What the others see, and the client's own state and replies, while its transaction is open. */
  ghost predicate Hidden(a: (World, seq<Delivery>), b: (World, seq<Delivery>), queue: seq<Command>, id: nat) {
    && AlikeBut(a.0, b.0, id) && a.0.up && TxOf(a.0, id) == Tx(true, queue) && TxOf(b.0, id) == IDLE
    && RepliesBesides(a.1, id) == b.1
    && RepliesTo(a.1, id) == [Success(SimpleString(Ascii("Ok")))] + Sessions.QueuedReplies(|queue|)
  }

  lemma Opened(w: World, id: nat, clock: Clock)
    requires ClientsValid(w) && w.up && TxOf(w, id) == IDLE
    ensures Hidden(Run(w, [Act(id, MULTI)], clock), Run(w, [], clock), [], id)
  {
    hide Dispatch;
    Sessions.MultiLaw(SessionOf(w, id), clock);
    assert Run(w, [], clock) == (w, []);
    RunSnoc(w, [], Act(id, MULTI), clock);
    assert [] + [Act(id, MULTI)] == [Act(id, MULTI)];
    hide Run;
    ActLaw(w, id, MULTI, clock, id);
    var next := Step(w, Act(id, MULTI), clock).0;
    forall other | other != id ensures TxOf(next, other) == TxOf(w, other) {
      ActLaw(w, id, MULTI, clock, other);
    }
    RepliesSnoc([], Delivery(id, Success(SimpleString(Ascii("Ok")))), id);
  }

  lemma HiddenMine(a: (World, seq<Delivery>), b: (World, seq<Delivery>), queue: seq<Command>, id: nat, c: Command,
      clock: Clock)
    requires ClientsValid(a.0) && Hidden(a, b, queue, id) && !IsControl(c)
    ensures var d := Step(a.0, Act(id, c), clock); Hidden((d.0, a.1 + d.1), b, queue + [c], id)
  {
    hide Step, TxOf, Sessions.QueuedReplies, Ascii;
    QueuedStep(a.0, queue, id, c, clock);
    AlikeChain(Step(a.0, Act(id, c), clock).0, a.0, b.0, id);
    RepliesSnoc(a.1, Delivery(id, Success(SimpleString(Ascii("QUEUED")))), id);
    OneMoreQueued(|queue|);
  }

  lemma HiddenOther(a: (World, seq<Delivery>), b: (World, seq<Delivery>), queue: seq<Command>, id: nat, e: Event,
      clock: Clock)
    requires ClientsValid(a.0) && ClientsValid(b.0) && Hidden(a, b, queue, id) && KeepsOpen(e, id) && !By(e, id)
    ensures var x, y := Step(a.0, e, clock), Step(b.0, e, clock);
      Hidden((x.0, a.1 + x.1), (y.0, b.1 + y.1), queue, id)
  {
    hide Step, TxOf, Sessions.QueuedReplies, Ascii;
    OtherStep(a.0, b.0, id, e, clock);
    var ds := Step(a.0, e, clock).1;
    if ds == [] {
      assert a.1 + ds == a.1 && b.1 + ds == b.1;
    } else {
      assert ds == [ds[0]];
      RepliesSnoc(a.1, ds[0], id);
    }
  }

  /**
   A client opens a transaction and queues commands while others do anything: its replies are Ok and QUEUED,
   and the others, the store and the snapshot on disk are as if it had done nothing.
   */
  lemma {:induction false} UnseenUntilExec(w: World, events: seq<Event>, id: nat, clock: Clock)
    requires ClientsValid(w) && w.up && TxOf(w, id) == IDLE && StaysOpen(events, id)
    ensures Hidden(Run(w, [Act(id, MULTI)] + events, clock), Run(w, Others(events, id), clock), Mine(events, id), id)
    decreases |events|
  {
    hide Run, Step, TxOf, Hidden;
    if events == [] {
      Opened(w, id, clock);
      assert [Act(id, MULTI)] + events == [Act(id, MULTI)];
    } else {
      var init, e := events[..|events| - 1], events[|events| - 1];
      assert [Act(id, MULTI)] + events == [Act(id, MULTI)] + init + [e];
      UnseenUntilExec(w, init, id, clock);
      var a, b := Run(w, [Act(id, MULTI)] + init, clock), Run(w, Others(init, id), clock);
      RunSnoc(w, [Act(id, MULTI)] + init, e, clock);
      if By(e, id) {
        assert e == Act(id, e.cmd);
        HiddenMine(a, b, Mine(init, id), id, e.cmd, clock);
        assert Others(events, id) == Others(init, id);
      } else {
        HiddenOther(a, b, Mine(init, id), id, e, clock);
        RunSnoc(w, Others(init, id), e, clock);
        assert Mine(events, id) == Mine(init, id);
      }
    }
  }

  lemma AlikeChain(a: World, b: World, c: World, id: nat)
    requires AlikeBut(a, b, id) && AlikeBut(b, c, id)
    ensures AlikeBut(a, c, id)
  {
  }

  lemma OneMoreQueued(n: nat)
    ensures Sessions.QueuedReplies(n + 1) == Sessions.QueuedReplies(n) + [Success(SimpleString(Ascii("QUEUED")))]
  {
  }

  lemma {:induction false} MinePlain(events: seq<Event>, id: nat)
    requires StaysOpen(events, id)
    ensures Plain(Mine(events, id))
    decreases |events|
  {
    if events != [] {
      MinePlain(events[..|events| - 1], id);
    }
  }

  /**
   MULTI, commands and EXEC with anything of the others in between: EXEC answers and leaves what the
   same transaction does when its client has the server, as the others made it, to itself.
   */
  lemma TransactionAmongOthers(w: World, events: seq<Event>, id: nat, clock: Clock)
    requires ClientsValid(w) && w.up && TxOf(w, id) == IDLE && StaysOpen(events, id)
    ensures Plain(Mine(events, id))
    ensures var run := Run(w, [Act(id, MULTI)] + events + [Act(id, EXEC)], clock);
      var alone := Run(w, Others(events, id), clock);
      var tx := Sessions.Transaction(SessionOf(alone.0, id), Mine(events, id), clock);
      && SessionOf(run.0, id) == tx.0
      && (forall other :: other != id ==> TxOf(run.0, other) == TxOf(alone.0, other))
      && RepliesBesides(run.1, id) == alone.1
      && RepliesTo(run.1, id) ==
           [Success(SimpleString(Ascii("Ok")))] + Sessions.QueuedReplies(|Mine(events, id)|) + [tx.1]
  {
    hide Run, Step, Dispatch, Execute, Sessions.Transaction, TxOf, Sessions.QueuedReplies, Ascii, Mine, Others;
    var cmds, begun := Mine(events, id), [Act(id, MULTI)] + events;
    MinePlain(events, id);
    UnseenUntilExec(w, events, id, clock);
    var open, alone := Run(w, begun, clock), Run(w, Others(events, id), clock);
    RunSnoc(w, begun, Act(id, EXEC), clock);
    var st := SessionOf(alone.0, id);
    assert SessionOf(open.0, id) == st.(tx := Tx(true, cmds));
    Sessions.TransactionIsBatch(st, cmds, clock);
    Sessions.ExecRuns(st.(tx := Tx(true, cmds)), clock);
    var tx := Sessions.Transaction(st, cmds, clock);
    var end := Step(open.0, Act(id, EXEC), clock).0;
    forall other ensures other != id ==> TxOf(end, other) == TxOf(alone.0, other) {
      ActLaw(open.0, id, EXEC, clock, other);
    }
    ActLaw(open.0, id, EXEC, clock, id);
    RepliesSnoc(open.1, Delivery(id, tx.1), id);
  }
}
