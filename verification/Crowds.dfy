/**
 Any number of pushes and checks on live values: each of them takes effect in one map call, so they are
 serialisable.
 */
module Crowds {
  import opened ByteStrings
  import opened Store
  import opened Interleaving
  import Races

  /** A push on a key that has a value, or a check on one that has a value and is not past its deadline. */
  predicate Lively(s: Store, j: Job) {
    && At(s, j.key).value.Some?
    && (Races.Pushes(j.op) || (Checks(j.op) && !Expired(At(s, j.key), j.now)))
  }

  /** Clients about to begin, with one such operation each, on any keys. */
  ghost predicate Crowd(cfg: Config) {
    forall i :: 0 <= i < |cfg.clients| ==>
      var c := cfg.clients[i];
      |c.todo| == 1 && c == Begin(c.todo, []) && Lively(cfg.store, c.todo[0])
  }

  /** Before the one call that matters. */
  predicate Undecided(op: Op, pc: Pc) {
    (Races.Pushes(op) && pc == PushEntry) || (Checks(op) && Races.Looking(op, pc))
  }

  /** A call of an operation on a live value does all of it, or nothing but come closer. */
  lemma CallDecides(c: Cell, j: Job, pc: Pc)
    requires c.value.Some? && Undecided(j.op, pc) && (Checks(j.op) ==> !Expired(c, j.now))
    ensures var r, whole := Call(c, j.op, j.now, pc), CellOp(j.op, c, j.now);
      && r.0.value.Some? && r.0.deadline == c.deadline
      && (if r.1.Finished? then r == (whole.0, Finished(whole.1)) else r.0 == c && Undecided(j.op, r.1))
  {
    hide Range, PushCell;
    if Checks(j.op) {
      Races.CheckIs(j.op, c, j.now);
    } else {
      Races.PushIs(j.op, c, j.now);
    }
  }

  /** The client still has its job to do and has not reached the call that matters. */
  predicate Waiting(before: Client, now: Client) {
    |before.todo| == 1 && now.todo == before.todo && now.outs == [] && Undecided(now.todo[0].op, now.pc)
  }

  ghost predicate Distinct(order: seq<nat>) {
    forall p, q :: 0 <= p < q < |order| ==> order[p] != order[q]
  }

  /** Key by key the values are there and the deadlines are those of the beginning. */
  ghost predicate StillLive(cfg: Config, s: Store) {
    forall i :: 0 <= i < |cfg.clients| && |cfg.clients[i].todo| == 1 ==>
      var k := cfg.clients[i].todo[0].key;
      At(s, k).value.Some? && At(s, k).deadline == At(cfg.store, k).deadline
  }

  /** The clients of `order` are done as if they had run whole in that order; the others are waiting. */
  ghost predicate Explained(cfg: Config, now: Config, order: seq<nat>) {
    && |now.clients| == |cfg.clients| && Schedule(order, |cfg.clients|) && Distinct(order)
    && now.store == Serial(cfg.store, cfg.clients, order) && StillLive(cfg, now.store)
    && (forall i :: 0 <= i < |cfg.clients| ==>
          if i in order then now.clients[i].todo == [] else Waiting(cfg.clients[i], now.clients[i]))
    && forall p :: 0 <= p < |order| ==>
         now.clients[order[p]].outs == Whole(Serial(cfg.store, cfg.clients, order[..p]), cfg.clients[order[p]].todo).1
  }

  lemma StepOf(s: Store, c: Client, j: Job)
    requires c.todo == [j] && c.outs == []
    ensures var r, out := Call(At(s, j.key), j.op, j.now, c.pc), StepClient(s, c);
      && out.0 == Put(s, j.key, r.0)
      && out.1 == if r.1.Finished? then Client([], Finished(Done), [r.1.out]) else c.(pc := r.1)
  {
    hide Call;
    assert [j][1..] == [];
    var r := Call(At(s, j.key), j.op, j.now, c.pc);
    if r.1.Finished? {
      assert [] + [r.1.out] == [r.1.out];
    }
  }

  lemma LiveAfter(cfg: Config, s: Store, k: Key, c: Cell)
    requires StillLive(cfg, s) && c.value.Some? && c.deadline == At(s, k).deadline
    ensures StillLive(cfg, Put(s, k, c))
  {
    hide At, Put;
    forall i | 0 <= i < |cfg.clients| && |cfg.clients[i].todo| == 1
      ensures var l := cfg.clients[i].todo[0].key;
        At(Put(s, k, c), l).value.Some? && At(Put(s, k, c), l).deadline == At(cfg.store, l).deadline
    {
      PutAt(s, k, c, cfg.clients[i].todo[0].key);
    }
  }

  lemma SerialSnoc(s: Store, clients: seq<Client>, order: seq<nat>, i: nat)
    requires Schedule(order, |clients|) && i < |clients|
    ensures Schedule(order + [i], |clients|)
    ensures Serial(s, clients, order + [i]) == Whole(Serial(s, clients, order), clients[i].todo).0
  {
    hide Whole;
    assert (order + [i])[..|order|] == order;
  }

  /** A waiting client that makes the call that matters comes last in the order. */
  lemma Decided(cfg: Config, now: Config, order: seq<nat>, i: nat)
    requires Explained(cfg, now, order) && i < |cfg.clients| && i !in order
    requires var j := now.clients[i].todo[0];
      var cell := At(now.store, j.key);
      var r, whole := Call(cell, j.op, j.now, now.clients[i].pc), CellOp(j.op, cell, j.now);
      r.0.value.Some? && r.0.deadline == cell.deadline && r == (whole.0, Finished(whole.1))
    ensures Explained(cfg, Step(now, i), order + [i])
  {
    hide Call, CellOp, Serial, Whole, At, Put, Undecided, StillLive;
    var c := now.clients[i];
    var j := c.todo[0];
    assert c.todo == [j];
    StepOf(now.store, c, j);
    WholeOne(now.store, j);
    SerialSnoc(cfg.store, cfg.clients, order, i);
    LiveAfter(cfg, now.store, j.key, Call(At(now.store, j.key), j.op, j.now, c.pc).0);
    var more, next := order + [i], Step(now, i);
    assert forall p :: 0 <= p < |order| ==> more[p] == order[p] && more[..p] == order[..p];
    assert more[..|order|] == order;
  }

  lemma Closer(cfg: Config, now: Config, order: seq<nat>, i: nat)
    requires Explained(cfg, now, order) && i < |cfg.clients| && i !in order
    requires var j := now.clients[i].todo[0];
      var r := Call(At(now.store, j.key), j.op, j.now, now.clients[i].pc);
      !r.1.Finished? && r.0 == At(now.store, j.key) && Undecided(j.op, r.1)
    ensures Explained(cfg, Step(now, i), order)
  {
    hide Call, Serial, Whole, At, Put, Undecided, StillLive;
    var c := now.clients[i];
    assert c.todo == [c.todo[0]];
    StepOf(now.store, c, c.todo[0]);
    PutSame(now.store, c.todo[0].key);
  }

  lemma NextExplained(cfg: Config, now: Config, order: seq<nat>, i: nat) returns (next: seq<nat>)
    requires Crowd(cfg) && Explained(cfg, now, order) && i < |cfg.clients|
    ensures Explained(cfg, Step(now, i), next)
  {
    next := order;
    if i in order {
      hide Serial, Whole, StillLive;
      assert now.clients[i := now.clients[i]] == now.clients;
    } else {
      var c := now.clients[i];
      var j := c.todo[0];
      assert Waiting(cfg.clients[i], c) && Lively(cfg.store, j);
      hide Call, CellOp, Serial, Whole, Undecided;
      CallDecides(At(now.store, j.key), j, c.pc);
      hide Explained;
      if Call(At(now.store, j.key), j.op, j.now, c.pc).1.Finished? {
        Decided(cfg, now, order, i);
        next := order + [i];
      } else {
        Closer(cfg, now, order, i);
      }
    }
  }

  lemma Beginning(cfg: Config)
    requires Crowd(cfg)
    ensures Explained(cfg, cfg, [])
  {
    hide At;
  }

  lemma {:induction false} AlwaysExplained(cfg: Config, schedule: seq<nat>) returns (order: seq<nat>)
    requires Crowd(cfg) && Schedule(schedule, |cfg.clients|)
    ensures Explained(cfg, Run(cfg, schedule), order)
    decreases |schedule|
  {
    hide Explained, Step;
    if schedule == [] {
      order := [];
      Beginning(cfg);
    } else {
      order := AlwaysExplained(cfg, schedule[..|schedule| - 1]);
      order := NextExplained(cfg, Run(cfg, schedule[..|schedule| - 1]), order, schedule[|schedule| - 1]);
    }
  }

  /**
   Any number of pushes and checks, on keys that have a value and, for the checks, are not past their
   deadline: every complete interleaving of their map calls leaves the maps and results of a serial order.
   */
  lemma CrowdsAreSerialisable(cfg: Config)
    requires Crowd(cfg)
    ensures Serialisable(cfg)
  {
    hide Run, Serial, Whole, Crowd, StillLive;
    forall schedule | Schedule(schedule, |cfg.clients|) && AllDone(Run(cfg, schedule))
      ensures exists order :: IsOrder(order, |cfg.clients|) && EndsSerially(cfg, Run(cfg, schedule), order)
    {
      var order := AlwaysExplained(cfg, schedule);
      assert forall i :: 0 <= i < |cfg.clients| ==> Run(cfg, schedule).clients[i].todo == [];
      assert IsOrder(order, |cfg.clients|);
      assert EndsSerially(cfg, Run(cfg, schedule), order);
    }
  }
}
