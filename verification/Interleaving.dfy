/**
 Concurrent clients at the granularity the store really has: each call on one of the two maps is
 atomic, whole operations are not. `Pc` is the next map call an operation will make. The background
 expiration task is one more client, whose operations are purges.
 */
module Interleaving {
  import opened ByteStrings
  import opened Store
  import opened Expiration

  datatype Pc =
    | SetDropDeadline | SetInsert | SetDeadline
    | ReadDeadline | TestDeadline | LapseData | LapseDeadline | ReadValue
    | DeleteData | DeleteDeadline
    | PushEntry | PushInsert
    | ExpireLookup | ExpireTest | ExpireInsert
    | Finished(out: Outcome)

  function First(op: Op): Pc {
    match op
    case Set(_, _) => SetDropDeadline
    case Get => ReadDeadline
    case LRange(_, _) => ReadDeadline
    case Purge => ReadDeadline
    case Delete => DeleteData
    case LPush(_) => PushEntry
    case RPush(_) => PushEntry
    case Expire(_, _) => ExpireLookup
  }

  /** The result of `GET`, `LRANGE` or a purge that finds the given value and no passed deadline. */
  function ReadOutcome(op: Op, value: Option<RedisObject>): Outcome {
    if op.Purge? then Done
    else
      match value
      case None => NIL_VALUE
      case Some(v) =>
        if !op.LRange? then Value(v)
        else if v.List? then Value(List(Range(v.items, op.start, op.stop)))
        else Err(RANGE_TYPE)
  }

  /** What follows the check of a deadline that has not passed; a purge does not read the value. */
  function Checked(op: Op): Pc {
    if op.Purge? then Finished(Done) else ReadValue
  }

  /** One map call of an operation, on the cell of its key. */
  function Call(c: Cell, op: Op, now: Instant, pc: Pc): (Cell, Pc) {
    match pc
    case SetDropDeadline => (c.(deadline := None), SetInsert)
    case SetInsert =>
      if !op.Set? then (c, pc)
      else (c.(value := Some(op.val)), if op.expiresAt.Some? then SetDeadline else Finished(Done))
    case SetDeadline => if op.Set? then (c.(deadline := op.expiresAt), Finished(Done)) else (c, pc)
    case ReadDeadline => (c, if c.deadline.Some? then TestDeadline else Checked(op))
    case TestDeadline => (c, if Expired(c, now) then LapseData else Checked(op))
    case LapseData => (c.(value := None), LapseDeadline)
    case LapseDeadline => (c.(deadline := None), Finished(ReadOutcome(op, None)))
    case ReadValue => (c, Finished(ReadOutcome(op, c.value)))
    case DeleteData => (c.(value := None), DeleteDeadline)
    case DeleteDeadline => (c.(deadline := None), Finished(Done))
    case PushEntry =>
      if c.value.None? then (c, PushInsert)
      else if c.value.value.List? && op.LPush? then
        (c.(value := Some(List(op.values + c.value.value.items))), Finished(Done))
      else if c.value.value.List? && op.RPush? then
        (c.(value := Some(List(c.value.value.items + op.values))), Finished(Done))
      else (c, Finished(Err(PUSH_TYPE)))
    case PushInsert =>
      if op.LPush? then (c.(value := Some(List(Reversed(op.values)))), Finished(Done))
      else if op.RPush? then (c.(value := Some(List(op.values))), Finished(Done))
      else (c, pc)
    case ExpireLookup =>
      if c.value.None? || !op.Expire? then (c, Finished(Err(NOT_FOUND)))
      else if op.option.None? then (c, ExpireInsert)
      else if op.option.value in [NX, XX, GT, LT] then (c, ExpireTest)
      else (c, Finished(Err(BAD_OPTION)))
    case ExpireTest =>
      if op.Expire? && UpdatesDeadline(c, op.at, op.option) == Some(true) then (c, ExpireInsert)
      else (c, Finished(Done))
    case ExpireInsert => if op.Expire? then (c.(deadline := Some(op.at)), Finished(Done)) else (c, pc)
    case Finished(_) => (c, pc)
  }

  /** An operation on a key; `now` is the clock reading its expiry check gets. */
  datatype Job = Job(key: Key, op: Op, now: Instant)

  /** A client: the jobs left, the next map call of the first of them, and the results so far. */
  datatype Client = Client(todo: seq<Job>, pc: Pc, outs: seq<Outcome>)

  /** About to begin; a client with nothing to do rests. */
  function Begin(todo: seq<Job>, outs: seq<Outcome>): Client {
    Client(todo, if todo == [] then Finished(Done) else First(todo[0].op), outs)
  }

  /** One map call of a client. */
  function StepClient(s: Store, c: Client): (Store, Client) {
    if c.todo == [] then (s, c)
    else
      var j := c.todo[0];
      var r := Call(At(s, j.key), j.op, j.now, c.pc);
      (Put(s, j.key, r.0), if r.1.Finished? then Begin(c.todo[1..], c.outs + [r.1.out]) else c.(pc := r.1))
  }

  datatype Config = Config(store: Store, clients: seq<Client>)

  function Step(cfg: Config, i: nat): Config
    requires i < |cfg.clients|
  {
    var r := StepClient(cfg.store, cfg.clients[i]);
    Config(r.0, cfg.clients[i := r.1])
  }

  ghost predicate Schedule(schedule: seq<nat>, n: nat) {
    forall p :: 0 <= p < |schedule| ==> schedule[p] < n
  }

  /** The configuration after the map calls of a schedule, which names the client of each call. */
  ghost function Run(cfg: Config, schedule: seq<nat>): (r: Config)
    requires Schedule(schedule, |cfg.clients|)
    ensures |r.clients| == |cfg.clients|
  {
    if schedule == [] then cfg
    else Step(Run(cfg, schedule[..|schedule| - 1]), schedule[|schedule| - 1])
  }

  // ---- One operation alone ----

  function Alone(c: Cell, op: Op, now: Instant, n: nat): (Cell, Pc) {
    if n == 0 then (c, First(op))
    else var r := Alone(c, op, now, n - 1); Call(r.0, op, now, r.1)
  }

  function Next(op: Op, now: Instant, r: (Cell, Pc)): (Cell, Pc) {
    Call(r.0, op, now, r.1)
  }

  lemma FourUnrolled(c: Cell, op: Op, now: Instant)
    ensures Alone(c, op, now, 4) == Next(op, now, Next(op, now, Next(op, now, Next(op, now, (c, First(op))))))
  {
    hide Call;
    assert Alone(c, op, now, 1) == Next(op, now, (c, First(op)));
    assert Alone(c, op, now, 2) == Next(op, now, Alone(c, op, now, 1));
    assert Alone(c, op, now, 3) == Next(op, now, Alone(c, op, now, 2));
  }

  /** An operation that checks the deadline of its key first. */
  predicate Checks(op: Op) {
    op.Get? || op.LRange? || op.Purge?
  }

  lemma FourCallsRead(c: Cell, op: Op, now: Instant)
    requires Checks(op)
    ensures Alone(c, op, now, 4) == (CellOp(op, c, now).0, Finished(CellOp(op, c, now).1))
  {
    hide Range, Alone;
    FourUnrolled(c, op, now);
  }

  lemma FourCallsWrite(c: Cell, op: Op, now: Instant)
    requires !Checks(op)
    ensures Alone(c, op, now, 4) == (CellOp(op, c, now).0, Finished(CellOp(op, c, now).1))
  {
    hide Range, Alone;
    FourUnrolled(c, op, now);
  }

  /** Four calls complete any operation, and together they are the atomic operation. */
  lemma FourCalls(c: Cell, op: Op, now: Instant)
    ensures Alone(c, op, now, 4) == (CellOp(op, c, now).0, Finished(CellOp(op, c, now).1))
  {
    hide Alone, CellOp;
    if Checks(op) {
      FourCallsRead(c, op, now);
    } else {
      FourCallsWrite(c, op, now);
    }
  }

  lemma {:induction false} FinishedStays(c: Cell, op: Op, now: Instant, n: nat, m: nat)
    requires n <= m && Alone(c, op, now, n).1.Finished?
    ensures Alone(c, op, now, m) == Alone(c, op, now, n)
    decreases m
  {
    if n < m {
      FinishedStays(c, op, now, n, m - 1);
    }
  }

  lemma FinishedIsAtomic(c: Cell, op: Op, now: Instant, n: nat)
    requires Alone(c, op, now, n).1.Finished? || n >= 4
    ensures Alone(c, op, now, n) == (CellOp(op, c, now).0, Finished(CellOp(op, c, now).1))
  {
    FourCalls(c, op, now);
    if n <= 4 {
      FinishedStays(c, op, now, n, 4);
    } else {
      FinishedStays(c, op, now, 4, n);
    }
  }

  // ---- One client alone ----

  /** A client and the store after `n` calls with nobody else around. */
  function Solo(s: Store, c: Client, n: nat): (Store, Client) {
    if n == 0 then (s, c) else var r := Solo(s, c, n - 1); StepClient(r.0, r.1)
  }

  /** The jobs done whole, one after another, with their results. */
  function Whole(s: Store, jobs: seq<Job>): (Store, seq<Outcome>)
    decreases |jobs|
  {
    if jobs == [] then (s, [])
    else
      var r := Exec(s, jobs[0].key, jobs[0].op, jobs[0].now);
      var rest := Whole(r.0, jobs[1..]);
      (rest.0, [r.1] + rest.1)
  }

  lemma WholeOne(s: Store, j: Job)
    ensures var r := CellOp(j.op, At(s, j.key), j.now); Whole(s, [j]) == (Put(s, j.key, r.0), [r.1])
  {
    hide CellOp;
    var r := Exec(s, j.key, j.op, j.now);
    assert [j][1..] == [] && [r.1] + [] == [r.1];
    assert Whole(r.0, []) == (r.0, []);
  }

  lemma {:induction false} SoloSplit(s: Store, c: Client, a: nat, b: nat)
    ensures Solo(s, c, a + b) == Solo(Solo(s, c, a).0, Solo(s, c, a).1, b)
    decreases b
  {
    hide StepClient;
    if b > 0 {
      SoloSplit(s, c, a, b - 1);
    }
  }

  lemma {:induction false} SoloIdle(s: Store, c: Client, n: nat)
    requires c.todo == []
    ensures Solo(s, c, n) == (s, c)
    decreases n
  {
    if n > 0 {
      SoloIdle(s, c, n - 1);
    }
  }

  lemma PutTwice(s: Store, k: Key, a: Cell, b: Cell)
    ensures At(Put(s, k, a), k) == a && Put(Put(s, k, a), k, b) == Put(s, k, b)
  {
    hide At, Put;
    PutAt(s, k, a, k);
    forall j ensures At(Put(Put(s, k, a), k, b), j) == At(Put(s, k, b), j) {
      PutAt(s, k, a, j);
      PutAt(Put(s, k, a), k, b, j);
      PutAt(s, k, b, j);
    }
    SameCells(Put(Put(s, k, a), k, b), Put(s, k, b));
  }

  /** While its first job is unfinished, a client is in the middle of it. */
  lemma {:induction false} SoloInside(s: Store, jobs: seq<Job>, outs: seq<Outcome>, n: nat)
    requires jobs != [] && (n > 0 ==> !Alone(At(s, jobs[0].key), jobs[0].op, jobs[0].now, n - 1).1.Finished?)
    ensures var j := jobs[0];
      var r := Alone(At(s, j.key), j.op, j.now, n);
      Solo(s, Begin(jobs, outs), n) ==
        (Put(s, j.key, r.0), if r.1.Finished? then Begin(jobs[1..], outs + [r.1.out]) else Client(jobs, r.1, outs))
    decreases n
  {
    var j := jobs[0];
    var c := At(s, j.key);
    if n == 0 {
      PutSame(s, j.key);
    } else {
      hide Call, Put, At, Begin;
      var before := Alone(c, j.op, j.now, n - 1);
      SoloInside(s, jobs, outs, n - 1);
      PutTwice(s, j.key, before.0, Alone(c, j.op, j.now, n).0);
    }
  }

  /** The number of calls an operation needs. */
  lemma CallsNeeded(c: Cell, op: Op, now: Instant) returns (m: nat)
    ensures 1 <= m <= 4 && Alone(c, op, now, m).1.Finished? && !Alone(c, op, now, m - 1).1.Finished?
  {
    hide Call;
    FourCalls(c, op, now);
    NotYet(c, op, now);
    m := 4;
    while Alone(c, op, now, m - 1).1.Finished?
      invariant 1 <= m <= 4 && Alone(c, op, now, m).1.Finished?
      decreases m
    {
      m := m - 1;
    }
  }

  lemma NotYet(c: Cell, op: Op, now: Instant)
    ensures Alone(c, op, now, 0) == (c, First(op)) && !First(op).Finished?
  {
  }

  /** After the calls of its first job a client is about to begin the next one, and the job was done whole. */
  lemma FirstJob(s: Store, jobs: seq<Job>, outs: seq<Outcome>) returns (m: nat)
    requires jobs != []
    ensures 1 <= m <= 4
    ensures var r := Exec(s, jobs[0].key, jobs[0].op, jobs[0].now);
      Solo(s, Begin(jobs, outs), m) == (r.0, Begin(jobs[1..], outs + [r.1]))
    ensures forall n: nat :: n < m ==> Solo(s, Begin(jobs, outs), n).1.todo != []
  {
    hide Call, CellOp, Solo, Alone, Put, Begin;
    var j := jobs[0];
    var c := At(s, j.key);
    m := CallsNeeded(c, j.op, j.now);
    SoloInside(s, jobs, outs, m);
    FinishedIsAtomic(c, j.op, j.now, m);
    forall n: nat | n < m ensures Solo(s, Begin(jobs, outs), n).1.todo != [] {
      if Alone(c, j.op, j.now, n).1.Finished? {
        FinishedStays(c, j.op, j.now, n, m - 1);
      }
      if n > 0 && Alone(c, j.op, j.now, n - 1).1.Finished? {
        FinishedStays(c, j.op, j.now, n - 1, m - 1);
      }
      SoloInside(s, jobs, outs, n);
    }
  }

  /** A client that has finished on its own, or had four calls for each job, did its jobs whole. */
  lemma {:induction false} SoloIsWhole(s: Store, jobs: seq<Job>, outs: seq<Outcome>, n: nat)
    requires Solo(s, Begin(jobs, outs), n).1.todo == [] || n >= 4 * |jobs|
    ensures Solo(s, Begin(jobs, outs), n) == (Whole(s, jobs).0, Begin([], outs + Whole(s, jobs).1))
    decreases |jobs|
  {
    hide Solo, Exec, Begin, Whole;
    if jobs == [] {
      NoJobs(s, outs, n);
    } else {
      var m := FirstJob(s, jobs, outs);
      var r := Exec(s, jobs[0].key, jobs[0].op, jobs[0].now);
      assert m <= n;
      SoloSplit(s, Begin(jobs, outs), m, n - m);
      SoloIsWhole(r.0, jobs[1..], outs + [r.1], n - m);
      WholeCons(s, jobs, outs);
    }
  }

  lemma NoJobs(s: Store, outs: seq<Outcome>, n: nat)
    ensures Solo(s, Begin([], outs), n) == (Whole(s, []).0, Begin([], outs + Whole(s, []).1))
  {
    hide Solo;
    SoloIdle(s, Begin([], outs), n);
    assert outs + [] == outs;
  }

  lemma WholeCons(s: Store, jobs: seq<Job>, outs: seq<Outcome>)
    requires jobs != []
    ensures var r := Exec(s, jobs[0].key, jobs[0].op, jobs[0].now);
      var rest := Whole(r.0, jobs[1..]);
      Whole(s, jobs) == (rest.0, [r.1] + rest.1) && outs + [r.1] + rest.1 == outs + Whole(s, jobs).1
  {
    hide Exec;
  }

  // ---- Many clients ----

  ghost predicate Names(jobs: seq<Job>, k: Key) {
    exists i :: 0 <= i < |jobs| && jobs[i].key == k
  }

  function Calls(schedule: seq<nat>, i: nat): nat {
    if schedule == [] then 0
    else Calls(schedule[..|schedule| - 1], i) + if schedule[|schedule| - 1] == i then 1 else 0
  }

  /** Nobody has begun, and no two clients name the same key. */
  ghost predicate Started(cfg: Config) {
    && (forall i :: 0 <= i < |cfg.clients| ==> cfg.clients[i] == Begin(cfg.clients[i].todo, []))
    && forall i, j, k :: 0 <= i < j < |cfg.clients| ==>
         !(Names(cfg.clients[i].todo, k) && Names(cfg.clients[j].todo, k))
  }

  /** Client `i` is where it would be had it run alone for as many calls, and so are the keys it names. */
  ghost predicate Unaware(cfg: Config, now: Config, schedule: seq<nat>, i: nat)
    requires i < |cfg.clients| == |now.clients|
  {
    var r := Solo(cfg.store, cfg.clients[i], Calls(schedule, i));
    && now.clients[i] == r.1
    && forall k :: Names(cfg.clients[i].todo, k) ==> At(now.store, k) == At(r.0, k)
  }

  lemma {:induction false} SoloNames(s: Store, c: Client, n: nat, k: Key)
    requires Names(Solo(s, c, n).1.todo, k)
    ensures Names(c.todo, k)
    decreases n
  {
    hide Call;
    if n > 0 {
      var before := Solo(s, c, n - 1);
      if before.1.todo != [] {
        assert forall i :: 0 <= i < |before.1.todo[1..]| ==> before.1.todo[1..][i] == before.1.todo[i + 1];
      }
      assert Names(before.1.todo, k);
      SoloNames(s, c, n - 1, k);
    }
  }

  /** A call looks at the cell of one key and changes no other. */
  lemma StepLocal(s: Store, t: Store, c: Client, k: Key)
    requires c.todo != [] ==> At(s, c.todo[0].key) == At(t, c.todo[0].key)
    ensures StepClient(s, c).1 == StepClient(t, c).1
    ensures At(s, k) == At(t, k) ==> At(StepClient(s, c).0, k) == At(StepClient(t, c).0, k)
    ensures c.todo == [] || k != c.todo[0].key ==> At(StepClient(s, c).0, k) == At(s, k)
  {
    hide Call, At, Put;
    if c.todo != [] {
      var j := c.todo[0];
      var r := Call(At(s, j.key), j.op, j.now, c.pc);
      PutAt(s, j.key, r.0, k);
      PutAt(t, j.key, r.0, k);
    }
  }

  lemma RunSnoc(cfg: Config, before: seq<nat>, j: nat)
    requires Schedule(before, |cfg.clients|) && j < |cfg.clients|
    ensures Schedule(before + [j], |cfg.clients|)
    ensures Run(cfg, before + [j]) == Step(Run(cfg, before), j)
  {
    hide Step;
    assert (before + [j])[..|before|] == before && (before + [j])[|before|] == j;
  }

  lemma RunNone(cfg: Config)
    ensures Run(cfg, []) == cfg
  {
  }

  lemma CallsSnoc(before: seq<nat>, j: nat, i: nat)
    ensures Calls(before + [j], i) == Calls(before, i) + if i == j then 1 else 0
  {
    assert (before + [j])[..|before|] == before;
  }

  /** The key a client is at is one it named. */
  lemma AtOwnKey(cfg: Config, mid: Config, before: seq<nat>, j: nat)
    requires j < |cfg.clients| == |mid.clients| && Unaware(cfg, mid, before, j) && mid.clients[j].todo != []
    ensures Names(cfg.clients[j].todo, mid.clients[j].todo[0].key)
  {
    hide Solo;
    var c := mid.clients[j];
    assert Names(c.todo, c.todo[0].key);
    SoloNames(cfg.store, cfg.clients[j], Calls(before, j), c.todo[0].key);
  }

  /** A call of client `j` keeps client `i` unaware of it. */
  lemma OneCall(cfg: Config, before: seq<nat>, j: nat, i: nat)
    requires Started(cfg) && Schedule(before, |cfg.clients|) && j < |cfg.clients| && i < |cfg.clients|
    requires Unaware(cfg, Run(cfg, before), before, i) && Unaware(cfg, Run(cfg, before), before, j)
    ensures Schedule(before + [j], |cfg.clients|)
    ensures Unaware(cfg, Run(cfg, before + [j]), before + [j], i)
  {
    hide StepClient, At, Names, Run, Begin;
    RunSnoc(cfg, before, j);
    CallsSnoc(before, j, i);
    var mid := Run(cfg, before);
    if mid.clients[j].todo != [] {
      AtOwnKey(cfg, mid, before, j);
    }
    var solo := Solo(cfg.store, cfg.clients[j], Calls(before, j)).0;
    forall k | Names(cfg.clients[i].todo, k)
      ensures At(StepClient(mid.store, mid.clients[j]).0, k) ==
        if i == j then At(StepClient(solo, mid.clients[j]).0, k) else At(mid.store, k)
    {
      StepLocal(mid.store, solo, mid.clients[j], k);
    }
    StepLocal(mid.store, solo, mid.clients[j], []);
  }

  lemma {:induction false} OthersUnseen(cfg: Config, schedule: seq<nat>, i: nat)
    requires Started(cfg) && Schedule(schedule, |cfg.clients|) && i < |cfg.clients|
    ensures Unaware(cfg, Run(cfg, schedule), schedule, i)
    decreases |schedule|
  {
    if schedule != [] {
      hide StepClient, Run, Unaware;
      var before, j := schedule[..|schedule| - 1], schedule[|schedule| - 1];
      OthersUnseen(cfg, before, i);
      OthersUnseen(cfg, before, j);
      assert before + [j] == schedule;
      OneCall(cfg, before, j, i);
    }
  }

  lemma {:induction false} OtherKeysUntouched(cfg: Config, schedule: seq<nat>, k: Key)
    requires Started(cfg) && Schedule(schedule, |cfg.clients|)
    requires forall i :: 0 <= i < |cfg.clients| ==> !Names(cfg.clients[i].todo, k)
    ensures At(Run(cfg, schedule).store, k) == At(cfg.store, k)
    decreases |schedule|
  {
    if schedule != [] {
      hide StepClient, Names, At, Begin;
      var before, j := schedule[..|schedule| - 1], schedule[|schedule| - 1];
      OtherKeysUntouched(cfg, before, k);
      OthersUnseen(cfg, before, j);
      var mid := Run(cfg, before);
      if mid.clients[j].todo != [] {
        AtOwnKey(cfg, mid, before, j);
      }
      StepLocal(mid.store, mid.store, mid.clients[j], k);
    }
  }

  // ---- The clients one after another ----

  /** Jobs done whole look at the keys they name and change no other. */
  lemma {:induction false} WholeLocal(s: Store, t: Store, jobs: seq<Job>, k: Key)
    requires forall j :: Names(jobs, j) ==> At(s, j) == At(t, j)
    ensures Whole(s, jobs).1 == Whole(t, jobs).1
    ensures At(s, k) == At(t, k) ==> At(Whole(s, jobs).0, k) == At(Whole(t, jobs).0, k)
    ensures !Names(jobs, k) ==> At(Whole(s, jobs).0, k) == At(s, k)
    decreases |jobs|
  {
    hide CellOp, At, Put;
    if jobs != [] {
      var j := jobs[0];
      assert Names(jobs, j.key);
      var cell := CellOp(j.op, At(s, j.key), j.now).0;
      var u, v := Put(s, j.key, cell), Put(t, j.key, cell);
      assert forall i :: 0 <= i < |jobs[1..]| ==> jobs[1..][i] == jobs[i + 1];
      forall l | Names(jobs[1..], l) ensures At(u, l) == At(v, l) {
        assert Names(jobs, l);
        PutAt(s, j.key, cell, l);
        PutAt(t, j.key, cell, l);
      }
      PutAt(s, j.key, cell, k);
      PutAt(t, j.key, cell, k);
      WholeLocal(u, v, jobs[1..], k);
      assert Names(jobs[1..], k) ==> Names(jobs, k);
    }
  }

  /** The store after the clients ran whole in the given order. */
  ghost function Serial(s: Store, clients: seq<Client>, order: seq<nat>): Store
    requires Schedule(order, |clients|)
  {
    if order == [] then s
    else Whole(Serial(s, clients, order[..|order| - 1]), clients[order[|order| - 1]].todo).0
  }

  /** Every client exactly once. */
  ghost predicate IsOrder(order: seq<nat>, n: nat) {
    && Schedule(order, n)
    && (forall i :: 0 <= i < n ==> i in order)
    && (forall p, q :: 0 <= p < q < |order| ==> order[p] != order[q])
  }

  /** In a serial run a key has its initial cell until its own client runs and that client's afterwards. */
  lemma {:induction false} SerialCell(cfg: Config, order: seq<nat>, i: nat, k: Key)
    requires Started(cfg) && Schedule(order, |cfg.clients|) && i < |cfg.clients| && Names(cfg.clients[i].todo, k)
    requires forall p, q :: 0 <= p < q < |order| ==> order[p] != order[q]
    ensures At(Serial(cfg.store, cfg.clients, order), k) ==
      if i in order then At(Whole(cfg.store, cfg.clients[i].todo).0, k) else At(cfg.store, k)
    decreases |order|
  {
    if order != [] {
      hide Whole, Names, At, Begin;
      var before, j := order[..|order| - 1], order[|order| - 1];
      assert order == before + [j];
      var mid := Serial(cfg.store, cfg.clients, before);
      SerialCell(cfg, before, i, k);
      if i == j {
        assert i !in before;
        forall l | Names(cfg.clients[i].todo, l) ensures At(mid, l) == At(cfg.store, l) {
          SerialCell(cfg, before, i, l);
        }
        WholeLocal(mid, cfg.store, cfg.clients[i].todo, k);
      } else {
        WholeLocal(mid, mid, cfg.clients[j].todo, k);
      }
    }
  }

  lemma {:induction false} SerialOther(cfg: Config, order: seq<nat>, k: Key)
    requires Schedule(order, |cfg.clients|)
    requires forall i :: 0 <= i < |cfg.clients| ==> !Names(cfg.clients[i].todo, k)
    ensures At(Serial(cfg.store, cfg.clients, order), k) == At(cfg.store, k)
    decreases |order|
  {
    if order != [] {
      hide Whole, At, Names;
      var before, j := order[..|order| - 1], order[|order| - 1];
      SerialOther(cfg, before, k);
      var mid := Serial(cfg.store, cfg.clients, before);
      WholeLocal(mid, mid, cfg.clients[j].todo, k);
    }
  }

  ghost predicate AllDone(cfg: Config) {
    forall i :: 0 <= i < |cfg.clients| ==> cfg.clients[i].todo == []
  }

  /** The configuration is what the clients leave when they run whole in the given order: maps and results. */
  ghost predicate EndsSerially(cfg: Config, end: Config, order: seq<nat>)
    requires IsOrder(order, |cfg.clients|) && |end.clients| == |cfg.clients|
  {
    && end.store == Serial(cfg.store, cfg.clients, order)
    && forall p :: 0 <= p < |order| ==>
         end.clients[order[p]].outs == Whole(Serial(cfg.store, cfg.clients, order[..p]), cfg.clients[order[p]].todo).1
  }

  /** Whatever the schedule, once all clients are done they have ended as in some serial order. */
  ghost predicate Serialisable(cfg: Config) {
    forall schedule :: Schedule(schedule, |cfg.clients|) && AllDone(Run(cfg, schedule)) ==>
      exists order :: IsOrder(order, |cfg.clients|) && EndsSerially(cfg, Run(cfg, schedule), order)
  }

  /** A schedule that gives every client four calls for each of its jobs completes all of them. */
  lemma FairSchedulesFinish(cfg: Config, schedule: seq<nat>)
    requires Started(cfg) && Schedule(schedule, |cfg.clients|)
    requires forall i :: 0 <= i < |cfg.clients| ==> Calls(schedule, i) >= 4 * |cfg.clients[i].todo|
    ensures AllDone(Run(cfg, schedule))
  {
    hide Run, Solo, Whole, Names;
    forall i | 0 <= i < |cfg.clients| ensures Run(cfg, schedule).clients[i].todo == [] {
      OthersUnseen(cfg, schedule, i);
      SoloIsWhole(cfg.store, cfg.clients[i].todo, [], Calls(schedule, i));
    }
  }

  lemma ConcurrentClient(cfg: Config, schedule: seq<nat>, i: nat)
    requires Started(cfg) && Schedule(schedule, |cfg.clients|) && i < |cfg.clients|
    requires Run(cfg, schedule).clients[i].todo == []
    ensures var r := Whole(cfg.store, cfg.clients[i].todo);
      && Run(cfg, schedule).clients[i].outs == r.1
      && forall k :: Names(cfg.clients[i].todo, k) ==> At(Run(cfg, schedule).store, k) == At(r.0, k)
  {
    hide Run, Solo, Whole, Names, At;
    OthersUnseen(cfg, schedule, i);
    SoloIsWhole(cfg.store, cfg.clients[i].todo, [], Calls(schedule, i));
    assert [] + Whole(cfg.store, cfg.clients[i].todo).1 == Whole(cfg.store, cfg.clients[i].todo).1;
  }

  lemma ReturnsSerial(cfg: Config, schedule: seq<nat>, order: seq<nat>, p: nat)
    requires Started(cfg) && Schedule(schedule, |cfg.clients|) && AllDone(Run(cfg, schedule))
    requires IsOrder(order, |cfg.clients|) && p < |order|
    ensures Run(cfg, schedule).clients[order[p]].outs ==
      Whole(Serial(cfg.store, cfg.clients, order[..p]), cfg.clients[order[p]].todo).1
  {
    hide Whole, Run, Serial, Names, At, Begin;
    var i, before := order[p], order[..p];
    ConcurrentClient(cfg, schedule, i);
    assert i !in before;
    forall k | Names(cfg.clients[i].todo, k) ensures At(Serial(cfg.store, cfg.clients, before), k) == At(cfg.store, k) {
      SerialCell(cfg, before, i, k);
    }
    WholeLocal(Serial(cfg.store, cfg.clients, before), cfg.store, cfg.clients[i].todo, []);
  }

  lemma SameStores(cfg: Config, schedule: seq<nat>, order: seq<nat>)
    requires Started(cfg) && Schedule(schedule, |cfg.clients|) && AllDone(Run(cfg, schedule))
    requires IsOrder(order, |cfg.clients|)
    ensures Run(cfg, schedule).store == Serial(cfg.store, cfg.clients, order)
  {
    hide Whole, Run, Serial, Names, At, Begin;
    forall k ensures At(Run(cfg, schedule).store, k) == At(Serial(cfg.store, cfg.clients, order), k) {
      if i :| 0 <= i < |cfg.clients| && Names(cfg.clients[i].todo, k) {
        ConcurrentClient(cfg, schedule, i);
        SerialCell(cfg, order, i, k);
      } else {
        OtherKeysUntouched(cfg, schedule, k);
        SerialOther(cfg, order, k);
      }
    }
    SameCells(Run(cfg, schedule).store, Serial(cfg.store, cfg.clients, order));
  }

  /**
   Clients that name disjoint keys are serialisable in every order: each runs any sequence of operations,
   and whatever the interleaving of their map calls, the maps end as if the clients had run whole, one
   after another, and every operation returns what it would have returned at its turn.
   */
  lemma InterleavingIsSerial(cfg: Config, schedule: seq<nat>, order: seq<nat>)
    requires Started(cfg) && Schedule(schedule, |cfg.clients|) && AllDone(Run(cfg, schedule))
    requires IsOrder(order, |cfg.clients|)
    ensures EndsSerially(cfg, Run(cfg, schedule), order)
  {
    hide Run, Serial, Whole;
    SameStores(cfg, schedule, order);
    forall p | 0 <= p < |order|
      ensures Run(cfg, schedule).clients[order[p]].outs ==
        Whole(Serial(cfg.store, cfg.clients, order[..p]), cfg.clients[order[p]].todo).1
    {
      ReturnsSerial(cfg, schedule, order, p);
    }
  }

  // ---- The expiration task as a client ----

  /** The purges of one pass over a sample. */
  function PurgeJobs(r: Round): (jobs: seq<Job>)
    ensures |jobs| == |r.sample| && forall i :: 0 <= i < |jobs| ==> jobs[i] == Job(r.sample[i], Purge, r.now)
  {
    seq(|r.sample|, i requires 0 <= i < |r.sample| => Job(r.sample[i], Purge, r.now))
  }

  lemma {:induction false} PurgesAt(s: Store, jobs: seq<Job>, now: Instant, k: Key)
    requires forall i :: 0 <= i < |jobs| ==> jobs[i].op == Purge && jobs[i].now == now
    ensures At(Whole(s, jobs).0, k) == if Names(jobs, k) && Expired(At(s, k), now) then ABSENT else At(s, k)
    decreases |jobs|
  {
    hide At, Put;
    if jobs != [] {
      var j := jobs[0];
      assert forall i :: 0 <= i < |jobs[1..]| ==> jobs[1..][i] == jobs[i + 1];
      assert Names(jobs, k) <==> k == j.key || Names(jobs[1..], k);
      var cell := CellOp(Purge, At(s, j.key), now).0;
      PutAt(s, j.key, cell, k);
      PurgesAt(Put(s, j.key, cell), jobs[1..], now, k);
    }
  }

  /** A pass of the expiration cycle is its purges, so the laws of clients hold of it too. */
  lemma PassIsPurges(s: Store, r: Round)
    ensures Whole(s, PurgeJobs(r)).0 == Remove(s, Dead(s, r))
  {
    hide Whole;
    forall k ensures At(Whole(s, PurgeJobs(r)).0, k) == At(Remove(s, Dead(s, r)), k) {
      PurgesAt(s, PurgeJobs(r), r.now, k);
      RemoveAt(s, Dead(s, r), k);
      assert k in r.sample <==> Names(PurgeJobs(r), k) by {
        if k in r.sample {
          var i :| 0 <= i < |r.sample| && r.sample[i] == k;
          assert PurgeJobs(r)[i].key == k;
        }
      }
    }
    SameCells(Whole(s, PurgeJobs(r)).0, Remove(s, Dead(s, r)));
  }
}
