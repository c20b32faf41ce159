/** The whole server over time: any number of clients, the expiration cycles, snapshots and restarts. */
module Worlds {
  import opened ByteStrings
  import opened RespTypes
  import opened Commands
  import opened Dispatcher
  import opened Expiration
  import opened Invariants
  import F = RdbFormat
  import R = RdbProofs
  import Snapshots
  import CodePoints
  import S = Store
  import Utf8

  /**
   Whether the server runs, the transaction state of each client, the store, the clock position and the
   snapshot on disk.
   */
  datatype World = World(up: bool, txs: map<nat, Tx>, store: S.Store, tick: nat, disk: Option<Bytes>)

  const START: World := World(true, map[], S.EMPTY, 0, None)

  /** A command of a client, the end of a connection, an expiration cycle, a snapshot written, a restart. */
  datatype Event =
    | Act(id: nat, cmd: Command)
    | Leave(id: nat)
    | Purge(rounds: seq<Round>)
    | Write(dataOrder: seq<S.Key>, expOrder: seq<S.Key>, saved: nat -> F.Reading)
    | Restart(loaded: nat -> F.Reading)

  datatype Delivery = Delivery(id: nat, result: Result<RespType>)

  function TxOf(w: World, id: nat): Tx {
    if id in w.txs then w.txs[id] else IDLE
  }

  ghost predicate ClientsValid(w: World) {
    forall id :: TxValid(TxOf(w, id))
  }

  /** What a client's command is dispatched on. */
  function SessionOf(w: World, id: nat): Session {
    Session(TxOf(w, id), w.store, w.tick)
  }

  ghost function ActOn(w: World, id: nat, c: Command, clock: Clock): (World, Result<RespType>)
    requires ClientsValid(w)
  {
    var d := Dispatch(SessionOf(w, id), c, clock);
    (w.(txs := w.txs[id := d.0.tx], store := d.0.store, tick := d.0.tick), d.1)
  }

  /** A start finds no snapshot, or one it can load, or one that stops it. */
  function Restarted(w: World, loaded: nat -> F.Reading): World {
    if w.disk.None? then w.(txs := map[], store := S.EMPTY)
    else
      match F.Load(w.disk.value, loaded)
      case None => w.(up := false)
      case Some(l) => w.(txs := map[], store := l.store)
  }

  ghost function Step(w: World, e: Event, clock: Clock): (r: (World, seq<Delivery>))
    requires ClientsValid(w)
  {
    if !w.up then (w, [])
    else
      match e
      case Act(id, c) => var d := ActOn(w, id, c, clock); (d.0, [Delivery(id, d.1)])
      case Leave(id) => (w.(txs := w.txs - {id}), [])
      case Purge(rounds) => (w.(store := AfterRounds(w.store, rounds)), [])
      case Write(dataOrder, expOrder, saved) =>
        var s := Snapshots.Save(w.store, dataOrder, expOrder, saved);
        (if Snapshots.ValidSave(s) then w.(disk := Some(Snapshots.File(s))) else w, [])
      case Restart(loaded) => (Restarted(w, loaded), [])
  }

  lemma StepClients(w: World, e: Event, clock: Clock)
    requires ClientsValid(w)
    ensures ClientsValid(Step(w, e, clock).0)
  {
    hide Dispatch, F.Load, Snapshots.File, AfterRounds, Snapshots.ValidSave;
    var next := Step(w, e, clock).0;
    forall id ensures TxValid(TxOf(next, id)) {
      assert TxOf(next, id) == TxOf(w, id) || TxOf(next, id) == IDLE || (e.Act? && e.id == id);
    }
  }

  /** The world after a run, and the replies in order, each with the client it goes to. */
  ghost function Run(w: World, events: seq<Event>, clock: Clock): (r: (World, seq<Delivery>))
    requires ClientsValid(w)
    ensures ClientsValid(r.0)
    decreases |events|
  {
    if events == [] then (w, [])
    else
      var before := Run(w, events[..|events| - 1], clock);
      StepClients(before.0, events[|events| - 1], clock);
      var d := Step(before.0, events[|events| - 1], clock);
      (d.0, before.1 + d.1)
  }

  lemma StartValid()
    ensures ClientsValid(START) && SoundWorld(START) && Owned(START.store)
  {
  }

  // ---- Every reachable client state ----

  /**
   In every reachable state the queue of every client holds no MULTI, EXEC or DISCARD and is empty outside
   a transaction.
   */
  lemma ReachableClients(events: seq<Event>, clock: Clock, id: nat)
    ensures ClientsValid(START)
    ensures var tx := TxOf(Run(START, events, clock).0, id);
      && (forall i :: 0 <= i < |tx.queue| ==> !tx.queue[i].MULTI? && !tx.queue[i].EXEC? && !tx.queue[i].DISCARD?)
      && (!tx.inTransaction ==> tx.queue == [])
  {
    hide Run;
    StartValid();
    assert TxValid(TxOf(Run(START, events, clock).0, id));
  }

  // ---- Every reachable store ----

  ghost predicate SoundWorld(w: World) {
    SoundStore(w.store) && forall id :: SoundQueue(TxOf(w, id).queue)
  }

  /** The commands of a run are made of valid strings, as all extracted commands are. */
  ghost predicate SoundEvents(events: seq<Event>) {
    forall i :: 0 <= i < |events| && events[i].Act? ==> Sound(events[i].cmd)
  }

  lemma {:induction false} RoundsSound(s: S.Store, rounds: seq<Round>)
    requires SoundStore(s)
    ensures SoundStore(AfterRounds(s, rounds))
    decreases |rounds|
  {
    hide Dead, Remove, Utf8.Valid, S.At;
    if rounds != [] {
      var gone := Dead(s, rounds[0]);
      forall k ensures SoundCell(k, S.At(Remove(s, gone), k)) { RemoveAt(s, gone, k); }
      RoundsSound(Remove(s, gone), rounds[1..]);
    }
  }

  lemma {:induction false} RoundsOwned(s: S.Store, rounds: seq<Round>)
    requires Owned(s)
    ensures Owned(AfterRounds(s, rounds))
    decreases |rounds|
  {
    hide Dead, Remove, S.At;
    if rounds != [] {
      var gone := Dead(s, rounds[0]);
      forall k ensures S.At(Remove(s, gone), k).deadline.Some? ==> S.At(Remove(s, gone), k).value.Some? {
        RemoveAt(s, gone, k);
      }
      RoundsOwned(Remove(s, gone), rounds[1..]);
    }
  }

  // ---- What a file can bring in ----

  predicate SoundEffect(e: F.Effect) {
    match e
    case Bind(k, v) => Utf8.Valid(k) && SoundObject(v)
    case Deadline(k, _) => Utf8.Valid(k)
    case _ => true
  }

  lemma StringsSound(b: Bytes, first: byte)
    ensures F.ReadStringFrom(b, first).Got? ==> Utf8.Valid(F.ReadStringFrom(b, first).value)
    ensures F.ReadString(b).Got? ==> Utf8.Valid(F.ReadString(b).value)
  {
    hide F.ReadLengthFrom, F.ReadExact, Utf8.Lossy, Utf8.Valid;
    StringFromSound(b, first);
    if b != [] {
      StringFromSound(b[1..], b[0]);
    }
  }

  lemma StringFromSound(b: Bytes, first: byte)
    ensures F.ReadStringFrom(b, first).Got? ==> Utf8.Valid(F.ReadStringFrom(b, first).value)
  {
    hide F.ReadLengthFrom, F.ReadExact, Utf8.Lossy, Utf8.Valid;
    match F.ReadLengthFrom(b, first)
    case Fail =>
    case Got(n, body) =>
      match F.ReadExact(body, n)
      case Fail =>
      case Got(d, rest) => CodePoints.LossyValid(d);
  }

  lemma ValueSound(b: Bytes)
    requires F.ReadValue(b).Got?
    ensures Utf8.Valid(F.ReadValue(b).value.0) && Utf8.Valid(F.ReadValue(b).value.1)
  {
    hide F.ReadString, F.ReadStringFrom, Utf8.Valid;
    StringsSound(b[1..], 0);
    StringsSound(F.ReadString(b[1..]).rest, 0);
  }

  lemma {:induction false} ItemsSound(b: Bytes, count: nat)
    requires F.ReadItems(b, count).Got?
    ensures var r := F.ReadItems(b, count).value;
      (r.0.Some? ==> Utf8.Valid(r.0.value)) && SoundObject(S.List(r.1))
    decreases count
  {
    hide F.ReadValue, Utf8.Valid;
    if count > 0 {
      ValueSound(b);
      ItemsSound(F.ReadValue(b).rest, count - 1);
    }
  }

  lemma ListSound(b: Bytes)
    requires F.ReadList(b).Got?
    ensures SoundEffect(F.ReadList(b).value)
  {
    hide F.ReadItems, F.ReadLength, Utf8.Valid;
    var n := F.ReadLength(b);
    ItemsSound(n.rest, n.value);
  }

  lemma TokenSound(token: Bytes, b: Bytes)
    requires F.ReadTokenRecord(token, b).Got? && Utf8.Valid(token)
    ensures SoundEffect(F.ReadTokenRecord(token, b).value)
  {
    hide F.ReadValue, F.ReadList, F.ReadExpiry, Utf8.Valid, Upper;
    if Upper(token) == F.STRING_UPPER {
      ValueSound(b);
    } else if Upper(token) == F.LIST_UPPER {
      ListSound(b);
    }
  }

  lemma RecordSound(b: Bytes)
    requires F.ReadRecord(b).Got?
    ensures SoundEffect(F.ReadRecord(b).value)
  {
    hide F.ReadTokenRecord, F.ReadString, F.ReadStringFrom, F.ReadLength, F.ReadExpiry, Utf8.Valid;
    StringsSound(b[1..], b[0]);
    if b[0] != 0xFE && b[0] != 0xFC && b[0] != 0xFF {
      var token := F.ReadStringFrom(b[1..], b[0]);
      TokenSound(token.value, token.rest);
    }
  }

  lemma ApplySound(l: F.Loading, e: F.Effect, clock: nat -> F.Reading)
    requires SoundStore(l.store) && SoundEffect(e)
    ensures SoundStore(F.Apply(l, e, clock).store)
  {
    hide Utf8.Valid, SoundObject, F.LoadedDeadline;
    var next := F.Apply(l, e, clock).store;
    forall k ensures SoundCell(k, S.At(next, k)) {
      assert SoundCell(k, S.At(l.store, k));
    }
  }

  lemma {:induction false} RecordsSound(b: Bytes, l: F.Loading, clock: nat -> F.Reading)
    requires SoundStore(l.store) && F.LoadRecords(b, l, clock).Some?
    ensures SoundStore(F.LoadRecords(b, l, clock).value.store)
    decreases |b|
  {
    hide F.ReadRecord, F.Apply, SoundStore, SoundEffect;
    if b != [] {
      RecordSound(b);
      var r := F.ReadRecord(b);
      if !r.value.Stop? {
        ApplySound(l, r.value, clock);
        RecordsSound(r.rest, F.Apply(l, r.value, clock), clock);
      }
    }
  }

  /** Whatever bytes a snapshot file holds: a store loaded from it has only valid strings and flat lists. */
  lemma LoadSound(file: Bytes, clock: nat -> F.Reading)
    requires F.Load(file, clock).Some?
    ensures SoundStore(F.Load(file, clock).value.store)
  {
    hide F.LoadRecords;
    assert SoundStore(F.NEW.store);
    RecordsSound(file[9..], F.NEW, clock);
  }

  // ---- Runs keep strings valid and lists flat ----

  lemma StepSound(w: World, e: Event, clock: Clock)
    requires ClientsValid(w) && SoundWorld(w) && (e.Act? ==> Sound(e.cmd))
    ensures SoundWorld(Step(w, e, clock).0)
  {
    hide Dispatch, F.Load, Snapshots.File, AfterRounds, SoundStore, Sound, Snapshots.ValidSave;
    var next := Step(w, e, clock).0;
    assert SoundStore(next.store) by {
      match e
      case Act(id, c) => DispatchSound(SessionOf(w, id), c, clock);
      case Purge(rounds) => RoundsSound(w.store, rounds);
      case Restart(loaded) =>
        EmptySound();
        if w.disk.Some? && F.Load(w.disk.value, loaded).Some? {
          LoadSound(w.disk.value, loaded);
        }
      case _ =>
    }
    forall id ensures SoundQueue(TxOf(next, id).queue) {
      if w.up && e.Act? && e.id == id {
        DispatchSound(SessionOf(w, id), e.cmd, clock);
      } else {
        assert TxOf(next, id) == TxOf(w, id) || TxOf(next, id) == IDLE;
      }
    }
  }

  lemma EmptySound()
    ensures SoundStore(S.EMPTY) && Owned(S.EMPTY)
  {
  }

  lemma {:induction false} RunSound(w: World, events: seq<Event>, clock: Clock)
    requires ClientsValid(w) && SoundWorld(w) && SoundEvents(events)
    ensures SoundWorld(Run(w, events, clock).0)
    decreases |events|
  {
    hide Step, SoundWorld, Sound, ClientsValid;
    if events != [] {
      RunSound(w, events[..|events| - 1], clock);
      StepSound(Run(w, events[..|events| - 1], clock).0, events[|events| - 1], clock);
    }
  }

  /**
   After any run of any clients, with cycles, snapshots and restarts from whatever was on disk: keys and
   strings are valid UTF-8 and lists hold only strings.
   */
  lemma ReachableStores(events: seq<Event>, clock: Clock)
    requires SoundEvents(events)
    ensures ClientsValid(START)
    ensures var s := Run(START, events, clock).0.store;
      && (forall k :: k in s.data || k in s.exps ==> Utf8.Valid(k))
      && (forall k :: k in s.data && s.data[k].Str? ==> Utf8.Valid(s.data[k].s))
      && forall k :: k in s.data && s.data[k].List? ==>
           forall i :: 0 <= i < |s.data[k].items| ==> s.data[k].items[i].Str? && Utf8.Valid(s.data[k].items[i].s)
  {
    StartValid();
    RunSound(START, events, clock);
    var s := Run(START, events, clock).0.store;
    hide Run, Utf8.Valid;
    assert forall k :: SoundCell(k, S.At(s, k));
    assert forall k :: k in s.data ==> S.At(s, k).value == Some(s.data[k]);
    assert forall k :: k in s.exps ==> S.At(s, k).deadline == Some(s.exps[k]);
  }

  // ---- Deadlines and restarts ----

  /** Strings and lists are short enough for the 32-bit lengths of the format. */
  ghost predicate Short(s: S.Store) {
    && (forall k :: k in s.data || k in s.exps ==> |k| < U32_MODULUS)
    && (forall k :: k in s.data && s.data[k].Str? ==> |s.data[k].s| < U32_MODULUS)
    && (forall k :: k in s.data && s.data[k].List? ==> |s.data[k].items| < U32_MODULUS)
    && (forall k :: k in s.data && s.data[k].List? ==>
          forall i :: 0 <= i < |s.data[k].items| && s.data[k].items[i].Str? ==> |s.data[k].items[i].s| < U32_MODULUS)
  }

  lemma ShortIsStorable(s: S.Store)
    requires SoundStore(s) && Short(s)
    ensures Snapshots.StorableStore(s)
  {
    hide Utf8.Valid;
    forall k | k in s.data ensures R.StorableRecord(F.Entry(k, s.data[k])) {
      assert SoundCell(k, S.At(s, k));
      if s.data[k].List? {
        assert R.StorableItems(s.data[k].items);
      }
    }
    forall k | k in s.exps ensures R.Storable(k) {
      assert SoundCell(k, S.At(s, k));
    }
  }

  /** A key has a deadline and an empty list, which the format cannot tell from no value. */
  ghost predicate EmptyExpiring(s: S.Store) {
    exists k :: k in s.exps && k in s.data && s.data[k] == S.List([])
  }

  /** After a restart every deadline has a value, exactly when none of the expiring keys held an empty list. */
  lemma RestartOwnedExactly(s: Snapshots.Save, clock: nat -> F.Reading)
    requires Snapshots.ValidSave(s) && Snapshots.StorableStore(s.store) && Owned(s.store)
    requires F.Load(Snapshots.File(s), clock).Some?
    ensures Owned(F.Load(Snapshots.File(s), clock).value.store) <==> !EmptyExpiring(s.store)
  {
    hide F.Load, Snapshots.File, Snapshots.StorableStore, Snapshots.Reloaded, Snapshots.SomeKeyCollides;
    Snapshots.SnapshotRoundTrip(s, clock);
    var l := F.Load(Snapshots.File(s), clock).value.store;
    assert forall k :: k in s.store.data ==> k in s.dataOrder;
    forall k | k in s.store.exps
      ensures S.At(l, k).deadline.Some? && (S.At(l, k).value.Some? <==> S.At(s.store, k).value != Some(S.List([])))
    {
      assert S.At(s.store, k).deadline.Some?;
      assert k in l.exps.Keys;
    }
    assert forall k :: S.At(l, k).deadline.Some? ==> k in l.exps.Keys;
    if EmptyExpiring(s.store) {
      var k :| k in s.store.exps && k in s.store.data && s.store.data[k] == S.List([]);
      assert S.At(s.store, k).value == Some(S.List([]));
    }
  }

  /** Every snapshot is written from a short store without expiring empty lists. */
  ghost predicate CleanWrites(w: World, events: seq<Event>, clock: Clock)
    requires ClientsValid(w)
    decreases |events|
  {
    events == [] ||
    var init, e := events[..|events| - 1], events[|events| - 1];
    var before := Run(w, init, clock).0;
    CleanWrites(w, init, clock) && (e.Write? ==> Short(before.store) && !EmptyExpiring(before.store))
  }

  ghost predicate CleanSave(s: Snapshots.Save) {
    Snapshots.ValidSave(s) && Snapshots.StorableStore(s.store) && Owned(s.store) && !EmptyExpiring(s.store)
  }

  ghost predicate CleanDisk(w: World) {
    w.disk.Some? ==> exists s :: CleanSave(s) && w.disk.value == Snapshots.File(s)
  }

  lemma StepOwned(w: World, e: Event, clock: Clock)
    requires ClientsValid(w) && SoundWorld(w) && Owned(w.store) && CleanDisk(w)
    requires e.Write? ==> Short(w.store) && !EmptyExpiring(w.store)
    ensures Owned(Step(w, e, clock).0.store) && CleanDisk(Step(w, e, clock).0)
  {
    hide Dispatch, F.Load, Snapshots.File, AfterRounds, Owned, SoundStore, Short, EmptyExpiring;
    hide Snapshots.ValidSave, Snapshots.StorableStore;
    match e
    case Act(id, c) => DispatchOwned(SessionOf(w, id), c, clock);
    case Purge(rounds) => RoundsOwned(w.store, rounds);
    case Write(dataOrder, expOrder, saved) =>
      ShortIsStorable(w.store);
      var s := Snapshots.Save(w.store, dataOrder, expOrder, saved);
      assert Snapshots.ValidSave(s) ==> CleanSave(s);
    case Restart(loaded) =>
      EmptySound();
      if w.disk.Some? && F.Load(w.disk.value, loaded).Some? {
        var s :| CleanSave(s) && w.disk.value == Snapshots.File(s);
        RestartOwnedExactly(s, loaded);
      }
    case _ =>
  }

  lemma {:induction false} RunOwned(w: World, events: seq<Event>, clock: Clock)
    requires ClientsValid(w) && SoundWorld(w) && SoundEvents(events) && Owned(w.store) && CleanDisk(w)
    requires CleanWrites(w, events, clock)
    ensures Owned(Run(w, events, clock).0.store) && CleanDisk(Run(w, events, clock).0)
    decreases |events|
  {
    hide Step, SoundWorld, Sound, ClientsValid, Owned, CleanDisk, Short, EmptyExpiring;
    if events != [] {
      var init := events[..|events| - 1];
      RunOwned(w, init, clock);
      RunSound(w, init, clock);
      StepOwned(Run(w, init, clock).0, events[|events| - 1], clock);
    }
  }

  /**
   Every key with a deadline has a value, after any run whose snapshots were written from stores without
   expiring empty lists.
   */
  lemma ReachableDeadlines(events: seq<Event>, clock: Clock)
    requires SoundEvents(events) && ClientsValid(START) && CleanWrites(START, events, clock)
    ensures var s := Run(START, events, clock).0.store; s.exps.Keys <= s.data.Keys
  {
    StartValid();
    RunOwned(START, events, clock);
    var s := Run(START, events, clock).0.store;
    hide Run;
    assert forall k :: k in s.exps ==> S.At(s, k).deadline.Some?;
    assert forall k :: k in s.exps ==> S.At(s, k).value.Some?;
  }

  lemma RunSnoc(w: World, events: seq<Event>, e: Event, clock: Clock)
    requires ClientsValid(w)
    ensures var before := Run(w, events, clock);
      var d := Step(before.0, e, clock);
      Run(w, events + [e], clock) == (d.0, before.1 + d.1)
  {
    hide Step;
    assert (events + [e])[..|events|] == events;
  }

  /** A list without items, with a deadline. */
  function EmptyList(k: S.Key, at: S.Instant): S.Store {
    S.Store(map[k := S.List([])], map[k := at])
  }

  /** A command of a client outside a transaction. */
  lemma DirectAct(w: World, id: nat, c: Command, clock: Clock)
    requires ClientsValid(w) && w.up && TxOf(w, id) == IDLE && !IsControl(c)
    ensures var r := ExecCommand(w.store, c, clock(w.tick));
      var next := w.(txs := w.txs[id := IDLE], store := r.0, tick := w.tick + 1);
      Step(w, Act(id, c), clock) == (next, [Delivery(id, r.1)])
  {
    hide ExecCommand, RunAll;
  }

  lemma EmptyPush(k: S.Key, now: S.Instant)
    ensures ExecCommand(S.EMPTY, LPUSH(k, []), now).0 == S.Store(map[k := S.List([])], map[])
  {
    assert S.Reversed(Strings([])) == [];
  }

  lemma EmptyExpire(k: S.Key, at: S.Instant, now: S.Instant)
    ensures ExecCommand(S.Store(map[k := S.List([])], map[]), EXPIRE(k, at, None), now).0 == EmptyList(k, at)
  {
  }

  lemma MadeByCommands(k: S.Key, at: S.Instant, clock: Clock)
    ensures ClientsValid(START)
    ensures var w := Run(START, [Act(0, LPUSH(k, [])), Act(0, EXPIRE(k, at, None))], clock).0;
      w.up && w.store == EmptyList(k, at)
  {
    hide Run, ExecCommand, Step;
    StartValid();
    var push, expire := Act(0, LPUSH(k, [])), Act(0, EXPIRE(k, at, None));
    NothingRun(clock);
    assert [] + [push] == [push] && [push] + [expire] == [push, expire];
    RunSnoc(START, [], push, clock);
    DirectAct(START, 0, LPUSH(k, []), clock);
    EmptyPush(k, clock(0));
    var one := Run(START, [push], clock).0;
    RunSnoc(START, [push], expire, clock);
    DirectAct(one, 0, EXPIRE(k, at, None), clock);
    EmptyExpire(k, at, clock(one.tick));
  }

  lemma NothingRun(clock: Clock)
    requires ClientsValid(START)
    ensures Run(START, [], clock) == (START, [])
  {
  }

  /**
   The condition on snapshots is needed: LPUSH without values, EXPIRE, a snapshot and a restart leave a
   deadline without a value.
   */
  lemma OrphanAfterRestart(k: S.Key, at: S.Instant, clock: Clock, saved: nat -> F.Reading, loaded: nat -> F.Reading)
    requires R.Storable(k) && !R.Collides(k)
    ensures ClientsValid(START)
    ensures var acts := [Act(0, LPUSH(k, [])), Act(0, EXPIRE(k, at, None))];
      var run := acts + [Write([k], [k], saved)] + [Restart(loaded)];
      var s := Run(START, run, clock).0.store;
      k in s.exps && k !in s.data
  {
    hide Run, F.Load, Snapshots.File, R.Collides, Utf8.Valid, Snapshots.Reloaded;
    var acts := [Act(0, LPUSH(k, [])), Act(0, EXPIRE(k, at, None))];
    MadeByCommands(k, at, clock);
    RunSnoc(START, acts, Write([k], [k], saved), clock);
    RunSnoc(START, acts + [Write([k], [k], saved)], Restart(loaded), clock);
    var s := Snapshots.Save(EmptyList(k, at), [k], [k], saved);
    assert s.dataOrder[0] == k && s.expOrder[0] == k;
    assert Snapshots.ValidSave(s) && Snapshots.StorableStore(s.store) && !Snapshots.SomeKeyCollides(s.store);
    Snapshots.SnapshotRoundTrip(s, loaded);
    assert k in s.store.exps.Keys;
  }

  // ---- What a restart brings back ----

  /** A client that leaves takes its queue with it; the others keep theirs. */
  lemma LeaveForgets(w: World, id: nat, other: nat, clock: Clock)
    requires ClientsValid(w) && w.up
    ensures TxOf(Step(w, Leave(id), clock).0, other) == if other == id then IDLE else TxOf(w, other)
    ensures Step(w, Leave(id), clock).0.store == w.store
  {
  }

  /** Neither a snapshot nor a restart. */
  ghost predicate Running(events: seq<Event>) {
    forall i :: 0 <= i < |events| ==> !events[i].Write? && !events[i].Restart?
  }

  lemma {:induction false} DiskStays(w: World, events: seq<Event>, clock: Clock)
    requires ClientsValid(w) && w.up && Running(events)
    ensures var end := Run(w, events, clock).0; end.up && end.disk == w.disk
    decreases |events|
  {
    hide Dispatch, AfterRounds;
    if events != [] {
      DiskStays(w, events[..|events| - 1], clock);
    }
  }

  ghost predicate AllIdle(w: World) {
    forall id :: TxOf(w, id) == IDLE
  }

  /** Without a snapshot a restart begins with nothing, whatever was there before. */
  lemma RestartEmpty(events: seq<Event>, loaded: nat -> F.Reading, clock: Clock)
    requires Running(events)
    ensures ClientsValid(START)
    ensures var end := Run(START, events + [Restart(loaded)], clock).0; end.up && end.store == S.EMPTY && AllIdle(end)
  {
    hide Run;
    StartValid();
    DiskStays(START, events, clock);
    RunSnoc(START, events, Restart(loaded), clock);
  }

  /**
   A snapshot, then any run of any clients, then a restart: the values of the snapshot come back but for empty
   lists, its deadlines come back converted, and everything since is forgotten.
   */
  lemma RestartBringsBack(w: World, s: Snapshots.Save, events: seq<Event>, loaded: nat -> F.Reading, clock: Clock)
    requires ClientsValid(w) && w.up && s.store == w.store && Running(events)
    requires Snapshots.ValidSave(s) && Snapshots.StorableStore(s.store) && !Snapshots.SomeKeyCollides(s.store)
    ensures var run := [Write(s.dataOrder, s.expOrder, s.clock)] + events + [Restart(loaded)];
      var end := Run(w, run, clock).0;
      && end.up && AllIdle(end)
      && end.store.data == Snapshots.NonEmpty(s.store.data, s.dataOrder)
      && end.store.exps.Keys == s.store.exps.Keys
      && forall i :: 0 <= i < |s.expOrder| ==> end.store.exps[s.expOrder[i]] == Snapshots.Reloaded(s, i, loaded)
  {
    hide Run, F.Load, Snapshots.File, Snapshots.StorableStore, Snapshots.SomeKeyCollides, Snapshots.ValidSave;
    hide Snapshots.NonEmpty, Snapshots.Reloaded, Dispatch, AfterRounds;
    var write := Write(s.dataOrder, s.expOrder, s.clock);
    var saved := Step(w, write, clock).0;
    assert saved == w.(disk := Some(Snapshots.File(s)));
    StepClients(w, write, clock);
    DiskStays(saved, events, clock);
    RunCons(w, write, events, clock);
    RunSnoc(w, [write] + events, Restart(loaded), clock);
    Snapshots.SnapshotRoundTrip(s, loaded);
  }

  lemma {:induction false} RunCons(w: World, e: Event, events: seq<Event>, clock: Clock)
    requires ClientsValid(w) && ClientsValid(Step(w, e, clock).0)
    ensures Run(w, [e] + events, clock).0 == Run(Step(w, e, clock).0, events, clock).0
    decreases |events|
  {
    hide Step, Run;
    if events == [] {
      RunOnce(w, e, clock);
      assert [e] + events == [e];
    } else {
      var init, l := events[..|events| - 1], events[|events| - 1];
      assert [e] + events == [e] + init + [l] && events == init + [l];
      RunCons(w, e, init, clock);
      RunSnoc(w, [e] + init, l, clock);
      RunSnoc(Step(w, e, clock).0, init, l, clock);
    }
  }

  lemma RunOnce(w: World, e: Event, clock: Clock)
    requires ClientsValid(w) && ClientsValid(Step(w, e, clock).0)
    ensures Run(w, [e], clock).0 == Step(w, e, clock).0 && Run(Step(w, e, clock).0, [], clock).0 == Step(w, e, clock).0
  {
    hide Step;
    assert [e][..0] == [];
    assert Run(w, [], clock) == (w, []);
  }
}
