/**
 Which pairs of operations on one key are serialisable: the invariants of `Races` give every interleaving of
 compatible operations a serial explanation, and the schedules here have none.
 */
module Conflicts {
  import opened ByteStrings
  import opened Store
  import I = Interleaving
  import opened Races

  type Job = I.Job

  /** The state after the calls of a schedule, in which 0 stands for `a` and anything else for `b`. */
  ghost function Interleaved(c: Cell, a: Job, b: Job, schedule: seq<nat>): Duo {
    if schedule == [] then Opening(c, a, b)
    else
      var d := Interleaved(c, a, b, schedule[..|schedule| - 1]);
      if schedule[|schedule| - 1] == 0 then StepA(d, a) else StepB(d, b)
  }

  ghost predicate Reaches(c: Cell, a: Job, b: Job, d: Duo) {
    exists schedule :: I.Schedule(schedule, 2) && Interleaved(c, a, b, schedule) == d
  }

  /** However the calls interleave, the two operations end as if one had run whole before the other. */
  ghost predicate AlwaysSerial(c: Cell, a: Job, b: Job) {
    forall d :: Reaches(c, a, b, d) && Ended(d) ==> Serial(c, a, b, d)
  }

  // ---- Compatible operations ----

  /** What holds throughout, for operations in rank order. */
  ghost predicate Good(c: Cell, a: Job, b: Job, d: Duo)
    requires Kind(a.op) <= Kind(b.op)
  {
    if a.op.Set? then
      if b.op.Set? then SetSet(c, a.op, b.op, d)
      else if I.Checks(b.op) then SetCheck(c, a.op, b.op, b.now, d)
      else if b.op.Delete? then SetDelete(c, a.op, d)
      else if Pushes(b.op) then SetPush(c, a.op, b.op, d)
      else SetExpire(c, a.op, b.op, d)
    else if I.Checks(a.op) then
      if I.Checks(b.op) then CheckCheck(c, a, b, d)
      else if b.op.Delete? then CheckDelete(c, a, d)
      else if Pushes(b.op) then CheckPush(c, a, b.op, d)
      else CheckExpire(c, a, b.op, d)
    else if a.op.Delete? then
      if b.op.Delete? then DeleteDelete(c, d)
      else if Pushes(b.op) then DeletePush(c, b.op, d)
      else DeleteExpire(c, b.op, d)
    else if Pushes(a.op) then
      if Pushes(b.op) then PushPush(c, a.op, b.op, d) else PushExpire(c, a.op, b.op, d)
    else ExpireExpire(c, a.op, b.op, d)
  }

  /** SET stores strings: what `SET` hands to the store. */
  predicate StoresString(op: Op) {
    op.Set? ==> op.val.Str?
  }

  lemma GoodOpening(c: Cell, a: Job, b: Job)
    requires Kind(a.op) <= Kind(b.op)
    ensures Good(c, a, b, Opening(c, a, b))
  {
    hide I.Call, I.ReadOutcome, Updates, Pushed;
  }

  lemma GoodSteps(c: Cell, a: Job, b: Job, d: Duo)
    requires Kind(a.op) <= Kind(b.op) && Ranked(c, a, b) && StoresString(a.op) && Good(c, a, b, d)
    ensures Good(c, a, b, StepA(d, a)) && Good(c, a, b, StepB(d, b))
  {
    hide StepA, StepB, SetSet, SetCheck, SetDelete, SetPush, SetExpire, CheckCheck, CheckDelete, CheckPush, CheckExpire;
    hide DeletePush, DeleteExpire, DeleteDelete, PushPush, PushExpire, ExpireExpire, MayWrite;
    hide SetsAgree, SetAndExpire, ExpiresAgree;
    if a.op.Set? {
      if b.op.Set? { SetSetSteps(c, a, b, d); }
      else if I.Checks(b.op) { SetCheckSteps(c, a, b, d); }
      else if b.op.Delete? { SetDeleteSteps(c, a, b, d); }
      else if Pushes(b.op) { SetPushSteps(c, a, b, d); }
      else { SetExpireSteps(c, a, b, d); }
    } else if I.Checks(a.op) {
      if I.Checks(b.op) { CheckCheckSteps(c, a, b, d); }
      else if b.op.Delete? { CheckDeleteSteps(c, a, b, d); }
      else if Pushes(b.op) { CheckPushSteps(c, a, b, d); }
      else { CheckExpireStepA(c, a, b, d); CheckExpireStepB(c, a, b, d); }
    } else if a.op.Delete? {
      if b.op.Delete? { DeleteDeleteSteps(c, a, b, d); }
      else if Pushes(b.op) { DeletePushSteps(c, a, b, d); }
      else { DeleteExpireSteps(c, a, b, d); }
    } else if Pushes(a.op) {
      if Pushes(b.op) { PushPushSteps(c, a, b, d); } else { PushExpireSteps(c, a, b, d); }
    } else {
      ExpireExpireStepA(c, a, b, d);
      ExpireExpireStepB(c, a, b, d);
    }
  }

  lemma GoodEnds(c: Cell, a: Job, b: Job, d: Duo)
    requires Kind(a.op) <= Kind(b.op) && Ranked(c, a, b) && StoresString(a.op) && Good(c, a, b, d) && Ended(d)
    ensures Serial(c, a, b, d)
  {
    hide Serial, SetSet, SetCheck, SetDelete, SetPush, SetExpire, CheckCheck, CheckDelete, CheckPush, CheckExpire;
    hide DeletePush, DeleteExpire, DeleteDelete, PushPush, PushExpire, ExpireExpire, MayWrite;
    hide SetsAgree, SetAndExpire, ExpiresAgree;
    if a.op.Set? {
      if b.op.Set? { SetSetEnds(c, a, b, d); }
      else if I.Checks(b.op) { SetCheckEnds(c, a, b, d); }
      else if b.op.Delete? { SetDeleteEnds(c, a, b, d); }
      else if Pushes(b.op) { SetPushEnds(c, a, b, d); }
      else { SetExpireEnds(c, a, b, d); }
    } else if I.Checks(a.op) {
      if I.Checks(b.op) { CheckCheckEnds(c, a, b, d); }
      else if b.op.Delete? { CheckDeleteEnds(c, a, b, d); }
      else if Pushes(b.op) { CheckPushEnds(c, a, b, d); }
      else { CheckExpireEnds(c, a, b, d); }
    } else if a.op.Delete? {
      if b.op.Delete? { DeleteDeleteEnds(c, a, b, d); }
      else if Pushes(b.op) { DeletePushEnds(c, a, b, d); }
      else { DeleteExpireEnds(c, a, b, d); }
    } else if Pushes(a.op) {
      if Pushes(b.op) { PushPushEnds(c, a, b, d); } else { PushExpireEnds(c, a, b, d); }
    } else {
      ExpireExpireEnds(c, a, b, d);
    }
  }

  lemma {:induction false} GoodThroughout(c: Cell, a: Job, b: Job, schedule: seq<nat>)
    requires Kind(a.op) <= Kind(b.op) && Ranked(c, a, b) && StoresString(a.op)
    ensures Good(c, a, b, Interleaved(c, a, b, schedule))
    decreases |schedule|
  {
    hide Good, StepA, StepB, Ranked, Opening;
    if schedule == [] {
      GoodOpening(c, a, b);
    } else {
      var init := schedule[..|schedule| - 1];
      GoodThroughout(c, a, b, init);
      GoodSteps(c, a, b, Interleaved(c, a, b, init));
    }
  }

  lemma CompatibleIsSerial(c: Cell, a: Job, b: Job)
    requires Kind(a.op) <= Kind(b.op) && Ranked(c, a, b) && StoresString(a.op)
    ensures AlwaysSerial(c, a, b)
  {
    hide Good, Ranked, Interleaved, Serial;
    forall d | Reaches(c, a, b, d) && Ended(d) ensures Serial(c, a, b, d) {
      var schedule :| I.Schedule(schedule, 2) && Interleaved(c, a, b, schedule) == d;
      GoodThroughout(c, a, b, schedule);
      GoodEnds(c, a, b, d);
    }
  }

  // ---- Incompatible operations: a schedule without serial explanation ----

  lemma Start(c: Cell, a: Job, b: Job) returns (d: Duo)
    ensures d == Opening(c, a, b) && Reaches(c, a, b, d)
  {
    d := Opening(c, a, b);
    assert Interleaved(c, a, b, []) == d;
  }

  /** The next call is one of `a`. */
  lemma A(c: Cell, a: Job, b: Job, d: Duo) returns (e: Duo)
    requires Reaches(c, a, b, d)
    ensures e == StepA(d, a) && Reaches(c, a, b, e)
  {
    hide StepA, StepB, Opening;
    var s :| I.Schedule(s, 2) && Interleaved(c, a, b, s) == d;
    e := StepA(d, a);
    assert (s + [0])[..|s|] == s && I.Schedule(s + [0], 2);
    assert Interleaved(c, a, b, s + [0]) == e;
  }

  /** The next call is one of `b`. */
  lemma B(c: Cell, a: Job, b: Job, d: Duo) returns (e: Duo)
    requires Reaches(c, a, b, d)
    ensures e == StepB(d, b) && Reaches(c, a, b, e)
  {
    hide StepA, StepB, Opening;
    var s :| I.Schedule(s, 2) && Interleaved(c, a, b, s) == d;
    e := StepB(d, b);
    assert (s + [1])[..|s|] == s && I.Schedule(s + [1], 2);
    assert Interleaved(c, a, b, s + [1]) == e;
  }

  ghost predicate Unexplained(c: Cell, a: Job, b: Job, d: Duo) {
    Reaches(c, a, b, d) && Ended(d) && !Serial(c, a, b, d)
  }

  /** Two SETs: the value of one stays with the deadline of the other. */
  lemma TornSets(c: Cell, a: Job, b: Job) returns (d: Duo)
    requires a.op.Set? && b.op.Set? && !SetsAgree(a.op, b.op)
    ensures Unexplained(c, a, b, d)
  {
    hide Reaches;
    d := Start(c, a, b);
    if b.op.expiresAt.Some? {
      d := B(c, a, b, d);
      d := B(c, a, b, d);
      d := A(c, a, b, d);
      d := A(c, a, b, d);
      if a.op.expiresAt.Some? {
        d := A(c, a, b, d);
      }
      d := B(c, a, b, d);
    } else {
      d := A(c, a, b, d);
      d := A(c, a, b, d);
      d := B(c, a, b, d);
      d := B(c, a, b, d);
      d := A(c, a, b, d);
    }
  }

  /** A read or purge that found the key past its deadline removes the value a SET has just stored. */
  lemma SetLost(c: Cell, a: Job, b: Job) returns (d: Duo)
    requires a.op.Set? && I.Checks(b.op) && Expired(c, b.now)
    ensures Unexplained(c, a, b, d) && d.cell.value.None? && d.a == I.Finished(Done)
  {
    hide Reaches, I.ReadOutcome;
    CheckIs(b.op, c, b.now);
    CheckIs(b.op, Cell(Some(a.op.val), a.op.expiresAt), b.now);
    d := Start(c, a, b);
    d := B(c, a, b, d);
    d := B(c, a, b, d);
    d := A(c, a, b, d);
    d := A(c, a, b, d);
    if a.op.expiresAt.Some? && !Passed(a.op.expiresAt, b.now) {
      d := A(c, a, b, d);
    }
    d := B(c, a, b, d);
    d := B(c, a, b, d);
    if Passed(a.op.expiresAt, b.now) {
      d := A(c, a, b, d);
    }
  }

  /** A read sees a value whose deadline has passed, because SET stores the deadline after the value. */
  lemma LapsedValueSeen(c: Cell, a: Job, b: Job) returns (d: Duo)
    requires a.op.Set? && I.Checks(b.op) && !Expired(c, b.now) && !SetAndCheck(c, a.op, b.op, b.now)
    ensures Unexplained(c, a, b, d)
  {
    hide Reaches;
    CheckIs(b.op, c, b.now);
    CheckIs(b.op, Cell(Some(a.op.val), a.op.expiresAt), b.now);
    d := Start(c, a, b);
    d := A(c, a, b, d);
    d := B(c, a, b, d);
    d := A(c, a, b, d);
    d := B(c, a, b, d);
    d := A(c, a, b, d);
  }

  /** DELETE takes the deadline of a value that SET stored meanwhile. */
  lemma DeadlineLost(c: Cell, a: Job, b: Job) returns (d: Duo)
    requires a.op.Set? && b.op.Delete? && a.op.expiresAt.Some?
    ensures Unexplained(c, a, b, d)
  {
    hide Reaches;
    d := Start(c, a, b);
    d := B(c, a, b, d);
    d := A(c, a, b, d);
    d := A(c, a, b, d);
    d := A(c, a, b, d);
    d := B(c, a, b, d);
  }

  /** A push that found no list overwrites the string that SET stored meanwhile. */
  lemma StringOverwritten(c: Cell, a: Job, b: Job) returns (d: Duo)
    requires a.op.Set? && a.op.val.Str? && Pushes(b.op) && c.value.None?
    ensures Unexplained(c, a, b, d)
  {
    hide Reaches;
    d := Start(c, a, b);
    d := B(c, a, b, d);
    d := A(c, a, b, d);
    d := A(c, a, b, d);
    if a.op.expiresAt.Some? {
      d := A(c, a, b, d);
    }
    d := B(c, a, b, d);
  }

  /** EXPIRE decides by a deadline that SET is replacing. */
  lemma StaleDecision(c: Cell, a: Job, b: Job) returns (d: Duo)
    requires a.op.Set? && b.op.Expire? && c.value.Some? && !SetAndExpire(c, a.op, b.op)
    ensures Unexplained(c, a, b, d)
  {
    hide Reaches;
    ExpireIs(b.op, c, b.now);
    ExpireIs(b.op, Cell(Some(a.op.val), a.op.expiresAt), b.now);
    d := Start(c, a, b);
    if !Updates(b.op, c.deadline) {
      d := A(c, a, b, d);
    }
    d := B(c, a, b, d);
    d := B(c, a, b, d);
    if Updates(b.op, c.deadline) {
      d := A(c, a, b, d);
    }
    d := A(c, a, b, d);
    if a.op.expiresAt.Some? {
      d := A(c, a, b, d);
    }
    d := B(c, a, b, d);
  }

  /** EXPIRE finds the value of a SET that has not stored its deadline yet. */
  lemma HalfSetSeen(c: Cell, a: Job, b: Job) returns (d: Duo)
    requires a.op.Set? && b.op.Expire? && c.value.None? && !SetAndExpire(c, a.op, b.op)
    ensures Unexplained(c, a, b, d)
  {
    hide Reaches;
    ExpireIs(b.op, c, b.now);
    ExpireIs(b.op, Cell(Some(a.op.val), a.op.expiresAt), b.now);
    d := Start(c, a, b);
    d := A(c, a, b, d);
    d := A(c, a, b, d);
    d := B(c, a, b, d);
    if Updates(b.op, a.op.expiresAt) {
      d := B(c, a, b, d);
      if !d.b.Finished? {
        d := B(c, a, b, d);
      }
      d := A(c, a, b, d);
    } else {
      d := B(c, a, b, d);
      d := A(c, a, b, d);
      d := B(c, a, b, d);
    }
  }

  /** EXPIRE up to its insertion, when it decides by the deadline in place. */
  lemma Decide(c: Cell, a: Job, b: Job, d: Duo) returns (e: Duo)
    requires Reaches(c, a, b, d) && b.op.Expire? && d.b == I.ExpireLookup
    requires d.cell.value.Some? && Updates(b.op, d.cell.deadline)
    ensures Reaches(c, a, b, e) && e == Duo(d.cell, d.a, I.ExpireInsert)
  {
    hide Reaches, Updates, Known, I.Call;
    ExpireIs(b.op, d.cell, 0);
    ExpireCalls(b.op, d.cell, b.now);
    e := B(c, a, b, d);
    if b.op.option.Some? {
      e := B(c, a, b, e);
    }
  }

  /** EXPIRE that has found a value: once the key is empty, it writes a deadline there. */
  lemma WriteOrphan(c: Cell, a: Job, b: Job, d: Duo) returns (e: Duo)
    requires Reaches(c, a, b, d) && b.op.Expire? && d.cell == ABSENT
    requires d.b == I.ExpireInsert || (d.b == I.ExpireTest && Updates(b.op, None))
    ensures Reaches(c, a, b, e) && e == Duo(Cell(None, Some(b.op.at)), d.a, I.Finished(Done))
  {
    hide Reaches, Updates, Known, I.Call;
    ExpireCalls(b.op, ABSENT, b.now);
    e := d;
    if d.b == I.ExpireTest {
      e := B(c, a, b, e);
    }
    e := B(c, a, b, e);
  }

  /** EXPIRE up to the point where only an empty key is missing. */
  lemma Prepare(c: Cell, a: Job, b: Job) returns (d: Duo)
    requires b.op.Expire? && MayWrite(b.op, c)
    ensures Reaches(c, a, b, d) && d.cell == c && d.a == I.First(a.op)
    ensures d.b == I.ExpireInsert || (d.b == I.ExpireTest && Updates(b.op, None))
  {
    hide Reaches, Updates, Known, I.Call, I.First;
    ExpireIs(b.op, c, 0);
    ExpireCalls(b.op, c, b.now);
    d := Start(c, a, b);
    assert d.b == I.ExpireLookup by { FirstOfExpire(b.op); }
    if Updates(b.op, c.deadline) {
      d := Decide(c, a, b, d);
    } else {
      d := B(c, a, b, d);
    }
  }

  lemma FirstOfExpire(op: Op)
    requires op.Expire?
    ensures I.First(op) == I.ExpireLookup
  {
  }

  /** EXPIRE leaves a deadline on a key that a check or DELETE has emptied meanwhile. */
  lemma OrphanedByCheck(c: Cell, a: Job, b: Job) returns (d: Duo)
    requires I.Checks(a.op) && b.op.Expire? && Expired(c, a.now) && MayWrite(b.op, c)
    ensures Unexplained(c, a, b, d) && d.cell == Cell(None, Some(b.op.at))
  {
    hide Reaches, I.ReadOutcome, Updates, Known;
    ExpireIs(b.op, c, b.now);
    ExpireIs(b.op, ABSENT, b.now);
    CheckIs(a.op, c, a.now);
    CheckIs(a.op, CellOp(b.op, c, b.now).0, a.now);
    d := Prepare(c, a, b);
    d := A(c, a, b, d);
    d := A(c, a, b, d);
    d := A(c, a, b, d);
    d := A(c, a, b, d);
    d := WriteOrphan(c, a, b, d);
  }

  lemma OrphanedByDelete(c: Cell, a: Job, b: Job) returns (d: Duo)
    requires a.op.Delete? && b.op.Expire? && MayWrite(b.op, c)
    ensures Unexplained(c, a, b, d) && d.cell == Cell(None, Some(b.op.at))
  {
    hide Reaches, Updates, Known;
    ExpireIs(b.op, c, b.now);
    ExpireIs(b.op, ABSENT, b.now);
    d := Prepare(c, a, b);
    d := A(c, a, b, d);
    d := A(c, a, b, d);
    d := WriteOrphan(c, a, b, d);
  }

  /** The items of the list in a cell. */
  function Size(c: Cell): nat {
    if c.value.Some? && c.value.value.List? then |c.value.value.items| else 0
  }

  lemma BothPushed(c: Cell, x: Op, y: Op)
    requires Pushes(x) && Pushes(y) && c.value.None?
    ensures Size(Pushed(x, c).0) == |x.values| && Pushed(x, c).0.value.Some? && Pushed(x, c).0.value.value.List?
    ensures Size(Pushed(y, Pushed(x, c).0).0) == |x.values| + |y.values|
  {
  }

  /** Two pushes that both found no list: the first one to insert is lost, though both report success. */
  lemma PushLost(c: Cell, a: Job, b: Job) returns (d: Duo)
    requires Pushes(a.op) && Pushes(b.op) && c.value.None? && !(a.op.values == [] && b.op.values == [])
    ensures Unexplained(c, a, b, d) && d.a == d.b == I.Finished(Done)
  {
    hide Reaches, PushCell, Pushed, I.Call, CellOp;
    var ab, ba := Pushed(b.op, Pushed(a.op, c).0).0, Pushed(a.op, Pushed(b.op, c).0).0;
    BothPushed(c, a.op, b.op);
    BothPushed(c, b.op, a.op);
    PushIs(a.op, c, a.now);
    PushIs(b.op, c, b.now);
    PushIs(b.op, Pushed(a.op, c).0, b.now);
    PushIs(a.op, Pushed(b.op, c).0, a.now);
    d := Start(c, a, b);
    d := A(c, a, b, d);
    d := B(c, a, b, d);
    if a.op.values != [] {
      d := A(c, a, b, d);
      d := B(c, a, b, d);
      assert d.cell == Pushed(b.op, c).0;
    } else {
      d := B(c, a, b, d);
      d := A(c, a, b, d);
      assert d.cell == Pushed(a.op, c).0;
    }
  }

  /** Two EXPIREs that decided by the same old deadline. */
  lemma BothDecided(c: Cell, a: Job, b: Job) returns (d: Duo)
    requires a.op.Expire? && b.op.Expire? && !ExpiresAgree(c, a.op, b.op)
    ensures Unexplained(c, a, b, d)
  {
    hide Reaches, Updates, Known, I.Call, CellOp;
    ExpireIs(a.op, c, a.now);
    ExpireIs(b.op, c, b.now);
    ExpireIs(b.op, c.(deadline := Some(a.op.at)), b.now);
    ExpireIs(a.op, c.(deadline := Some(b.op.at)), a.now);
    ExpireCalls(a.op, c, a.now);
    ExpireCalls(b.op, c, b.now);
    d := Start(c, a, b);
    d := A(c, a, b, d);
    if a.op.option.Some? {
      d := A(c, a, b, d);
    }
    d := B(c, a, b, d);
    if b.op.option.Some? {
      d := B(c, a, b, d);
    }
    assert d == Duo(c, I.ExpireInsert, I.ExpireInsert);
    if Updates(b.op, Some(a.op.at)) {
      d := B(c, a, b, d);
      ExpireCalls(a.op, d.cell, a.now);
      d := A(c, a, b, d);
    } else {
      d := A(c, a, b, d);
      ExpireCalls(b.op, d.cell, b.now);
      d := B(c, a, b, d);
    }
  }

  lemma IncompatibleIsNot(c: Cell, a: Job, b: Job) returns (d: Duo)
    requires Kind(a.op) <= Kind(b.op) && !Ranked(c, a, b) && StoresString(a.op)
    ensures Unexplained(c, a, b, d)
  {
    hide Unexplained, SetsAgree, SetAndCheck, SetAndExpire, MayWrite, ExpiresAgree;
    if a.op.Set? {
      if b.op.Set? { d := TornSets(c, a, b); }
      else if I.Checks(b.op) {
        if Expired(c, b.now) { d := SetLost(c, a, b); } else { d := LapsedValueSeen(c, a, b); }
      }
      else if b.op.Delete? { d := DeadlineLost(c, a, b); }
      else if Pushes(b.op) { d := StringOverwritten(c, a, b); }
      else if c.value.Some? { d := StaleDecision(c, a, b); }
      else { d := HalfSetSeen(c, a, b); }
    } else if I.Checks(a.op) {
      d := OrphanedByCheck(c, a, b);
    } else if a.op.Delete? {
      d := OrphanedByDelete(c, a, b);
    } else if Pushes(a.op) {
      d := PushLost(c, a, b);
    } else {
      d := BothDecided(c, a, b);
    }
  }

  lemma RankedExactly(c: Cell, a: Job, b: Job)
    requires Kind(a.op) <= Kind(b.op) && StoresString(a.op)
    ensures AlwaysSerial(c, a, b) <==> Ranked(c, a, b)
  {
    hide Ranked, Reaches, Serial;
    if Ranked(c, a, b) {
      CompatibleIsSerial(c, a, b);
    } else {
      var d := IncompatibleIsNot(c, a, b);
    }
  }

  // ---- Either order of the two ----

  function Swapped(d: Duo): Duo {
    Duo(d.cell, d.b, d.a)
  }

  function Flipped(schedule: seq<nat>): (r: seq<nat>)
    ensures |r| == |schedule| && forall i :: 0 <= i < |r| ==> r[i] == if schedule[i] == 0 then 1 else 0
  {
    seq(|schedule|, i requires 0 <= i < |schedule| => if schedule[i] == 0 then 1 else 0)
  }

  lemma {:induction false} FlippedRun(c: Cell, a: Job, b: Job, schedule: seq<nat>)
    ensures Interleaved(c, b, a, Flipped(schedule)) == Swapped(Interleaved(c, a, b, schedule))
    decreases |schedule|
  {
    hide I.Call, I.First;
    if schedule != [] {
      var init := schedule[..|schedule| - 1];
      assert Flipped(schedule)[..|schedule| - 1] == Flipped(init);
      FlippedRun(c, a, b, init);
    }
  }

  lemma Symmetric(c: Cell, a: Job, b: Job)
    requires AlwaysSerial(c, a, b)
    ensures AlwaysSerial(c, b, a)
  {
    hide Interleaved, CellOp;
    forall d | Reaches(c, b, a, d) && Ended(d) ensures Serial(c, b, a, d) {
      var schedule :| I.Schedule(schedule, 2) && Interleaved(c, b, a, schedule) == d;
      FlippedRun(c, b, a, schedule);
      assert I.Schedule(Flipped(schedule), 2);
      assert Reaches(c, a, b, Swapped(d));
    }
  }

  lemma CompatibleExactly(c: Cell, a: Job, b: Job)
    requires StoresString(a.op) && StoresString(b.op)
    ensures AlwaysSerial(c, a, b) <==> Compatible(c, a, b)
  {
    hide AlwaysSerial, Ranked, Kind;
    if Kind(a.op) <= Kind(b.op) {
      RankedExactly(c, a, b);
    } else {
      RankedExactly(c, b, a);
      if AlwaysSerial(c, a, b) { Symmetric(c, a, b); }
      if AlwaysSerial(c, b, a) { Symmetric(c, b, a); }
    }
  }

  // ---- On the store ----

  /** Two clients with one operation each. */
  function Pair(s: Store, a: Job, b: Job): I.Config {
    I.Config(s, [I.Begin([a], []), I.Begin([b], [])])
  }

  /** A client at the given point of its only job. */
  function Shown(j: Job, pc: I.Pc): I.Client {
    if pc.Finished? then I.Client([], I.Finished(Done), [pc.out]) else I.Client([j], pc, [])
  }

  function View(s: Store, k: Key, a: Job, b: Job, d: Duo): I.Config {
    I.Config(Put(s, k, d.cell), [Shown(a, d.a), Shown(b, d.b)])
  }

  lemma ShownStep(s: Store, cell: Cell, j: Job, pc: I.Pc)
    ensures var r := I.Call(cell, j.op, j.now, pc);
      I.StepClient(Put(s, j.key, cell), Shown(j, pc)) == (Put(s, j.key, r.0), Shown(j, r.1))
  {
    var r := I.Call(cell, j.op, j.now, pc);
    if !pc.Finished? {
      hide I.Call, Put, At;
      I.PutTwice(s, j.key, cell, r.0);
      assert [j][1..] == [];
      if r.1.Finished? {
        assert [] + [r.1.out] == [r.1.out];
      }
    }
  }

  lemma {:induction false} ViewRun(s: Store, a: Job, b: Job, schedule: seq<nat>)
    requires a.key == b.key && I.Schedule(schedule, 2)
    ensures I.Run(Pair(s, a, b), schedule) == View(s, a.key, a, b, Interleaved(At(s, a.key), a, b, schedule))
    decreases |schedule|
  {
    var c := At(s, a.key);
    if schedule == [] {
      PutSame(s, a.key);
    } else {
      hide I.Call, I.StepClient, Put, At, Shown, I.Begin, I.Run, Interleaved;
      var init, i := schedule[..|schedule| - 1], schedule[|schedule| - 1];
      assert schedule == init + [i];
      ViewRun(s, a, b, init);
      I.RunSnoc(Pair(s, a, b), init, i);
      InterleavedSnoc(c, a, b, init, i);
      var d := Interleaved(c, a, b, init);
      if i == 0 {
        ShownStep(s, d.cell, a, d.a);
      } else {
        ShownStep(s, d.cell, b, d.b);
      }
    }
  }

  lemma InterleavedSnoc(c: Cell, a: Job, b: Job, init: seq<nat>, i: nat)
    ensures Interleaved(c, a, b, init + [i]) ==
      var d := Interleaved(c, a, b, init); if i == 0 then StepA(d, a) else StepB(d, b)
  {
    hide StepA, StepB;
    assert (init + [i])[..|init|] == init;
  }

  lemma Repeats(order: seq<nat>)
    ensures |order| > 2 && I.Schedule(order, 2) ==> exists p, q :: 0 <= p < q < |order| && order[p] == order[q]
  {
    if |order| > 2 && I.Schedule(order, 2) {
      assert order[0] == order[1] || order[0] == order[2] || order[1] == order[2];
    }
  }

  lemma OrderOfTwo(order: seq<nat>)
    requires I.IsOrder(order, 2)
    ensures order == [0, 1] || order == [1, 0]
  {
    Repeats(order);
    assert 0 in order && 1 in order;
  }

  /** The first job whole, then the second. */
  lemma WholeTwo(s: Store, x: Job, y: Job)
    requires x.key == y.key
    ensures var r := CellOp(x.op, At(s, x.key), x.now);
      var t := I.Whole(s, [x]).0;
      && I.Whole(s, [x]).1 == [r.1]
      && I.Whole(t, [y]) == (Put(s, x.key, CellOp(y.op, r.0, y.now).0), [CellOp(y.op, r.0, y.now).1])
  {
    hide CellOp, I.Whole, At, Put;
    var r := CellOp(x.op, At(s, x.key), x.now);
    I.WholeOne(s, x);
    I.WholeOne(I.Whole(s, [x]).0, y);
    I.PutTwice(s, x.key, r.0, CellOp(y.op, r.0, y.now).0);
  }

  lemma SerialOfTwo(s: Store, clients: seq<I.Client>, x: nat, y: nat)
    requires x < |clients| && y < |clients|
    ensures I.Schedule([x, y], |clients|) && I.Schedule([x], |clients|) && I.Schedule([], |clients|)
    ensures I.Serial(s, clients, []) == s && I.Serial(s, clients, [x]) == I.Whole(s, clients[x].todo).0
    ensures I.Serial(s, clients, [x, y]) == I.Whole(I.Whole(s, clients[x].todo).0, clients[y].todo).0
  {
    hide I.Whole;
    assert [x, y][..1] == [x] && [x][..0] == [];
    assert I.Serial(s, clients, [x][..0]) == s;
    assert I.Serial(s, clients, [x, y][..1]) == I.Whole(s, clients[x].todo).0;
  }

  lemma PutDiffers(s: Store, k: Key, c: Cell, d: Cell)
    ensures Put(s, k, c) == Put(s, k, d) <==> c == d
  {
    hide Put, At;
    PutAt(s, k, c, k);
    PutAt(s, k, d, k);
  }

  /** Ending in the order `a`, `b`, or in the order `b`, `a`, means the same on the store and on the cell. */
  lemma SameEnds(s: Store, a: Job, b: Job, d: Duo)
    requires a.key == b.key && Ended(d)
    ensures I.IsOrder([0, 1], 2) && I.IsOrder([1, 0], 2)
    ensures var k := a.key;
      && (I.EndsSerially(Pair(s, a, b), View(s, k, a, b, d), [0, 1]) <==> d == AThenB(At(s, k), a, b))
      && (I.EndsSerially(Pair(s, a, b), View(s, k, a, b, d), [1, 0]) <==> d == BThenA(At(s, k), a, b))
  {
    hide CellOp, I.Whole, I.Serial, Put, At;
    assert [0, 1][0] == 0 && [0, 1][1] == 1 && [1, 0][0] == 1 && [1, 0][1] == 0;
    SameEndsAB(s, a, b, d);
    SameEndsBA(s, a, b, d);
  }

  lemma SameEndsAB(s: Store, a: Job, b: Job, d: Duo)
    requires a.key == b.key && Ended(d) && I.IsOrder([0, 1], 2)
    ensures I.EndsSerially(Pair(s, a, b), View(s, a.key, a, b, d), [0, 1]) <==> d == AThenB(At(s, a.key), a, b)
  {
    hide CellOp, I.Whole, I.Serial, Put, At;
    var clients := Pair(s, a, b).clients;
    assert [0, 1][..0] == [] && [0, 1][..1] == [0];
    SerialOfTwo(s, clients, 0, 1);
    WholeTwo(s, a, b);
    PutDiffers(s, a.key, d.cell, AThenB(At(s, a.key), a, b).cell);
  }

  lemma SameEndsBA(s: Store, a: Job, b: Job, d: Duo)
    requires a.key == b.key && Ended(d) && I.IsOrder([1, 0], 2)
    ensures I.EndsSerially(Pair(s, a, b), View(s, a.key, a, b, d), [1, 0]) <==> d == BThenA(At(s, a.key), a, b)
  {
    hide CellOp, I.Whole, I.Serial, Put, At;
    var clients := Pair(s, a, b).clients;
    assert [1, 0][..0] == [] && [1, 0][..1] == [1];
    SerialOfTwo(s, clients, 1, 0);
    WholeTwo(s, b, a);
    PutDiffers(s, a.key, d.cell, BThenA(At(s, a.key), a, b).cell);
  }

  lemma DoneIsEnded(s: Store, a: Job, b: Job, d: Duo)
    ensures I.AllDone(View(s, a.key, a, b, d)) <==> Ended(d)
  {
    hide Put;
    var cs := View(s, a.key, a, b, d).clients;
    assert cs[0] == Shown(a, d.a) && cs[1] == Shown(b, d.b);
  }

  /**
   Two operations on one key, any two, from any store: every complete interleaving of their map calls
   leaves the maps and returns the results of some serial order if and only if they are compatible on
   the cell they start from.
   */
  lemma PairsSerialisableExactly(s: Store, a: Job, b: Job)
    requires a.key == b.key && StoresString(a.op) && StoresString(b.op)
    ensures I.Serialisable(Pair(s, a, b)) <==> Compatible(At(s, a.key), a, b)
  {
    hide Compatible, At, I.Run, Interleaved, View, I.EndsSerially, I.AllDone, I.IsOrder;
    var k, c, cfg := a.key, At(s, a.key), Pair(s, a, b);
    CompatibleExactly(c, a, b);
    if AlwaysSerial(c, a, b) {
      forall schedule | I.Schedule(schedule, 2) && I.AllDone(I.Run(cfg, schedule))
        ensures exists order :: I.IsOrder(order, 2) && I.EndsSerially(cfg, I.Run(cfg, schedule), order)
      {
        var d := Interleaved(c, a, b, schedule);
        ViewRun(s, a, b, schedule);
        DoneIsEnded(s, a, b, d);
        assert Reaches(c, a, b, d);
        SameEnds(s, a, b, d);
      }
    } else {
      var d :| Reaches(c, a, b, d) && Ended(d) && !Serial(c, a, b, d);
      var schedule :| I.Schedule(schedule, 2) && Interleaved(c, a, b, schedule) == d;
      ViewRun(s, a, b, schedule);
      DoneIsEnded(s, a, b, d);
      SameEnds(s, a, b, d);
      forall order | I.IsOrder(order, 2) ensures !I.EndsSerially(cfg, I.Run(cfg, schedule), order) {
        OrderOfTwo(order);
      }
    }
  }
}
