/**
 Two operations on one key, at the granularity of single map calls: for every pair of operations, exactly
 when all interleavings are serialisable.
 */
module Races {
  import opened ByteStrings
  import opened Store
  import opened Interleaving

  /** The cell of the key, and the next map call of each operation. */
  datatype Duo = Duo(cell: Cell, a: Pc, b: Pc)

  function StepA(d: Duo, a: Job): Duo {
    var r := Call(d.cell, a.op, a.now, d.a);
    Duo(r.0, r.1, d.b)
  }

  function StepB(d: Duo, b: Job): Duo {
    var r := Call(d.cell, b.op, b.now, d.b);
    Duo(r.0, d.a, r.1)
  }

  /** `a` first, whole, and then `b`. */
  function AThenB(c: Cell, a: Job, b: Job): Duo {
    var x := CellOp(a.op, c, a.now);
    var y := CellOp(b.op, x.0, b.now);
    Duo(y.0, Finished(x.1), Finished(y.1))
  }

  function BThenA(c: Cell, a: Job, b: Job): Duo {
    var y := CellOp(b.op, c, b.now);
    var x := CellOp(a.op, y.0, a.now);
    Duo(x.0, Finished(x.1), Finished(y.1))
  }

  predicate Serial(c: Cell, a: Job, b: Job, d: Duo) {
    d == AThenB(c, a, b) || d == BThenA(c, a, b)
  }

  predicate Ended(d: Duo) {
    d.a.Finished? && d.b.Finished?
  }

  function Opening(c: Cell, a: Job, b: Job): Duo {
    Duo(c, First(a.op), First(b.op))
  }

  // ---- When two operations cannot disturb each other ----

  /** EXPIRE with this deadline in place would replace it. */
  predicate Updates(op: Op, deadline: Option<Instant>)
    requires op.Expire?
  {
    UpdatesDeadline(Cell(None, deadline), op.at, op.option) == Some(true)
  }

  /** EXPIRE finds a value and may write a deadline, be it the present one or none that it sees. */
  predicate MayWrite(op: Op, c: Cell)
    requires op.Expire?
  {
    c.value.Some? && (Updates(op, c.deadline) || Updates(op, None))
  }

  predicate Pushes(op: Op) {
    op.LPush? || op.RPush?
  }

  predicate SetsAgree(a: Op, b: Op)
    requires a.Set? && b.Set?
  {
    a.val == b.val || a.expiresAt == b.expiresAt
  }

  /** The key is not past its deadline, and reading the new value before its own passed deadline shows nothing new. */
  predicate SetAndCheck(c: Cell, a: Op, b: Op, now: Instant)
    requires a.Set?
  {
    && !Expired(c, now)
    && (Passed(a.expiresAt, now) ==> ReadOutcome(b, Some(a.val)) == ReadOutcome(b, c.value))
  }

  predicate SetAndExpire(c: Cell, a: Op, b: Op)
    requires a.Set? && b.Expire?
  {
    var e := a.expiresAt;
    || e == Some(b.at)
    || (if c.value.Some? then Updates(b, e) || (!Updates(b, c.deadline) && !Updates(b, None))
        else e.None? || (!Updates(b, e) && !Updates(b, None)))
  }

  predicate ExpiresAgree(c: Cell, a: Op, b: Op)
    requires a.Expire? && b.Expire?
  {
    || c.value.None? || !Updates(a, c.deadline) || !Updates(b, c.deadline) || a.at == b.at
    || (Updates(a, Some(b.at)) <==> Updates(b, Some(a.at)))
  }

  /** A rank that brings two operations into a fixed order. */
  function Kind(op: Op): nat {
    if op.Set? then 0 else if Checks(op) then 1 else if op.Delete? then 2 else if Pushes(op) then 3 else 4
  }

  /** The condition for operations in rank order. */
  predicate Ranked(c: Cell, a: Job, b: Job)
    requires Kind(a.op) <= Kind(b.op)
  {
    if a.op.Set? then
      if b.op.Set? then SetsAgree(a.op, b.op)
      else if Checks(b.op) then SetAndCheck(c, a.op, b.op, b.now)
      else if b.op.Delete? then a.op.expiresAt.None?
      else if Pushes(b.op) then c.value.Some?
      else SetAndExpire(c, a.op, b.op)
    else if Checks(a.op) && b.op.Expire? then !Expired(c, a.now) || !MayWrite(b.op, c)
    else if a.op.Delete? && b.op.Expire? then !MayWrite(b.op, c)
    else if Pushes(a.op) && Pushes(b.op) then c.value.Some? || (a.op.values == [] && b.op.values == [])
    else if a.op.Expire? && b.op.Expire? then ExpiresAgree(c, a.op, b.op)
    else true
  }

  /** What two operations on one key have to satisfy, in terms of the cell they start from. */
  predicate Compatible(c: Cell, a: Job, b: Job) {
    if Kind(a.op) <= Kind(b.op) then Ranked(c, a, b) else Ranked(c, b, a)
  }

  // ---- Where SET is ----

  predicate SetAt(op: Op, pc: Pc)
    requires op.Set?
  {
    pc == SetDropDeadline || pc == SetInsert || pc == Finished(Done) || (pc == SetDeadline && op.expiresAt.Some?)
  }

  predicate Inserted(pc: Pc) {
    pc.SetDeadline? || pc.Finished?
  }

  /** The cell as far as SET has come with it. */
  function SetCell(c: Cell, op: Op, pc: Pc): Cell
    requires op.Set?
  {
    match pc
    case SetDropDeadline => c
    case SetInsert => Cell(c.value, None)
    case SetDeadline => Cell(Some(op.val), None)
    case _ => Cell(Some(op.val), op.expiresAt)
  }

  // ---- SET and SET ----

  ghost predicate SetSet(c: Cell, a: Op, b: Op, d: Duo)
    requires a.Set? && b.Set?
  {
    && SetAt(a, d.a) && SetAt(b, d.b)
    && (if !Inserted(d.a) && !Inserted(d.b) then d.cell.value == c.value
        else (Inserted(d.a) && d.cell.value == Some(a.val)) || (Inserted(d.b) && d.cell.value == Some(b.val)))
    && (if Ended(d) then d.cell.deadline == a.expiresAt || d.cell.deadline == b.expiresAt
        else if d.a.Finished? then d.cell.deadline == a.expiresAt || (d.b != SetDropDeadline && d.cell.deadline == None)
        else if d.b.Finished? then d.cell.deadline == b.expiresAt || (d.a != SetDropDeadline && d.cell.deadline == None)
        else (d.a == SetDropDeadline && d.b == SetDropDeadline) || d.cell.deadline == None)
  }

  lemma SetSetSteps(c: Cell, a: Job, b: Job, d: Duo)
    requires a.op.Set? && b.op.Set? && SetSet(c, a.op, b.op, d)
    ensures SetSet(c, a.op, b.op, StepA(d, a)) && SetSet(c, a.op, b.op, StepB(d, b))
  {
  }

  lemma SetSetEnds(c: Cell, a: Job, b: Job, d: Duo)
    requires a.op.Set? && b.op.Set? && SetSet(c, a.op, b.op, d) && Ended(d) && SetsAgree(a.op, b.op)
    ensures Serial(c, a, b, d)
  {
  }

  // ---- SET and a check ----

  lemma CheckIs(op: Op, c: Cell, now: Instant)
    requires Checks(op)
    ensures CellOp(op, c, now) ==
      if Expired(c, now) then (ABSENT, ReadOutcome(op, None)) else (c, ReadOutcome(op, c.value))
  {
    hide Range;
  }

  /** A check before it finds the deadline passed: not yet, or it never will. */
  predicate Looking(op: Op, pc: Pc) {
    pc == ReadDeadline || pc == TestDeadline || (pc == ReadValue && !op.Purge?)
  }

  ghost predicate SetCheck(c: Cell, a: Op, b: Op, now: Instant, d: Duo)
    requires a.Set?
  {
    && SetAt(a, d.a)
    && (|| (d.cell == SetCell(c, a, d.a) && Looking(b, d.b))
        || (d.cell == SetCell(c, a, d.a) && d.b == Finished(ReadOutcome(b, c.value)))
        || (d.cell == SetCell(c, a, d.a) && d.b == Finished(ReadOutcome(b, Some(a.val))) && Inserted(d.a))
        || (d.a.Finished? && Passed(a.expiresAt, now) &&
            (|| (d.cell == SetCell(c, a, d.a) && d.b == LapseData)
             || (d.cell == Cell(None, a.expiresAt) && d.b == LapseDeadline)
             || (d.cell == ABSENT && d.b == Finished(ReadOutcome(b, None))))))
  }

  lemma SetCheckSteps(c: Cell, a: Job, b: Job, d: Duo)
    requires a.op.Set? && Checks(b.op) && !Expired(c, b.now) && SetCheck(c, a.op, b.op, b.now, d)
    ensures SetCheck(c, a.op, b.op, b.now, StepA(d, a)) && SetCheck(c, a.op, b.op, b.now, StepB(d, b))
  {
    hide Range;
  }

  lemma SetCheckEnds(c: Cell, a: Job, b: Job, d: Duo)
    requires a.op.Set? && Checks(b.op) && SetCheck(c, a.op, b.op, b.now, d) && Ended(d)
    requires SetAndCheck(c, a.op, b.op, b.now)
    ensures Serial(c, a, b, d)
  {
    hide ReadOutcome;
    CheckIs(b.op, c, b.now);
    CheckIs(b.op, Cell(Some(a.op.val), a.op.expiresAt), b.now);
  }

  // ---- SET and DELETE ----

  ghost predicate SetDelete(c: Cell, a: Op, d: Duo)
    requires a.Set?
  {
    && SetAt(a, d.a) && (d.b == DeleteData || d.b == DeleteDeadline || d.b == Finished(Done))
    && (|| (d.cell.value == c.value && !Inserted(d.a) && d.b == DeleteData)
        || (d.cell.value == Some(a.val) && Inserted(d.a))
        || (d.cell.value == None && d.b != DeleteData))
    && ((d.a == SetDropDeadline && !d.b.Finished?) || d.cell.deadline == None)
  }

  lemma SetDeleteSteps(c: Cell, a: Job, b: Job, d: Duo)
    requires a.op.Set? && b.op.Delete? && a.op.expiresAt.None? && SetDelete(c, a.op, d)
    ensures SetDelete(c, a.op, StepA(d, a)) && SetDelete(c, a.op, StepB(d, b))
  {
  }

  lemma SetDeleteEnds(c: Cell, a: Job, b: Job, d: Duo)
    requires a.op.Set? && b.op.Delete? && SetDelete(c, a.op, d) && Ended(d) && a.op.expiresAt.None?
    ensures Serial(c, a, b, d)
  {
  }

  // ---- SET and a push ----

  /** What a push makes of a cell, and its result. */
  function Pushed(op: Op, c: Cell): (Cell, Outcome)
    requires Pushes(op)
  {
    PushCell(c, op.values, op.LPush?)
  }

  lemma PushIs(op: Op, c: Cell, now: Instant)
    requires Pushes(op)
    ensures CellOp(op, c, now) == Pushed(op, c)
    ensures Call(c, op, now, PushEntry) ==
      if c.value.None? then (c, PushInsert) else (Pushed(op, c).0, Finished(Pushed(op, c).1))
    ensures Call(c, op, now, PushInsert) == (c.(value := Pushed(op, ABSENT).0.value), Finished(Done))
    ensures c.value.None? ==> Pushed(op, c) == (c.(value := Pushed(op, ABSENT).0.value), Done)
    ensures Pushed(op, c).0.deadline == c.deadline && Pushed(op, c).0.value.Some?
    ensures Pushed(op, c.(deadline := None)) == (Pushed(op, c).0.(deadline := None), Pushed(op, c).1)
  {
  }

  ghost predicate SetPush(c: Cell, a: Op, b: Op, d: Duo)
    requires a.Set? && Pushes(b)
  {
    && SetAt(a, d.a)
    && (|| (d.cell == SetCell(c, a, d.a) && d.b == PushEntry)
        || (d.b == Finished(Pushed(b, c).1) && d.cell == SetCell(Pushed(b, c).0, a, d.a))
        || (d.b == Finished(Err(PUSH_TYPE)) && Inserted(d.a) && d.cell == SetCell(c, a, d.a)))
  }

  lemma SetPushSteps(c: Cell, a: Job, b: Job, d: Duo)
    requires a.op.Set? && a.op.val.Str? && Pushes(b.op) && c.value.Some? && SetPush(c, a.op, b.op, d)
    ensures SetPush(c, a.op, b.op, StepA(d, a)) && SetPush(c, a.op, b.op, StepB(d, b))
  {
  }

  lemma SetPushEnds(c: Cell, a: Job, b: Job, d: Duo)
    requires a.op.Set? && a.op.val.Str? && Pushes(b.op) && SetPush(c, a.op, b.op, d) && Ended(d)
    ensures Serial(c, a, b, d)
  {
  }

  // ---- SET and EXPIRE ----

  /** An option EXPIRE knows, or none. */
  predicate Known(op: Op)
    requires op.Expire?
  {
    op.option.None? || op.option.value == NX || op.option.value == XX || op.option.value == GT || op.option.value == LT
  }

  /** EXPIRE has met a deadline it would replace. */
  ghost predicate Tempted(c: Cell, a: Op, b: Op, pc: Pc)
    requires a.Set? && b.Expire?
  {
    || (c.value.Some? && Updates(b, c.deadline))
    || (pc != SetDropDeadline && Updates(b, None))
    || (pc.Finished? && Updates(b, a.expiresAt))
  }

  ghost predicate SetExpire(c: Cell, a: Op, b: Op, d: Duo)
    requires a.Set? && b.Expire?
  {
    && SetAt(a, d.a) && d.cell.value == SetCell(c, a, d.a).value
    && (d.b != ExpireLookup && d.b != Finished(Err(NOT_FOUND)) ==> c.value.Some? || Inserted(d.a))
    && (|| (d.b == ExpireLookup && d.cell == SetCell(c, a, d.a))
        || (d.b == ExpireTest && Known(b) && b.option.Some? && d.cell == SetCell(c, a, d.a))
        || (d.b == ExpireInsert && Known(b) && Tempted(c, a, b, d.a) && d.cell == SetCell(c, a, d.a))
        || (d.b == Finished(Err(NOT_FOUND)) && c.value.None? && d.cell == SetCell(c, a, d.a))
        || (d.b == Finished(Err(BAD_OPTION)) && !Known(b) && d.cell == SetCell(c, a, d.a))
        || (d.b == Finished(Done) && Known(b) && d.cell == SetCell(c, a, d.a))
        || (d.b == Finished(Done) && Known(b) && Tempted(c, a, b, d.a) && d.cell.deadline == Some(b.at)))
    && (d.b == Finished(Done) && c.value.None? && a.expiresAt.None? ==>
          d.cell.deadline == if Updates(b, None) then Some(b.at) else None)
  }

  lemma SetExpireSteps(c: Cell, a: Job, b: Job, d: Duo)
    requires a.op.Set? && b.op.Expire? && SetExpire(c, a.op, b.op, d)
    ensures SetExpire(c, a.op, b.op, StepA(d, a)) && SetExpire(c, a.op, b.op, StepB(d, b))
  {
  }

  lemma ExpireIs(op: Op, c: Cell, now: Instant)
    requires op.Expire?
    ensures CellOp(op, c, now) ==
      if c.value.None? then (c, Err(NOT_FOUND))
      else if !Known(op) then (c, Err(BAD_OPTION))
      else (if Updates(op, c.deadline) then c.(deadline := Some(op.at)) else c, Done)
    ensures !Known(op) ==> forall e :: !Updates(op, e)
    ensures op.option.None? ==> forall e :: Updates(op, e)
  {
  }

  lemma ExpireCalls(op: Op, c: Cell, now: Instant)
    requires op.Expire?
    ensures Call(c, op, now, ExpireLookup) ==
      (c, if c.value.None? then Finished(Err(NOT_FOUND)) else if !Known(op) then Finished(Err(BAD_OPTION))
          else if op.option.None? then ExpireInsert else ExpireTest)
    ensures Call(c, op, now, ExpireTest) == (c, if Updates(op, c.deadline) then ExpireInsert else Finished(Done))
    ensures Call(c, op, now, ExpireInsert) == (c.(deadline := Some(op.at)), Finished(Done))
    ensures forall out :: Call(c, op, now, Finished(out)) == (c, Finished(out))
  {
  }

  /** A finished operation makes no more calls. */
  lemma Rests(d: Duo, a: Job, b: Job)
    ensures d.a.Finished? ==> StepA(d, a) == d
    ensures d.b.Finished? ==> StepB(d, b) == d
  {
  }

  lemma SetExpireEnds(c: Cell, a: Job, b: Job, d: Duo)
    requires a.op.Set? && b.op.Expire? && SetExpire(c, a.op, b.op, d) && Ended(d) && SetAndExpire(c, a.op, b.op)
    ensures Serial(c, a, b, d)
  {
    hide Updates, Known;
    ExpireIs(b.op, c, b.now);
    ExpireIs(b.op, Cell(Some(a.op.val), a.op.expiresAt), b.now);
  }

  // ---- Two checks ----

  /** The cell a lapse leaves behind it. */
  predicate Lapsing(c: Cell, cell: Cell) {
    cell == c || cell == Cell(None, c.deadline) || cell == ABSENT
  }

  /** One of the checks, given whether it or the other one finds the deadline passed. */
  predicate CheckSide(c: Cell, cell: Cell, op: Op, pc: Pc, own: bool, other: bool) {
    || pc == ReadDeadline || pc == TestDeadline
    || (pc == ReadValue && !op.Purge? && (!own || cell == ABSENT))
    || (pc == LapseData && own)
    || (pc == LapseDeadline && own && cell.value.None?)
    || (pc == Finished(ReadOutcome(op, c.value)) && !own)
    || (pc == Finished(ReadOutcome(op, None)) && (if own then cell == ABSENT else other && cell.value.None?))
  }

  ghost predicate CheckCheck(c: Cell, a: Job, b: Job, d: Duo) {
    var x, y := Expired(c, a.now), Expired(c, b.now);
    && Lapsing(c, d.cell) && (d.cell != c ==> x || y)
    && CheckSide(c, d.cell, a.op, d.a, x, y) && CheckSide(c, d.cell, b.op, d.b, y, x)
  }

  lemma CheckCheckSteps(c: Cell, a: Job, b: Job, d: Duo)
    requires Checks(a.op) && Checks(b.op) && CheckCheck(c, a, b, d)
    ensures CheckCheck(c, a, b, StepA(d, a)) && CheckCheck(c, a, b, StepB(d, b))
  {
    hide Range;
  }

  lemma CheckCheckEnds(c: Cell, a: Job, b: Job, d: Duo)
    requires Checks(a.op) && Checks(b.op) && CheckCheck(c, a, b, d) && Ended(d)
    ensures Serial(c, a, b, d)
  {
    hide ReadOutcome;
    CheckIs(a.op, c, a.now);
    CheckIs(b.op, c, b.now);
    CheckIs(a.op, ABSENT, a.now);
    CheckIs(b.op, ABSENT, b.now);
  }

  // ---- A check and DELETE ----

  predicate DeleteAt(pc: Pc) {
    pc == DeleteData || pc == DeleteDeadline || pc == Finished(Done)
  }

  ghost predicate CheckDelete(c: Cell, a: Job, d: Duo) {
    var x := Expired(c, a.now);
    && DeleteAt(d.b) && (d.b == Finished(Done) ==> d.cell == ABSENT)
    && (d.cell.value == c.value || d.cell.value.None?) && (d.cell.deadline == c.deadline || d.cell == ABSENT)
    && (d.b != DeleteData ==> d.cell.value.None?)
    && (d.cell.deadline != c.deadline ==> x || d.b.Finished?)
    && (d.cell.value != c.value ==> x || d.b != DeleteData)
    && (|| d.a == ReadDeadline || d.a == TestDeadline
        || (d.a == ReadValue && !a.op.Purge? && (!x || d.cell.value.None?))
        || (d.a == LapseData && x)
        || (d.a == LapseDeadline && x && d.cell.value.None?)
        || (d.a == Finished(ReadOutcome(a.op, c.value)) && !x)
        || (d.a == Finished(ReadOutcome(a.op, None)) && (x || d.b != DeleteData)))
  }

  lemma CheckDeleteSteps(c: Cell, a: Job, b: Job, d: Duo)
    requires Checks(a.op) && b.op.Delete? && CheckDelete(c, a, d)
    ensures CheckDelete(c, a, StepA(d, a)) && CheckDelete(c, a, StepB(d, b))
  {
    hide Range;
  }

  lemma CheckDeleteEnds(c: Cell, a: Job, b: Job, d: Duo)
    requires Checks(a.op) && b.op.Delete? && CheckDelete(c, a, d) && Ended(d)
    ensures Serial(c, a, b, d)
  {
    hide ReadOutcome;
    CheckIs(a.op, c, a.now);
    CheckIs(a.op, ABSENT, a.now);
  }

  // ---- A removal and a push ----

  /** A push against a removal of data and deadline, be it DELETE or a lapse; `past` once the data was removed. */
  ghost predicate PushSide(c: Cell, value: Option<RedisObject>, op: Op, pc: Pc, past: bool)
    requires Pushes(op)
  {
    if !past then
      || (pc == PushEntry && value == c.value)
      || (pc == PushInsert && value == c.value == None)
      || (pc == Finished(Pushed(op, c).1) && value == Pushed(op, c).0.value)
    else
      || (value == None && (pc == PushEntry || pc == PushInsert || pc == Finished(Pushed(op, c).1)))
      || (value == Pushed(op, ABSENT).0.value && pc == Finished(Done))
  }

  /** A check on a key past its deadline, from beginning to end. */
  predicate LapsingAt(op: Op, pc: Pc) {
    || pc == ReadDeadline || pc == TestDeadline || pc == LapseData || pc == LapseDeadline
    || pc == Finished(ReadOutcome(op, None))
  }

  ghost predicate CheckPush(c: Cell, a: Job, b: Op, d: Duo)
    requires Pushes(b)
  {
    var x := Expired(c, a.now);
    if x then
      && LapsingAt(a.op, d.a)
      && d.cell.deadline == (if d.a.Finished? then None else c.deadline)
      && PushSide(c, d.cell.value, b, d.b, d.a == LapseDeadline || d.a.Finished?)
    else
      && d.cell.deadline == c.deadline && PushSide(c, d.cell.value, b, d.b, false)
      && (|| Looking(a.op, d.a) || d.a == Finished(ReadOutcome(a.op, c.value))
          || (d.a == Finished(ReadOutcome(a.op, Pushed(b, c).0.value)) && d.b.Finished?))
  }

  lemma CheckPushSteps(c: Cell, a: Job, b: Job, d: Duo)
    requires Checks(a.op) && Pushes(b.op) && CheckPush(c, a, b.op, d)
    ensures CheckPush(c, a, b.op, StepA(d, a)) && CheckPush(c, a, b.op, StepB(d, b))
  {
    hide Range, PushCell;
    PushIs(b.op, c, b.now);
    PushIs(b.op, d.cell, b.now);
  }

  lemma CheckPushEnds(c: Cell, a: Job, b: Job, d: Duo)
    requires Checks(a.op) && Pushes(b.op) && CheckPush(c, a, b.op, d) && Ended(d)
    ensures Serial(c, a, b, d)
  {
    hide ReadOutcome, PushCell, CellOp, Call;
    PushIs(b.op, c, b.now);
    PushIs(b.op, ABSENT, b.now);
    CheckIs(a.op, c, a.now);
    CheckIs(a.op, Pushed(b.op, c).0, a.now);
  }

  ghost predicate DeletePush(c: Cell, b: Op, d: Duo)
    requires Pushes(b)
  {
    && DeleteAt(d.a) && d.cell.deadline == (if d.a.Finished? then None else c.deadline)
    && PushSide(c, d.cell.value, b, d.b, d.a != DeleteData)
  }

  lemma DeletePushSteps(c: Cell, a: Job, b: Job, d: Duo)
    requires a.op.Delete? && Pushes(b.op) && DeletePush(c, b.op, d)
    ensures DeletePush(c, b.op, StepA(d, a)) && DeletePush(c, b.op, StepB(d, b))
  {
    hide Range, PushCell;
    PushIs(b.op, c, b.now);
    PushIs(b.op, d.cell, b.now);
  }

  lemma DeletePushEnds(c: Cell, a: Job, b: Job, d: Duo)
    requires a.op.Delete? && Pushes(b.op) && DeletePush(c, b.op, d) && Ended(d)
    ensures Serial(c, a, b, d)
  {
    hide PushCell;
    PushIs(b.op, c, b.now);
    PushIs(b.op, ABSENT, b.now);
  }

  // ---- DELETE and DELETE ----

  ghost predicate DeleteDelete(c: Cell, d: Duo) {
    && DeleteAt(d.a) && DeleteAt(d.b)
    && (d.a != DeleteData || d.b != DeleteData ==> d.cell.value.None?)
    && (d.a.Finished? || d.b.Finished? ==> d.cell.deadline.None?)
  }

  lemma DeleteDeleteSteps(c: Cell, a: Job, b: Job, d: Duo)
    requires a.op.Delete? && b.op.Delete? && DeleteDelete(c, d)
    ensures DeleteDelete(c, StepA(d, a)) && DeleteDelete(c, StepB(d, b))
  {
  }

  lemma DeleteDeleteEnds(c: Cell, a: Job, b: Job, d: Duo)
    requires a.op.Delete? && b.op.Delete? && DeleteDelete(c, d) && Ended(d)
    ensures Serial(c, a, b, d)
  {
  }

  // ---- A removal and EXPIRE that writes nothing ----

  /** EXPIRE that leaves the deadline alone, against a removal; `past` once the data was removed. */
  ghost predicate IdleExpire(c: Cell, op: Op, pc: Pc, past: bool)
    requires op.Expire?
  {
    || pc == ExpireLookup
    || (pc == ExpireTest && c.value.Some? && Known(op) && op.option.Some?)
    || pc == Finished(CellOp(op, c, 0).1)
    || (pc == Finished(Err(NOT_FOUND)) && past)
  }

  ghost predicate DeleteExpire(c: Cell, b: Op, d: Duo)
    requires b.Expire?
  {
    && DeleteAt(d.a) && d.cell.deadline == (if d.a.Finished? then None else c.deadline)
    && d.cell.value == (if d.a == DeleteData then c.value else None)
    && IdleExpire(c, b, d.b, d.a != DeleteData)
  }

  lemma DeleteExpireSteps(c: Cell, a: Job, b: Job, d: Duo)
    requires a.op.Delete? && b.op.Expire? && !MayWrite(b.op, c) && DeleteExpire(c, b.op, d)
    ensures DeleteExpire(c, b.op, StepA(d, a)) && DeleteExpire(c, b.op, StepB(d, b))
  {
    hide Updates, Known;
    ExpireIs(b.op, c, 0);
    ExpireCalls(b.op, d.cell, b.now);
  }

  lemma DeleteExpireEnds(c: Cell, a: Job, b: Job, d: Duo)
    requires a.op.Delete? && b.op.Expire? && DeleteExpire(c, b.op, d) && Ended(d)
    ensures Serial(c, a, b, d)
  {
    hide Updates, Known;
    ExpireIs(b.op, c, b.now);
    ExpireIs(b.op, c, 0);
    ExpireIs(b.op, ABSENT, b.now);
  }

  ghost predicate CheckExpire(c: Cell, a: Job, b: Op, d: Duo)
    requires b.Expire?
  {
    var x, after := Expired(c, a.now), CellOp(b, c, 0);
    if x then
      && LapsingAt(a.op, d.a)
      && d.cell.deadline == (if d.a.Finished? then None else c.deadline)
      && d.cell.value == (if d.a == LapseDeadline || d.a.Finished? then None else c.value)
      && IdleExpire(c, b, d.b, d.a == LapseDeadline || d.a.Finished?)
    else
      && (|| d.b == ExpireLookup
          || (d.b == ExpireTest && c.value.Some? && Known(b) && b.option.Some?)
          || (d.b == ExpireInsert && c.value.Some? && Known(b) && Updates(b, c.deadline))
          || d.b == Finished(after.1))
      && (|| (&& d.cell == (if d.b.Finished? then after.0 else c)
              && (Looking(a.op, d.a) || d.a == Finished(ReadOutcome(a.op, c.value))))
          || (d.b.Finished? && Expired(after.0, a.now) &&
              (|| (d.a == LapseData && d.cell == after.0)
               || (d.a == LapseDeadline && d.cell == Cell(None, after.0.deadline))
               || (d.a == Finished(ReadOutcome(a.op, None)) && d.cell == ABSENT))))
  }

  lemma CheckExpireStepA(c: Cell, a: Job, b: Job, d: Duo)
    requires Checks(a.op) && b.op.Expire? && (!Expired(c, a.now) || !MayWrite(b.op, c)) && CheckExpire(c, a, b.op, d)
    ensures CheckExpire(c, a, b.op, StepA(d, a))
  {
    hide Range, Updates, Known;
    ExpireIs(b.op, c, 0);
  }

  lemma CheckExpireStepB(c: Cell, a: Job, b: Job, d: Duo)
    requires Checks(a.op) && b.op.Expire? && (!Expired(c, a.now) || !MayWrite(b.op, c)) && CheckExpire(c, a, b.op, d)
    ensures CheckExpire(c, a, b.op, StepB(d, b))
  {
    hide Range, Updates, Known, Call;
    ExpireIs(b.op, c, 0);
    ExpireCalls(b.op, d.cell, b.now);
  }

  lemma CheckExpireEnds(c: Cell, a: Job, b: Job, d: Duo)
    requires Checks(a.op) && b.op.Expire? && CheckExpire(c, a, b.op, d) && Ended(d)
    requires !Expired(c, a.now) || !MayWrite(b.op, c)
    ensures Serial(c, a, b, d)
  {
    hide ReadOutcome, Updates, Known;
    ExpireIs(b.op, c, b.now);
    ExpireIs(b.op, c, 0);
    ExpireIs(b.op, ABSENT, b.now);
    CheckIs(a.op, c, a.now);
    CheckIs(a.op, CellOp(b.op, c, b.now).0, a.now);
  }

  // ---- Two pushes ----

  ghost predicate PushPush(c: Cell, a: Op, b: Op, d: Duo)
    requires Pushes(a) && Pushes(b)
  {
    if c.value.Some? then
      || d == Duo(c, PushEntry, PushEntry)
      || d == Duo(Pushed(a, c).0, Finished(Pushed(a, c).1), PushEntry)
      || d == Duo(Pushed(b, c).0, PushEntry, Finished(Pushed(b, c).1))
      || d == Duo(Pushed(b, Pushed(a, c).0).0, Finished(Pushed(a, c).1), Finished(Pushed(b, Pushed(a, c).0).1))
      || d == Duo(Pushed(a, Pushed(b, c).0).0, Finished(Pushed(a, Pushed(b, c).0).1), Finished(Pushed(b, c).1))
    else
      && d.cell.deadline == c.deadline
      && (d.a == PushEntry || d.a == PushInsert || d.a == Finished(Done))
      && (d.b == PushEntry || d.b == PushInsert || d.b == Finished(Done))
      && d.cell.value == if d.a.Finished? || d.b.Finished? then Some(List([])) else None
  }

  lemma EmptyPush(op: Op, c: Cell)
    requires Pushes(op) && op.values == []
    ensures Pushed(op, ABSENT).0.value == Some(List([]))
    ensures c.value == Some(List([])) ==> Pushed(op, c) == (c, Done)
  {
    assert Reversed(op.values) == [] && op.values + op.values == [];
  }

  lemma PushPushSteps(c: Cell, a: Job, b: Job, d: Duo)
    requires Pushes(a.op) && Pushes(b.op) && PushPush(c, a.op, b.op, d)
    requires c.value.Some? || (a.op.values == [] && b.op.values == [])
    ensures PushPush(c, a.op, b.op, StepA(d, a)) && PushPush(c, a.op, b.op, StepB(d, b))
  {
    hide PushCell;
    PushIs(a.op, d.cell, a.now);
    PushIs(b.op, d.cell, b.now);
    if c.value.None? {
      EmptyPush(a.op, d.cell);
      EmptyPush(b.op, d.cell);
    } else {
      PushIs(a.op, c, a.now);
      PushIs(b.op, c, b.now);
    }
  }

  lemma PushPushEnds(c: Cell, a: Job, b: Job, d: Duo)
    requires Pushes(a.op) && Pushes(b.op) && PushPush(c, a.op, b.op, d) && Ended(d)
    requires c.value.Some? || (a.op.values == [] && b.op.values == [])
    ensures Serial(c, a, b, d)
  {
    hide PushCell, Call, CellOp;
    PushIs(a.op, c, a.now);
    PushIs(b.op, c, b.now);
    PushIs(b.op, Pushed(a.op, c).0, b.now);
    PushIs(a.op, Pushed(b.op, c).0, a.now);
    if c.value.None? {
      EmptyPush(a.op, c);
      EmptyPush(b.op, Pushed(a.op, c).0);
    }
  }

  // ---- A push and EXPIRE ----

  ghost predicate PushExpire(c: Cell, a: Op, b: Op, d: Duo)
    requires Pushes(a) && b.Expire?
  {
    var found := c.value.Some? || d.a.Finished?;
    && PushSide(c, d.cell.value, a, d.a, false)
    && (|| (d.b == ExpireLookup && d.cell.deadline == c.deadline)
        || (d.b == ExpireTest && found && Known(b) && b.option.Some? && d.cell.deadline == c.deadline)
        || (d.b == ExpireInsert && found && Known(b) && Updates(b, c.deadline) && d.cell.deadline == c.deadline)
        || (d.b == Finished(Err(NOT_FOUND)) && c.value.None? && d.cell.deadline == c.deadline)
        || (d.b == Finished(Err(BAD_OPTION)) && found && !Known(b) && d.cell.deadline == c.deadline)
        || (d.b == Finished(Done) && found && Known(b) &&
            d.cell.deadline == if Updates(b, c.deadline) then Some(b.at) else c.deadline))
  }

  lemma PushExpireSteps(c: Cell, a: Job, b: Job, d: Duo)
    requires Pushes(a.op) && b.op.Expire? && PushExpire(c, a.op, b.op, d)
    ensures PushExpire(c, a.op, b.op, StepA(d, a)) && PushExpire(c, a.op, b.op, StepB(d, b))
  {
    hide PushCell, Updates, Known, Call;
    PushIs(a.op, c, a.now);
    PushIs(a.op, d.cell, a.now);
    PushValue(a.op, c, d.cell.deadline);
    ExpireIs(b.op, c, 0);
    ExpireCalls(b.op, d.cell, b.now);
    Rests(d, a, b);
  }

  lemma PushValue(op: Op, c: Cell, deadline: Option<Instant>)
    requires Pushes(op)
    ensures Pushed(op, c.(deadline := deadline)) == (Pushed(op, c).0.(deadline := deadline), Pushed(op, c).1)
  {
  }

  lemma PushExpireEnds(c: Cell, a: Job, b: Job, d: Duo)
    requires Pushes(a.op) && b.op.Expire? && PushExpire(c, a.op, b.op, d) && Ended(d)
    ensures Serial(c, a, b, d)
  {
    hide PushCell, Updates, Known, Call, CellOp;
    PushIs(a.op, c, a.now);
    ExpireIs(b.op, c, b.now);
    ExpireIs(b.op, Pushed(a.op, c).0, b.now);
    var e := CellOp(b.op, c, b.now).0;
    PushIs(a.op, e, a.now);
    PushValue(a.op, c, e.deadline);
  }

  // ---- EXPIRE and EXPIRE ----

  /** One of two EXPIREs on a value; `seen` are the deadlines it can have met. */
  ghost predicate ExpireSide(op: Op, pc: Pc, initial: Option<Instant>, seen: Option<Instant>)
    requires op.Expire?
  {
    || pc == ExpireLookup
    || (pc == ExpireTest && Known(op) && op.option.Some?)
    || (pc == ExpireInsert && Known(op) && (Updates(op, initial) || Updates(op, seen)))
    || (pc == Finished(Err(BAD_OPTION)) && !Known(op))
    || (pc == Finished(Done) && Known(op))
  }

  /** The deadline after two EXPIREs, one after the other. */
  function TwoDeadlines(a: Op, b: Op, e: Option<Instant>): Option<Instant>
    requires a.Expire? && b.Expire?
  {
    var first := if Updates(a, e) then Some(a.at) else e;
    if Updates(b, first) then Some(b.at) else first
  }

  ghost predicate ExpireExpire(c: Cell, a: Op, b: Op, d: Duo)
    requires a.Expire? && b.Expire?
  {
    && d.cell.value == c.value
    && if c.value.None? then
         && d.cell == c && (d.a == ExpireLookup || d.a == Finished(Err(NOT_FOUND)))
         && (d.b == ExpireLookup || d.b == Finished(Err(NOT_FOUND)))
       else
         && ExpireSide(a, d.a, c.deadline, if d.b.Finished? then d.cell.deadline else c.deadline)
         && ExpireSide(b, d.b, c.deadline, if d.a.Finished? then d.cell.deadline else c.deadline)
         && if Ended(d) then
              d.cell.deadline == TwoDeadlines(a, b, c.deadline) || d.cell.deadline == TwoDeadlines(b, a, c.deadline)
            else if d.a.Finished? then d.cell.deadline == if Updates(a, c.deadline) then Some(a.at) else c.deadline
            else if d.b.Finished? then d.cell.deadline == if Updates(b, c.deadline) then Some(b.at) else c.deadline
            else d.cell.deadline == c.deadline
  }

  lemma ExpireExpireStepA(c: Cell, a: Job, b: Job, d: Duo)
    requires a.op.Expire? && b.op.Expire? && ExpiresAgree(c, a.op, b.op) && ExpireExpire(c, a.op, b.op, d)
    ensures ExpireExpire(c, a.op, b.op, StepA(d, a))
  {
    hide Call, Updates, Known;
    ExpireCalls(a.op, d.cell, a.now);
    ExpireIs(a.op, c, 0);
    ExpireIs(b.op, c, 0);
  }

  lemma ExpireExpireStepB(c: Cell, a: Job, b: Job, d: Duo)
    requires a.op.Expire? && b.op.Expire? && ExpiresAgree(c, a.op, b.op) && ExpireExpire(c, a.op, b.op, d)
    ensures ExpireExpire(c, a.op, b.op, StepB(d, b))
  {
    hide Call, Updates, Known;
    ExpireCalls(b.op, d.cell, b.now);
    ExpireIs(a.op, c, 0);
    ExpireIs(b.op, c, 0);
  }

  lemma ExpireExpireEnds(c: Cell, a: Job, b: Job, d: Duo)
    requires a.op.Expire? && b.op.Expire? && ExpireExpire(c, a.op, b.op, d) && Ended(d)
    ensures Serial(c, a, b, d)
  {
    hide Updates, Known;
    ExpireIs(a.op, c, a.now);
    ExpireIs(b.op, c, b.now);
    ExpireIs(b.op, CellOp(a.op, c, a.now).0, b.now);
    ExpireIs(a.op, CellOp(b.op, c, b.now).0, a.now);
  }
}
