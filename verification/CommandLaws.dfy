/** What each command does to its key and what it replies, said without the operations it is made of. */
module CommandLaws {
  import opened ByteStrings
  import opened RespTypes
  import opened RespParser
  import opened Commands
  import opened Dispatcher
  import Lists
  import Sessions
  import S = Store

  /** The reply to a command that has nothing else to say. */
  const ACKNOWLEDGED: Result<RespType> := Success(SimpleString(Ascii("Ok")))

  const NOTHING: Result<RespType> := Success(BulkString(Ascii("nil")))

  function Failed(why: string): Result<RespType> {
    Failure(Ascii("Failed to execute command. E: ") + Ascii(why))
  }

  lemma FixedReplies()
    ensures Ascii("Ok") == OK && Ascii("Pong") == PONG && Ascii("nil") == NIL
  {
  }

  // ---- Commands without a key ----

  lemma TalkLaw(s: S.Store, m: Bytes, now: S.Instant)
    ensures ExecCommand(s, PING, now) == (s, Success(SimpleString(Ascii("Pong"))))
    ensures ExecCommand(s, ECHO(m), now) == (s, Success(BulkString(m)))
    ensures ExecCommand(s, SAVE, now) == (s, ACKNOWLEDGED)
  {
    FixedReplies();
  }

  // ---- One key ----

  /** The key a command is about. */
  function KeyOf(c: Command): Option<S.Key> {
    match c
    case SET(k, _, _) => Some(k)
    case GET(k) => Some(k)
    case DELETE(k) => Some(k)
    case LPUSH(k, _) => Some(k)
    case RPUSH(k, _) => Some(k)
    case LRANGE(k, _, _) => Some(k)
    case EXPIRE(k, _, _) => Some(k)
    case _ => None
  }

  /** A command touches no key but its own. */
  lemma OtherKeys(s: S.Store, c: Command, now: S.Instant, j: S.Key)
    requires !IsControl(c) && KeyOf(c) != Some(j)
    ensures S.At(ExecCommand(s, c, now).0, j) == S.At(s, j)
  {
    hide S.CellOp;
    if StoreOp(c).KeyOp? {
      var k := StoreOp(c).key;
      S.PutAt(s, k, S.CellOp(StoreOp(c).op, S.At(s, k), now).0, j);
    }
  }

  /** The cell of a command's key afterwards, and the reply. */
  function Effect(s: S.Store, c: Command, now: S.Instant): (S.Cell, Result<RespType>)
    requires !IsControl(c) && KeyOf(c).Some?
  {
    var r := ExecCommand(s, c, now);
    (S.At(r.0, KeyOf(c).value), r.1)
  }

  lemma EffectIs(s: S.Store, c: Command, now: S.Instant)
    requires StoreOp(c).KeyOp?
    ensures !IsControl(c) && KeyOf(c) == Some(StoreOp(c).key)
    ensures var r := S.CellOp(StoreOp(c).op, S.At(s, StoreOp(c).key), now); Effect(s, c, now) == (r.0, Reply(c, r.1))
  {
    hide S.CellOp, Reply;
    var k := StoreOp(c).key;
    S.PutAt(s, k, S.CellOp(StoreOp(c).op, S.At(s, k), now).0, k);
  }

  lemma SetLaw(s: S.Store, k: S.Key, v: Bytes, e: Option<S.Instant>, now: S.Instant)
    ensures Effect(s, SET(k, v, e), now) == (S.Cell(Some(S.Str(v)), e), ACKNOWLEDGED)
  {
    hide Effect;
    FixedReplies();
    EffectIs(s, SET(k, v, e), now);
  }

  lemma DeleteLaw(s: S.Store, k: S.Key, now: S.Instant)
    ensures Effect(s, DELETE(k), now) == (S.ABSENT, Success(BulkString(Ascii("Ok"))))
  {
    hide Effect;
    FixedReplies();
    EffectIs(s, DELETE(k), now);
  }

  /** GET answers the string, or `nil` without a value or past the deadline, when it also removes the key. */
  lemma GetLaw(s: S.Store, k: S.Key, now: S.Instant)
    ensures var c := S.At(s, k);
      Effect(s, GET(k), now) ==
        if c.deadline.Some? && c.deadline.value < now then (S.ABSENT, NOTHING)
        else
          match c.value
          case None => (c, NOTHING)
          case Some(Str(v)) => (c, Success(BulkString(v)))
          case Some(List(_)) => (c, Failure(Ascii("Wrong data type. Expected String, got List.")))
  {
    hide Effect, Ascii;
    FixedReplies();
    EffectIs(s, GET(k), now);
  }

  /** What a push makes of a value: LPUSH puts its values in front, as given, but reversed where there was nothing. */
  function AfterPush(value: Option<S.RedisObject>, vals: seq<Bytes>, left: bool): Option<S.RedisObject> {
    match value
    case None => Some(S.List(Strings(if left then Backwards(vals) else vals)))
    case Some(List(l)) => Some(S.List(if left then Strings(vals) + l else l + Strings(vals)))
    case Some(Str(_)) => value
  }

  function Backwards<T>(vals: seq<T>): seq<T> {
    if vals == [] then [] else Backwards(vals[1..]) + [vals[0]]
  }

  lemma {:induction false} BackwardsStrings(vals: seq<Bytes>)
    ensures S.Reversed(Strings(vals)) == Strings(Backwards(vals))
    decreases |vals|
  {
    if vals != [] {
      BackwardsStrings(vals[1..]);
      assert Strings(vals) == [S.Str(vals[0])] + Strings(vals[1..]);
      assert S.Reversed(Strings(vals)) == S.Reversed(Strings(vals[1..])) + [S.Str(vals[0])];
    } else {
      assert S.Reversed(Strings(vals)) == [];
    }
  }

  /** Both pushes keep the deadline, and fail on a string. */
  lemma PushLaw(s: S.Store, k: S.Key, vals: seq<Bytes>, now: S.Instant)
    ensures var c := S.At(s, k);
      var reply :=
        if c.value.Some? && c.value.value.Str? then Failed("Wrong data type. Expected List, got String.")
        else ACKNOWLEDGED;
      && Effect(s, LPUSH(k, vals), now) == (c.(value := AfterPush(c.value, vals, true)), reply)
      && Effect(s, RPUSH(k, vals), now) == (c.(value := AfterPush(c.value, vals, false)), reply)
  {
    hide Effect, Ascii, Backwards;
    FixedReplies();
    BackwardsStrings(vals);
    EffectIs(s, LPUSH(k, vals), now);
    EffectIs(s, RPUSH(k, vals), now);
  }

  // ---- LRANGE ----

  lemma {:induction false} BulkItemsOf(vals: seq<Bytes>)
    ensures BulkItems(Strings(vals)) == Bulks(vals)
    decreases |vals|
  {
    if vals != [] {
      assert Strings(vals)[1..] == Strings(vals[1..]);
      BulkItemsOf(vals[1..]);
    }
  }

  lemma ListedStrings(vals: seq<Bytes>, a: int, z: int)
    ensures S.Listed(Strings(vals), a, z) == Strings(S.Listed(vals, a, z))
  {
    hide S.Position;
  }

  /** LRANGE on a live list of strings answers the listed part, for every list and every pair of bounds. */
  lemma RangeLaw(s: S.Store, k: S.Key, vals: seq<Bytes>, a: int, z: int, now: S.Instant)
    requires |vals| <= ISIZE_MAX && I32_MIN <= a <= I32_MAX && I32_MIN <= z <= I32_MAX
    requires S.At(s, k).value == Some(S.List(Strings(vals))) && !S.Expired(S.At(s, k), now)
    ensures Effect(s, LRANGE(k, a, z), now) == (S.At(s, k), Success(Array(Bulks(S.Listed(vals, a, z)))))
  {
    hide Effect, S.Range, BulkItems, Bulks, S.Listed;
    EffectIs(s, LRANGE(k, a, z), now);
    S.RangeIs(Strings(vals), a, z);
    ListedStrings(vals, a, z);
    BulkItemsOf(S.Listed(vals, a, z));
  }

  /** And `nil` without a value or past the deadline, when it also removes the key; a string is an error. */
  lemma NoRangeLaw(s: S.Store, k: S.Key, a: int, z: int, now: S.Instant)
    requires var c := S.At(s, k); S.Expired(c, now) || c.value.None? || c.value.value.Str?
    ensures var c := S.At(s, k);
      Effect(s, LRANGE(k, a, z), now) ==
        if c.deadline.Some? && c.deadline.value < now then (S.ABSENT, NOTHING)
        else if c.value.None? then (c, NOTHING)
        else (c, Failed("Wrong type. Expected list."))
  {
    hide Effect, S.Range, Ascii;
    FixedReplies();
    EffectIs(s, LRANGE(k, a, z), now);
  }

  // ---- EXPIRE ----

  function Latest(d: Option<S.Instant>, at: S.Instant): Option<S.Instant> {
    if d.Some? && d.value > at then d else Some(at)
  }

  function Earliest(d: Option<S.Instant>, at: S.Instant): Option<S.Instant> {
    if d.Some? && d.value < at then d else Some(at)
  }

  /**
   The deadline after EXPIRE: NX sets only a first one; XX, GT and LT change only an existing one, GT to
   the later, LT to the earlier.
   */
  function NewDeadline(d: Option<S.Instant>, at: S.Instant, o: Option<Bytes>): Option<S.Instant> {
    if o.None? then Some(at)
    else if d.None? then (if o.value == S.NX then Some(at) else None)
    else if o.value == S.NX then d
    else if o.value == S.XX then Some(at)
    else if o.value == S.GT then Latest(d, at)
    else Earliest(d, at)
  }

  /**
   EXPIRE on a key with a value keeps the value and sets the deadline; on a missing key it is an error and
   changes nothing.
   */
  lemma ExpireLaw(s: S.Store, k: S.Key, at: S.Instant, o: Option<Bytes>, now: S.Instant)
    requires o.Some? ==> o.value in [Ascii("NX"), Ascii("XX"), Ascii("GT"), Ascii("LT")]
    ensures var c := S.At(s, k);
      Effect(s, EXPIRE(k, at, o), now) ==
        if c.value.None? then (c, Failed("Entry not found."))
        else (c.(deadline := NewDeadline(c.deadline, at, o)), ACKNOWLEDGED)
  {
    hide Effect;
    FixedReplies();
    EffectIs(s, EXPIRE(k, at, o), now);
    OptionLetters();
  }

  lemma OptionLetters()
    ensures Ascii("NX") == S.NX && Ascii("XX") == S.XX && Ascii("GT") == S.GT && Ascii("LT") == S.LT
    ensures S.NX[0] == 78 && S.XX[0] == 88 && S.GT[0] == 71 && S.LT[0] == 76
  {
  }

  /** Exactly when a command fails: a live value of the wrong type, an EXPIRE without value, or an unknown option. */
  predicate WillFail(s: S.Store, c: Command, now: S.Instant) {
    match c
    case GET(k) => var v := S.At(s, k); !S.Expired(v, now) && v.value.Some? && v.value.value.List?
    case LRANGE(k, _, _) => var v := S.At(s, k); !S.Expired(v, now) && v.value.Some? && v.value.value.Str?
    case LPUSH(k, _) => S.At(s, k).value.Some? && S.At(s, k).value.value.Str?
    case RPUSH(k, _) => S.At(s, k).value.Some? && S.At(s, k).value.value.Str?
    case EXPIRE(k, _, o) => k !in s.data || (o.Some? && o.value !in [S.NX, S.XX, S.GT, S.LT])
    case _ => false
  }

  lemma FailsExactly(s: S.Store, c: Command, now: S.Instant)
    requires !IsControl(c)
    ensures ExecCommand(s, c, now).1.Failure? <==> WillFail(s, c, now)
  {
    hide S.Range, S.Put;
  }

  // ---- Runs of pushes ----

  function PushCommand(k: S.Key, p: Lists.Push<Bytes>): Command {
    if p.left then LPUSH(k, p.values) else RPUSH(k, p.values)
  }

  function PushCommands(k: S.Key, pushes: seq<Lists.Push<Bytes>>): (r: seq<Command>)
    ensures |r| == |pushes| && forall i :: 0 <= i < |r| ==> r[i] == PushCommand(k, pushes[i])
  {
    seq(|pushes|, i requires 0 <= i < |pushes| => PushCommand(k, pushes[i]))
  }

  /** Later left pushes newest first, the creating push, later right pushes in order. */
  function Built(first: Lists.Push<Bytes>, more: seq<Lists.Push<Bytes>>): seq<Bytes> {
    Lists.Lefts(more) + (if first.left then Backwards(first.values) else first.values) + Lists.Rights(more)
  }

  lemma StringsConcat(a: seq<Bytes>, b: seq<Bytes>)
    ensures Strings(a + b) == Strings(a) + Strings(b)
  {
  }

  lemma BuiltSnoc(first: Lists.Push<Bytes>, more: seq<Lists.Push<Bytes>>, p: Lists.Push<Bytes>)
    ensures Built(first, more + [p]) ==
      if p.left then p.values + Built(first, more) else Built(first, more) + p.values
  {
    hide Backwards;
    assert (more + [p])[..|more|] == more;
  }

  lemma PushOnList(st: Session, k: S.Key, list: seq<Bytes>, p: Lists.Push<Bytes>, clock: Clock)
    requires st.tx == IDLE && S.At(st.store, k) == S.Cell(Some(S.List(Strings(list))), None)
    ensures var r := Dispatch(st, PushCommand(k, p), clock).0;
      && r.tx == IDLE
      && S.At(r.store, k) == S.Cell(Some(S.List(Strings(if p.left then p.values + list else list + p.values))), None)
  {
    hide ExecCommand, Dispatch, Strings;
    Sessions.DirectStep(st, PushCommand(k, p), clock);
    PushLaw(st.store, k, p.values, clock(st.tick));
    StringsConcat(p.values, list);
    StringsConcat(list, p.values);
  }

  lemma PushOnNothing(st: Session, k: S.Key, p: Lists.Push<Bytes>, clock: Clock)
    requires st.tx == IDLE && S.At(st.store, k) == S.ABSENT
    ensures var r := Dispatch(st, PushCommand(k, p), clock).0;
      r.tx == IDLE && S.At(r.store, k) == S.Cell(Some(S.List(Strings(Built(p, [])))), None)
  {
    hide ExecCommand, Dispatch, Strings, Backwards;
    Sessions.DirectStep(st, PushCommand(k, p), clock);
    PushLaw(st.store, k, p.values, clock(st.tick));
    var seed := if p.left then Backwards(p.values) else p.values;
    assert [] + seed + [] == seed;
  }

  lemma {:induction false} PushRun(st: Session, k: S.Key, first: Lists.Push<Bytes>, more: seq<Lists.Push<Bytes>>,
      clock: Clock)
    requires st.tx == IDLE && S.At(st.store, k) == S.ABSENT
    ensures var r := Sessions.Run(st, PushCommands(k, [first] + more), clock).0;
      r.tx == IDLE && S.At(r.store, k) == S.Cell(Some(S.List(Strings(Built(first, more)))), None)
    decreases |more|
  {
    hide Dispatch, Sessions.Run, Built, Strings, S.At;
    if more == [] {
      assert PushCommands(k, [first] + more) == [] + [PushCommand(k, first)];
      Sessions.RunNone(st, clock);
      Sessions.RunSnoc(st, [], PushCommand(k, first), clock);
      PushOnNothing(st, k, first, clock);
    } else {
      var init, p := more[..|more| - 1], more[|more| - 1];
      assert more == init + [p];
      assert PushCommands(k, [first] + more) == PushCommands(k, [first] + init) + [PushCommand(k, p)];
      PushRun(st, k, first, init, clock);
      Sessions.RunSnoc(st, PushCommands(k, [first] + init), PushCommand(k, p), clock);
      PushOnList(Sessions.Run(st, PushCommands(k, [first] + init), clock).0, k, Built(first, init), p, clock);
      BuiltSnoc(first, init, p);
    }
  }

  /**
   Any run of LPUSH and RPUSH commands to a fresh key and then LRANGE with any bounds: the last reply is the
   listed part of what the pushes built.
   */
  lemma PushThenRange(st: Session, k: S.Key, first: Lists.Push<Bytes>, more: seq<Lists.Push<Bytes>>, a: int, z: int,
      clock: Clock)
    requires st.tx == IDLE && S.At(st.store, k) == S.ABSENT && |Built(first, more)| <= ISIZE_MAX
    requires I32_MIN <= a <= I32_MAX && I32_MIN <= z <= I32_MAX
    ensures var replies := Sessions.Run(st, PushCommands(k, [first] + more) + [LRANGE(k, a, z)], clock).1;
      |replies| > 0 && replies[|replies| - 1] == Success(Array(Bulks(S.Listed(Built(first, more), a, z))))
  {
    hide Dispatch, ExecCommand, Sessions.Run, Built, Strings, S.At, Bulks, S.Listed;
    var cmds := PushCommands(k, [first] + more);
    PushRun(st, k, first, more, clock);
    Sessions.RunSnoc(st, cmds, LRANGE(k, a, z), clock);
    var end := Sessions.Run(st, cmds, clock).0;
    Sessions.DirectStep(end, LRANGE(k, a, z), clock);
    RangeLaw(end.store, k, Built(first, more), a, z, clock(end.tick));
  }

  /** LRANGE 0 -1 lists everything, exactly at the lengths it can list. */
  lemma ListedWhole(vals: seq<Bytes>)
    requires |vals| <= ISIZE_MAX
    ensures S.Listed(vals, 0, -1) == vals <==> S.FullyListed(|vals|)
  {
    hide S.Range, S.Listed, S.FullyListed;
    S.WholeRange(Strings(vals));
    S.RangeIs(Strings(vals), 0, -1);
    ListedStrings(vals, 0, -1);
    SameStrings(S.Listed(vals, 0, -1), vals);
  }

  lemma SameStrings(a: seq<Bytes>, b: seq<Bytes>)
    ensures Strings(a) == Strings(b) <==> a == b
  {
    if Strings(a) == Strings(b) {
      assert forall i :: 0 <= i < |a| ==> Strings(a)[i] == S.Str(a[i]) && Strings(b)[i] == S.Str(b[i]);
    }
  }
}
