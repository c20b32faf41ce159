/**
 The key space: two maps, one of values and one of deadlines. Every operation concerns the cell of
 one key, and `CellOp` says what it does to that cell; `DB` in Database.dfy does it on the maps.
 */
module Store {
  import opened ByteStrings
  import opened RespTypes

  type Key = Bytes

  /** A clock reading, in nanoseconds. */
  type Instant = int

  const NANOS_PER_MILLI: int := 1_000_000

  datatype RedisObject = Str(s: Bytes) | List(items: seq<RedisObject>)

  datatype Store = Store(data: map<Key, RedisObject>, exps: map<Key, Instant>)

  const EMPTY: Store := Store(map[], map[])

  /** What the two maps hold for one key. */
  datatype Cell = Cell(value: Option<RedisObject>, deadline: Option<Instant>)

  const ABSENT: Cell := Cell(None, None)

  function Lookup<V>(m: map<Key, V>, k: Key): Option<V> {
    if k in m then Some(m[k]) else None
  }

  function At(s: Store, k: Key): Cell {
    Cell(Lookup(s.data, k), Lookup(s.exps, k))
  }

  function Place<V>(m: map<Key, V>, k: Key, v: Option<V>): map<Key, V> {
    match v case Some(x) => m[k := x] case None => m - {k}
  }

  function Put(s: Store, k: Key, c: Cell): Store {
    Store(Place(s.data, k, c.value), Place(s.exps, k, c.deadline))
  }

  lemma PutAt(s: Store, k: Key, c: Cell, j: Key)
    ensures At(Put(s, k, c), j) == if j == k then c else At(s, j)
  {
  }

  /** A store is the collection of its cells. */
  lemma SameCells(s: Store, t: Store)
    requires forall k :: At(s, k) == At(t, k)
    ensures s == t
  {
    assert forall k :: (k in s.data <==> At(s, k).value.Some?) && (k in t.data <==> At(t, k).value.Some?);
    assert forall k :: (k in s.exps <==> At(s, k).deadline.Some?) && (k in t.exps <==> At(t, k).deadline.Some?);
    assert forall k :: k in s.data ==> At(s, k).value.value == s.data[k] == t.data[k];
    assert forall k :: k in s.exps ==> At(s, k).deadline.value == s.exps[k] == t.exps[k];
    assert s.data == t.data && s.exps == t.exps;
  }

  lemma PutSame(s: Store, k: Key)
    ensures Put(s, k, At(s, k)) == s
  {
    forall j ensures At(Put(s, k, At(s, k)), j) == At(s, j) { PutAt(s, k, At(s, k), j); }
    SameCells(Put(s, k, At(s, k)), s);
  }

  // ---- Operations on one key ----

  datatype Op =
    | Set(val: RedisObject, expiresAt: Option<Instant>)
    | Get
    | Delete
    | LPush(values: seq<RedisObject>)
    | RPush(values: seq<RedisObject>)
    | LRange(start: int, stop: int)
    | Expire(at: Instant, option: Option<Bytes>)
    /** What the expiration cycle does to one sampled key. */
    | Purge

  datatype Outcome = Done | Value(obj: RedisObject) | Err(msg: Bytes)

  const NX: Bytes := [78, 88]
  const XX: Bytes := [88, 88]
  const GT: Bytes := [71, 84]
  const LT: Bytes := [76, 84]

  const NIL_VALUE: Outcome := Value(Str(NIL))

  const NOT_FOUND: Bytes := Ascii("Entry not found.")
  const BAD_OPTION: Bytes := Ascii("Invalid option for expire command.")
  const PUSH_TYPE: Bytes := Ascii("Wrong data type. Expected List, got String.")
  const RANGE_TYPE: Bytes := Ascii("Wrong type. Expected list.")

  predicate Passed(deadline: Option<Instant>, now: Instant) {
    deadline.Some? && deadline.value < now
  }

  predicate Expired(c: Cell, now: Instant) {
    Passed(c.deadline, now)
  }

  function Reversed<T>(s: seq<T>): (r: seq<T>)
    ensures |r| == |s|
    ensures forall i :: 0 <= i < |s| ==> r[i] == s[|s| - 1 - i]
  {
    seq(|s|, i requires 0 <= i < |s| => s[|s| - 1 - i])
  }

  /** Conversion to `i32` by truncation. */
  function Wrap32(x: int): (r: int)
    ensures I32_MIN <= r <= I32_MAX
    ensures I32_MIN <= x <= I32_MAX ==> r == x
  {
    var m := x % U32_MODULUS;
    if m > I32_MAX then m - U32_MODULUS else m
  }

  /** Conversion of an `i32` to `usize`, which sign-extends. */
  function AsUsize(x: int): nat
    requires I32_MIN <= x <= I32_MAX
  {
    if x < 0 then x + USIZE_MODULUS else x
  }

  /** An `LRANGE` bound: negative ones count from the end, in wrapping 32-bit arithmetic. */
  function Bound(x: int, len: nat): nat {
    AsUsize(Wrap32(if x < 0 then x + Wrap32(len) else x))
  }

  /** The items whose index passes the `LRANGE` filter, from index `i` on. */
  function Filtered(list: seq<RedisObject>, lo: nat, hi: nat, i: nat): seq<RedisObject>
    requires i <= |list|
    decreases |list| - i
  {
    if i == |list| then []
    else (if lo <= i <= hi then [list[i]] else []) + Filtered(list, lo, hi, i + 1)
  }

  function Range(list: seq<RedisObject>, start: int, stop: int): seq<RedisObject> {
    Filtered(list, Bound(start, |list|), Bound(stop, |list|), 0)
  }

  /** Whether `EXPIRE` with this option changes the deadline; `None` for an unknown option. */
  function UpdatesDeadline(c: Cell, at: Instant, option: Option<Bytes>): Option<bool> {
    match option
    case None => Some(true)
    case Some(o) =>
      if o == NX then Some(c.deadline.None?)
      else if o == XX then Some(c.deadline.Some?)
      else if o == GT then Some(c.deadline.Some? && at > c.deadline.value)
      else if o == LT then Some(c.deadline.Some? && at < c.deadline.value)
      else None
  }

  function ExpireCell(c: Cell, at: Instant, option: Option<Bytes>): (Cell, Outcome) {
    if c.value.None? then (c, Err(NOT_FOUND))
    else match UpdatesDeadline(c, at, option)
         case None => (c, Err(BAD_OPTION))
         case Some(update) => (if update then c.(deadline := Some(at)) else c, Done)
  }

  function PushCell(c: Cell, values: seq<RedisObject>, left: bool): (Cell, Outcome) {
    match c.value
    case None => (c.(value := Some(List(if left then Reversed(values) else values))), Done)
    case Some(List(l)) => (c.(value := Some(List(if left then values + l else l + values))), Done)
    case Some(Str(_)) => (c, Err(PUSH_TYPE))
  }

  /** What an operation does to its key's cell, and its result. */
  function CellOp(op: Op, c: Cell, now: Instant): (Cell, Outcome) {
    match op
    case Set(v, e) => (Cell(Some(v), e), Done)
    case Delete => (ABSENT, Done)
    case Get =>
      if Expired(c, now) then (ABSENT, NIL_VALUE)
      else (c, if c.value.Some? then Value(c.value.value) else NIL_VALUE)
    case LPush(vs) => PushCell(c, vs, true)
    case RPush(vs) => PushCell(c, vs, false)
    case LRange(start, stop) =>
      if Expired(c, now) then (ABSENT, NIL_VALUE)
      else (match c.value
            case None => (c, NIL_VALUE)
            case Some(List(l)) => (c, Value(List(Range(l, start, stop))))
            case Some(Str(_)) => (c, Err(RANGE_TYPE)))
    case Expire(at, option) => ExpireCell(c, at, option)
    case Purge => (if Expired(c, now) then ABSENT else c, Done)
  }

  /** A whole operation on the store. */
  function Exec(s: Store, k: Key, op: Op, now: Instant): (Store, Outcome) {
    var r := CellOp(op, At(s, k), now);
    (Put(s, k, r.0), r.1)
  }

  // ---- Lists ----

  lemma {:induction false} FilteredIsSlice(list: seq<RedisObject>, lo: nat, hi: nat, i: nat)
    requires i <= |list|
    ensures Filtered(list, lo, hi, i) ==
            (var from := if lo < i then i else lo;
             var to := if hi < |list| then hi + 1 else |list|;
             if from < to then list[from..to] else [])
    decreases |list| - i
  {
    if i < |list| {
      FilteredIsSlice(list, lo, hi, i + 1);
      var to := if hi < |list| then hi + 1 else |list|;
      if lo <= i < to {
        assert list[i..to] == [list[i]] + list[i + 1..to];
      }
    }
  }

  /** Where an `LRANGE` bound points, as an integer. */
  function Resolved(x: int, len: nat): int {
    if x < 0 then x + len else x
  }

  /** The slice Redis documents: both bounds resolved, the first clamped to the start. */
  function RedisSlice(list: seq<RedisObject>, start: int, stop: int): seq<RedisObject> {
    var from := if Resolved(start, |list|) < 0 then 0 else Resolved(start, |list|);
    var to := if Resolved(stop, |list|) < |list| then Resolved(stop, |list|) + 1 else |list|;
    if from < to then list[from..to] else []
  }

  /** Where the code's bound points: the resolved position, truncated to 32 bits when it was counted from the end. */
  function Position(x: int, len: nat): int {
    if x < 0 then Wrap32(x + len) else x
  }

  lemma WrapShift(x: int, q: int)
    ensures Wrap32(x + U32_MODULUS * q) == Wrap32(x)
  {
    assert (x + U32_MODULUS * q) % U32_MODULUS == x % U32_MODULUS;
  }

  lemma BoundIs(x: int, len: nat)
    requires I32_MIN <= x <= I32_MAX
    ensures Bound(x, len) == if Position(x, len) < 0 then Position(x, len) + USIZE_MODULUS else Position(x, len)
  {
    if x < 0 {
      var w := Wrap32(len);
      var q := len / U32_MODULUS + if w < 0 then 1 else 0;
      assert len == w + U32_MODULUS * q;
      WrapShift(x + w, q);
    }
  }

  /** The items from one position to another, as far as there are any. */
  function Slice<T>(list: seq<T>, from: nat, last: nat): seq<T> {
    var to := if last < |list| then last + 1 else |list|;
    if from < to then list[from..to] else []
  }

  /** Nothing for a first position before the start, everything behind it for a last one before the start. */
  function Listed<T>(list: seq<T>, start: int, stop: int): seq<T> {
    var a, z := Position(start, |list|), Position(stop, |list|);
    if a < 0 then [] else if z < 0 then Slice(list, a, |list|) else Slice(list, a, z)
  }

  /** What the code returns for every list and every pair of bounds. */
  lemma RangeIs(list: seq<RedisObject>, start: int, stop: int)
    requires |list| <= ISIZE_MAX && I32_MIN <= start <= I32_MAX && I32_MIN <= stop <= I32_MAX
    ensures Range(list, start, stop) == Listed(list, start, stop)
  {
    hide Filtered, Bound, Position;
    BoundIs(start, |list|);
    BoundIs(stop, |list|);
    PositionBounds(start, |list|);
    PositionBounds(stop, |list|);
    FilteredIsSlice(list, Bound(start, |list|), Bound(stop, |list|), 0);
  }

  lemma PositionBounds(x: int, len: nat)
    requires I32_MIN <= x <= I32_MAX
    ensures I32_MIN <= Position(x, len) <= I32_MAX
    ensures len <= I32_MAX ==> Position(x, len) == Resolved(x, len)
  {
  }

  /** Exactly when that is the documented slice, for lists of up to the largest `i32` items. */
  lemma RangeIsRedisSlice(list: seq<RedisObject>, start: int, stop: int)
    requires |list| <= I32_MAX && I32_MIN <= start <= I32_MAX && I32_MIN <= stop <= I32_MAX
    ensures Range(list, start, stop) == RedisSlice(list, start, stop) <==>
            if start >= -|list| then stop >= -|list| || Resolved(start, |list|) >= |list|
            else stop < -|list| || list == []
  {
    hide Range, Position;
    RangeIs(list, start, stop);
    PositionBounds(start, |list|);
    PositionBounds(stop, |list|);
    var a, z := Resolved(start, |list|), Resolved(stop, |list|);
    if a < 0 && z >= 0 && list != [] {
      assert RedisSlice(list, start, stop) != [];
    }
  }

  /** The length is one at which the position of the last item survives truncation or turns negative. */
  predicate FullyListed(len: nat) {
    len <= I32_MAX + 1 || (len - 1) % U32_MODULUS > I32_MAX
  }

  /** What LRANGE 0 -1 returns: the whole list exactly at those lengths, and a proper prefix at all others. */
  lemma WholeRange(list: seq<RedisObject>)
    requires |list| <= ISIZE_MAX
    ensures Range(list, 0, -1) == list <==> FullyListed(|list|)
    ensures !FullyListed(|list|) ==> |Range(list, 0, -1)| < |list|
  {
    hide Range;
    RangeIs(list, 0, -1);
    var z := Position(-1, |list|);
    if z >= 0 && |list| > 0 {
      assert z == (|list| - 1) % U32_MODULUS;
    }
    assert list[0..|list|] == list;
  }
}
