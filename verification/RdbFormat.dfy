/** The snapshot format: what the writer puts into a file and how the reader takes it apart, on values. */
module RdbFormat {
  import opened ByteStrings
  import S = Store
  import Utf8

  // ---- Fixed-width integers ----

  function Pow256(k: nat): nat {
    if k == 0 then 1 else 256 * Pow256(k - 1)
  }

  /** The low `k` bytes of `n`, lowest first. */
  function LittleEndian(n: nat, k: nat): (r: Bytes)
    ensures |r| == k
  {
    if k == 0 then [] else [(n % 256) as byte] + LittleEndian(n / 256, k - 1)
  }

  function FromLittleEndian(b: Bytes): nat {
    if b == [] then 0 else b[0] as int + 256 * FromLittleEndian(b[1..])
  }

  /** The low `k` bytes of `n`, highest first. */
  function BigEndian(n: nat, k: nat): (r: Bytes)
    ensures |r| == k
  {
    if k == 0 then [] else BigEndian(n / 256, k - 1) + [(n % 256) as byte]
  }

  function FromBigEndian(b: Bytes): nat {
    if b == [] then 0 else 256 * FromBigEndian(b[..|b| - 1]) + b[|b| - 1] as int
  }

  // ---- Deadlines on disk ----

  /** The monotonic and the wall clock, read together; the wall clock counts from the Unix epoch. */
  datatype Reading = Reading(instant: S.Instant, system: nat)

  /** The stored milliseconds of a deadline; a deadline already passed is stored as the present. */
  function SavedMillis(deadline: S.Instant, now: Reading): (ms: nat)
    ensures ms < USIZE_MODULUS
  {
    var system := if deadline > now.instant then now.system + (deadline - now.instant) else now.system;
    (system / S.NANOS_PER_MILLI) % USIZE_MODULUS
  }

  /** The deadline read back; one already passed becomes the present. */
  function LoadedDeadline(ms: nat, now: Reading): S.Instant {
    var ahead := ms * S.NANOS_PER_MILLI - now.system;
    now.instant + if ahead > 0 then ahead else 0
  }

  // ---- Writing ----

  const HEADER: Bytes := [82, 69, 68, 73, 83, 48, 48, 48, 49]
  const MAGIC: Bytes := [82, 69, 68, 73, 83]
  const STRING_TOKEN: Bytes := [115, 116, 114, 105, 110, 103]
  const LIST_TOKEN: Bytes := [108, 105, 115, 116]
  const STRING_UPPER: Bytes := [83, 84, 82, 73, 78, 71]
  const LIST_UPPER: Bytes := [76, 73, 83, 84]

  function LengthCode(n: nat): (r: Bytes)
    ensures r != []
  {
    if n < 64 then [n as byte] else [0x80] + BigEndian(n % U32_MODULUS, 4)
  }

  function StringCode(s: Bytes): Bytes {
    LengthCode(|s|) + s
  }

  function ValueCode(key: S.Key, value: Bytes): Bytes {
    [0] + StringCode(key) + StringCode(value)
  }

  /** The string items of a list; other items are skipped. */
  function ListCode(key: S.Key, items: seq<S.RedisObject>): Bytes {
    if items == [] then []
    else (if items[0].Str? then ValueCode(key, items[0].s) else []) + ListCode(key, items[1..])
  }

  function EntryCode(key: S.Key, value: S.RedisObject): Bytes {
    match value
    case Str(s) => StringCode(STRING_TOKEN) + ValueCode(key, s)
    case List(items) => StringCode(LIST_TOKEN) + LengthCode(|items|) + ListCode(key, items)
  }

  function ExpiryCode(key: S.Key, ms: nat): Bytes {
    StringCode(key) + [0xFC] + LittleEndian(ms, 8)
  }

  /** One record of a file. */
  datatype Record = Selector | Entry(key: S.Key, value: S.RedisObject) | Expiry(key: S.Key, ms: nat)

  function RecordCode(r: Record): Bytes {
    match r
    case Selector => [0xFE] + LengthCode(0)
    case Entry(k, v) => EntryCode(k, v)
    case Expiry(k, ms) => ExpiryCode(k, ms)
  }

  function RecordsCode(rs: seq<Record>): Bytes {
    if rs == [] then [] else RecordCode(rs[0]) + RecordsCode(rs[1..])
  }

  // ---- Reading ----

  /** A value read from the head of a file and what follows it, or an error. */
  datatype Parsed<+T> = Got(value: T, rest: Bytes) | Fail

  function ReadExact(b: Bytes, n: nat): (r: Parsed<Bytes>)
    ensures r.Got? ==> |r.rest| <= |b| && |r.value| == n
  {
    if |b| < n then Fail else Got(b[..n], b[n..])
  }

  function ReadLengthFrom(b: Bytes, first: byte): (r: Parsed<nat>)
    ensures r.Got? ==> |r.rest| <= |b|
  {
    if first < 64 then Got(first as int, b)
    else if first != 0x80 then Fail
    else match ReadExact(b, 4)
         case Got(d, rest) => Got(FromBigEndian(d), rest)
         case Fail => Fail
  }

  function ReadLength(b: Bytes): (r: Parsed<nat>)
    ensures r.Got? ==> |r.rest| <= |b|
  {
    if b == [] then Fail else ReadLengthFrom(b[1..], b[0])
  }

  function ReadStringFrom(b: Bytes, first: byte): (r: Parsed<Bytes>)
    ensures r.Got? ==> |r.rest| <= |b|
  {
    match ReadLengthFrom(b, first)
    case Fail => Fail
    case Got(n, body) =>
      match ReadExact(body, n)
      case Got(d, rest) => Got(Utf8.Lossy(d), rest)
      case Fail => Fail
  }

  function ReadString(b: Bytes): (r: Parsed<Bytes>)
    ensures r.Got? ==> |r.rest| <= |b|
  {
    if b == [] then Fail else ReadStringFrom(b[1..], b[0])
  }

  function ReadExpiry(b: Bytes): (r: Parsed<nat>)
    ensures r.Got? ==> |r.rest| <= |b|
  {
    match ReadExact(b, 8)
    case Got(d, rest) => Got(FromLittleEndian(d), rest)
    case Fail => Fail
  }

  /** A type marker, a key and a string. */
  function ReadValue(b: Bytes): (r: Parsed<(S.Key, Bytes)>)
    ensures r.Got? ==> |r.rest| <= |b|
  {
    if b == [] || b[0] != 0 then Fail
    else match ReadString(b[1..])
         case Fail => Fail
         case Got(key, more) =>
           match ReadString(more)
           case Fail => Fail
           case Got(value, rest) => Got((key, value), rest)
  }

  /** The items of a list: the key of the first one and all values. */
  function ReadItems(b: Bytes, count: nat): (r: Parsed<(Option<S.Key>, seq<S.RedisObject>)>)
    ensures r.Got? ==> |r.rest| <= |b|
    decreases count
  {
    if count == 0 then Got((None, []), b)
    else match ReadValue(b)
         case Fail => Fail
         case Got(kv, more) =>
           match ReadItems(more, count - 1)
           case Fail => Fail
           case Got(items, rest) => Got((Some(kv.0), [S.Str(kv.1)] + items.1), rest)
  }

  /** What one turn of the reader's loop does; `Stop` is the end marker. */
  datatype Effect = Nothing | Bind(key: S.Key, value: S.RedisObject) | Deadline(key: S.Key, ms: nat) | Stop

  function ReadList(b: Bytes): (r: Parsed<Effect>)
    ensures r.Got? ==> |r.rest| <= |b| && !r.value.Stop?
  {
    match ReadLength(b)
    case Fail => Fail
    case Got(count, more) =>
      match ReadItems(more, count)
      case Fail => Fail
      case Got(items, rest) => Got(if items.0.Some? then Bind(items.0.value, S.List(items.1)) else Nothing, rest)
  }

  /** A record that starts with a string: a data type token or the key of a deadline. */
  function ReadTokenRecord(token: Bytes, b: Bytes): (r: Parsed<Effect>)
    ensures r.Got? ==> |r.rest| <= |b| && !r.value.Stop?
  {
    if Upper(token) == STRING_UPPER then
      match ReadValue(b)
      case Fail => Fail
      case Got(kv, rest) => Got(Bind(kv.0, S.Str(kv.1)), rest)
    else if Upper(token) == LIST_UPPER then ReadList(b)
    else if b == [] || b[0] != 0xFC then Fail
    else match ReadExpiry(b[1..])
         case Fail => Fail
         case Got(ms, rest) => Got(Deadline(token, ms), rest)
  }

  /** One turn of the loop: the first byte chooses between an opcode and a string. */
  function ReadRecord(b: Bytes): (r: Parsed<Effect>)
    ensures r.Got? ==> |r.rest| < |b|
  {
    if b == [] then Fail
    else if b[0] == 0xFE then
      match ReadLength(b[1..])
      case Fail => Fail
      case Got(_, rest) => Got(Nothing, rest)
    else if b[0] == 0xFC then
      match ReadString(b[1..])
      case Fail => Fail
      case Got(key, more) =>
        (match ReadExpiry(more)
         case Fail => Fail
         case Got(ms, rest) => Got(Deadline(key, ms), rest))
    else if b[0] == 0xFF then Got(Stop, b[1..])
    else
      match ReadStringFrom(b[1..], b[0])
      case Fail => Fail
      case Got(token, more) => ReadTokenRecord(token, more)
  }

  /** The store after a record; `clock(i)` is the reading for the i-th deadline of the file. */
  datatype Loading = Loading(store: S.Store, deadlines: nat)

  function Apply(l: Loading, e: Effect, clock: nat -> Reading): Loading {
    match e
    case Bind(k, v) => l.(store := l.store.(data := l.store.data[k := v]))
    case Deadline(k, ms) =>
      Loading(l.store.(exps := l.store.exps[k := LoadedDeadline(ms, clock(l.deadlines))]), l.deadlines + 1)
    case _ => l
  }

  /** The reader's loop, which ends with the file or at the end marker; `None` is an error. */
  function LoadRecords(b: Bytes, l: Loading, clock: nat -> Reading): Option<Loading>
    decreases |b|
  {
    if b == [] then Some(l)
    else match ReadRecord(b)
         case Fail => None
         case Got(e, rest) => if e.Stop? then Some(l) else LoadRecords(rest, Apply(l, e, clock), clock)
  }

  const NEW: Loading := Loading(S.EMPTY, 0)

  /** Loading a file. */
  function Load(file: Bytes, clock: nat -> Reading): Option<Loading> {
    match ReadExact(file, 9)
    case Fail => None
    case Got(head, body) => if head[..5] != MAGIC then None else LoadRecords(body, NEW, clock)
  }
}
