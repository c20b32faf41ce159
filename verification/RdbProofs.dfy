/** Snapshots: what is saved is loaded, exactly when it can be, and a truncated file never invents anything. */
module RdbProofs {
  import opened ByteStrings
  import opened RdbFormat
  import S = Store
  import Utf8

  // ---- Fixed-width integers ----

  lemma {:induction false} LittleEndianRoundTrip(n: nat, k: nat)
    requires n < Pow256(k)
    ensures FromLittleEndian(LittleEndian(n, k)) == n
    decreases k
  {
    if k > 0 {
      LittleEndianRoundTrip(n / 256, k - 1);
      assert LittleEndian(n, k)[1..] == LittleEndian(n / 256, k - 1);
    }
  }

  lemma {:induction false} BigEndianRoundTrip(n: nat, k: nat)
    requires n < Pow256(k)
    ensures FromBigEndian(BigEndian(n, k)) == n
    decreases k
  {
    if k > 0 {
      BigEndianRoundTrip(n / 256, k - 1);
      assert BigEndian(n, k)[..k - 1] == BigEndian(n / 256, k - 1);
    }
  }

  lemma Widths()
    ensures Pow256(4) == U32_MODULUS && Pow256(8) == USIZE_MODULUS
  {
    assert Pow256(2) == 0x1_0000;
    assert Pow256(4) == 256 * (256 * Pow256(2));
    assert Pow256(6) == 256 * (256 * Pow256(4));
    assert Pow256(8) == 256 * (256 * Pow256(6));
  }

  // ---- Reading is stable: what was read stays read when the file is longer ----

  lemma ExactStable(b: Bytes, n: nat, x: Bytes)
    requires ReadExact(b, n).Got?
    ensures ReadExact(b + x, n) == Got(ReadExact(b, n).value, ReadExact(b, n).rest + x)
  {
    assert (b + x)[..n] == b[..n] && (b + x)[n..] == b[n..] + x;
  }

  lemma LengthFromStable(b: Bytes, first: byte, x: Bytes)
    requires ReadLengthFrom(b, first).Got?
    ensures ReadLengthFrom(b + x, first) == Got(ReadLengthFrom(b, first).value, ReadLengthFrom(b, first).rest + x)
  {
    hide FromBigEndian, ReadExact;
    if first >= 64 {
      ExactStable(b, 4, x);
    }
  }

  lemma LengthStable(b: Bytes, x: Bytes)
    requires ReadLength(b).Got?
    ensures ReadLength(b + x) == Got(ReadLength(b).value, ReadLength(b).rest + x)
  {
    hide ReadLengthFrom;
    assert (b + x)[1..] == b[1..] + x;
    LengthFromStable(b[1..], b[0], x);
  }

  lemma StringFromStable(b: Bytes, first: byte, x: Bytes)
    requires ReadStringFrom(b, first).Got?
    ensures ReadStringFrom(b + x, first) == Got(ReadStringFrom(b, first).value, ReadStringFrom(b, first).rest + x)
  {
    hide ReadLengthFrom, ReadExact, Utf8.Lossy;
    LengthFromStable(b, first, x);
    var n := ReadLengthFrom(b, first);
    ExactStable(n.rest, n.value, x);
  }

  lemma StringStable(b: Bytes, x: Bytes)
    requires ReadString(b).Got?
    ensures ReadString(b + x) == Got(ReadString(b).value, ReadString(b).rest + x)
  {
    hide ReadStringFrom;
    assert (b + x)[1..] == b[1..] + x;
    StringFromStable(b[1..], b[0], x);
  }

  lemma ExpiryStable(b: Bytes, x: Bytes)
    requires ReadExpiry(b).Got?
    ensures ReadExpiry(b + x) == Got(ReadExpiry(b).value, ReadExpiry(b).rest + x)
  {
    hide FromLittleEndian, ReadExact;
    ExactStable(b, 8, x);
  }

  lemma ValueStable(b: Bytes, x: Bytes)
    requires ReadValue(b).Got?
    ensures ReadValue(b + x) == Got(ReadValue(b).value, ReadValue(b).rest + x)
  {
    hide ReadString;
    assert (b + x)[1..] == b[1..] + x;
    StringStable(b[1..], x);
    StringStable(ReadString(b[1..]).rest, x);
  }

  lemma {:induction false} ItemsStable(b: Bytes, count: nat, x: Bytes)
    requires ReadItems(b, count).Got?
    ensures ReadItems(b + x, count) == Got(ReadItems(b, count).value, ReadItems(b, count).rest + x)
    decreases count
  {
    hide ReadValue;
    if count > 0 {
      ValueStable(b, x);
      ItemsStable(ReadValue(b).rest, count - 1, x);
    }
  }

  lemma ListStable(b: Bytes, x: Bytes)
    requires ReadList(b).Got?
    ensures ReadList(b + x) == Got(ReadList(b).value, ReadList(b).rest + x)
  {
    hide ReadLength, ReadItems;
    LengthStable(b, x);
    ItemsStable(ReadLength(b).rest, ReadLength(b).value, x);
  }

  lemma TokenRecordStable(token: Bytes, b: Bytes, x: Bytes)
    requires ReadTokenRecord(token, b).Got?
    ensures ReadTokenRecord(token, b + x) == Got(ReadTokenRecord(token, b).value, ReadTokenRecord(token, b).rest + x)
  {
    hide ReadValue, ReadList, ReadExpiry;
    if Upper(token) == STRING_UPPER {
      ValueStable(b, x);
    } else if Upper(token) == LIST_UPPER {
      ListStable(b, x);
    } else {
      assert (b + x)[1..] == b[1..] + x;
      ExpiryStable(b[1..], x);
    }
  }

  lemma RecordStable(b: Bytes, x: Bytes)
    requires ReadRecord(b).Got?
    ensures ReadRecord(b + x) == Got(ReadRecord(b).value, ReadRecord(b).rest + x)
  {
    hide ReadLength, ReadString, ReadStringFrom, ReadExpiry, ReadTokenRecord;
    var t := b[1..];
    assert (b + x)[1..] == t + x;
    if b[0] == 0xFE {
      LengthStable(t, x);
    } else if b[0] == 0xFC {
      StringStable(t, x);
      ExpiryStable(ReadString(t).rest, x);
    } else if b[0] != 0xFF {
      StringFromStable(t, b[0], x);
      var token := ReadStringFrom(t, b[0]);
      TokenRecordStable(token.value, token.rest, x);
    }
  }

  // ---- Reading inverts writing ----

  lemma LengthRoundTrip(n: nat, x: Bytes)
    requires n < U32_MODULUS
    ensures ReadLength(LengthCode(n) + x) == Got(n, x)
    ensures LengthCode(n)[0] < 64 || LengthCode(n)[0] == 0x80
    ensures ReadLengthFrom((LengthCode(n) + x)[1..], LengthCode(n)[0]) == Got(n, x)
  {
    hide FromBigEndian, BigEndian;
    var b := LengthCode(n) + x;
    if n < 64 {
      assert b[1..] == x;
    } else {
      Widths();
      BigEndianRoundTrip(n, 4);
      assert b[1..] == BigEndian(n, 4) + x;
      assert b[1..][..4] == BigEndian(n, 4) && b[1..][4..] == x;
    }
  }

  /** A string the snapshot can hold. */
  predicate Storable(s: Bytes) {
    |s| < U32_MODULUS && Utf8.Valid(s)
  }

  lemma StringRoundTrip(s: Bytes, x: Bytes)
    requires Storable(s)
    ensures StringCode(s) != [] && (StringCode(s)[0] < 64 || StringCode(s)[0] == 0x80)
    ensures ReadStringFrom((StringCode(s) + x)[1..], StringCode(s)[0]) == Got(s, x)
    ensures ReadString(StringCode(s) + x) == Got(s, x)
  {
    hide LengthCode, ReadLengthFrom, Utf8.Lossy, Utf8.Valid;
    var b := StringCode(s) + x;
    LengthRoundTrip(|s|, s + x);
    assert b == LengthCode(|s|) + (s + x);
    assert (s + x)[..|s|] == s && (s + x)[|s|..] == x;
    Utf8.LossyKeepsValid(s);
  }

  lemma ValueRoundTrip(key: S.Key, value: Bytes, x: Bytes)
    requires Storable(key) && Storable(value)
    ensures ReadValue(ValueCode(key, value) + x) == Got((key, value), x)
  {
    hide StringCode, ReadString, Storable;
    var b := ValueCode(key, value) + x;
    assert b[1..] == StringCode(key) + (StringCode(value) + x);
    StringRoundTrip(key, StringCode(value) + x);
    StringRoundTrip(value, x);
  }

  /** A list of strings the snapshot can hold. */
  predicate StorableItems(items: seq<S.RedisObject>) {
    forall i :: 0 <= i < |items| ==> items[i].Str? && Storable(items[i].s)
  }

  lemma {:induction false} ItemsRoundTrip(key: S.Key, items: seq<S.RedisObject>, x: Bytes)
    requires Storable(key) && StorableItems(items)
    ensures ReadItems(ListCode(key, items) + x, |items|) == Got((if items == [] then None else Some(key), items), x)
    decreases |items|
  {
    hide ValueCode, ReadValue, Storable;
    if items == [] {
      assert ListCode(key, items) + x == x;
    } else {
      var rest := ListCode(key, items[1..]) + x;
      assert ListCode(key, items) + x == ValueCode(key, items[0].s) + rest;
      ValueRoundTrip(key, items[0].s, rest);
      ItemsRoundTrip(key, items[1..], x);
      assert [S.Str(items[0].s)] + items[1..] == items;
    }
  }

  predicate StorableRecord(r: Record) {
    match r
    case Selector => true
    case Entry(k, Str(s)) => Storable(k) && Storable(s)
    case Entry(k, List(items)) => Storable(k) && |items| < U32_MODULUS && StorableItems(items)
    case Expiry(k, ms) => Storable(k) && ms < USIZE_MODULUS
  }

  /** A key that reads like a data type token. */
  predicate Collides(k: S.Key) {
    Upper(k) == STRING_UPPER || Upper(k) == LIST_UPPER
  }

  predicate Readable(r: Record) {
    StorableRecord(r) && !(r.Expiry? && Collides(r.key))
  }

  /** What a record means; an empty list leaves no trace. */
  function Meaning(r: Record): Effect {
    match r
    case Selector => Nothing
    case Entry(k, v) => if v == S.List([]) then Nothing else Bind(k, v)
    case Expiry(k, ms) => Deadline(k, ms)
  }

  lemma TokensUpper()
    ensures Upper(STRING_TOKEN) == STRING_UPPER && Upper(LIST_TOKEN) == LIST_UPPER
  {
  }

  lemma TokensStorable()
    ensures Storable(STRING_TOKEN) && Storable(LIST_TOKEN)
  {
    hide Utf8.Valid;
    Utf8.AsciiValid(STRING_TOKEN);
    Utf8.AsciiValid(LIST_TOKEN);
  }

  /** A record that starts with a stored string is read as that string and what follows it. */
  lemma TokenFirst(token: Bytes, x: Bytes)
    requires Storable(token)
    ensures ReadRecord(StringCode(token) + x) == ReadTokenRecord(token, x)
  {
    hide StringCode, ReadStringFrom, ReadTokenRecord, Storable, ReadLength, ReadString, ReadExpiry;
    StringRoundTrip(token, x);
    assert (StringCode(token) + x)[0] == StringCode(token)[0];
  }

  lemma StringEntryRoundTrip(k: S.Key, s: Bytes, x: Bytes)
    requires Storable(k) && Storable(s)
    ensures ReadRecord(EntryCode(k, S.Str(s)) + x) == Got(Bind(k, S.Str(s)), x)
  {
    hide StringCode, ValueCode, ReadRecord, ReadValue, Storable;
    TokensUpper();
    TokensStorable();
    TokenFirst(STRING_TOKEN, ValueCode(k, s) + x);
    assert EntryCode(k, S.Str(s)) + x == StringCode(STRING_TOKEN) + (ValueCode(k, s) + x);
    ValueRoundTrip(k, s, x);
  }

  lemma ListEntryRoundTrip(k: S.Key, items: seq<S.RedisObject>, x: Bytes)
    requires Storable(k) && |items| < U32_MODULUS && StorableItems(items)
    ensures ReadRecord(EntryCode(k, S.List(items)) + x) == Got(Meaning(Entry(k, S.List(items))), x)
  {
    hide StringCode, ListCode, LengthCode, ReadRecord, ReadItems, ReadLength, Storable, StorableItems;
    TokensUpper();
    TokensStorable();
    var tail := ListCode(k, items) + x;
    TokenFirst(LIST_TOKEN, LengthCode(|items|) + tail);
    assert EntryCode(k, S.List(items)) + x == StringCode(LIST_TOKEN) + (LengthCode(|items|) + tail);
    LengthRoundTrip(|items|, tail);
    ItemsRoundTrip(k, items, x);
  }

  /** A deadline comes back exactly when its key is not a data type token; otherwise nothing can be read at all. */
  lemma ExpiryRoundTrip(k: S.Key, ms: nat, x: Bytes)
    requires Storable(k) && ms < USIZE_MODULUS
    ensures ReadRecord(ExpiryCode(k, ms) + x) == if Collides(k) then Fail else Got(Deadline(k, ms), x)
  {
    hide StringCode, ReadRecord, Storable, LittleEndian, FromLittleEndian;
    var tail := [0xFC] + (LittleEndian(ms, 8) + x);
    TokenFirst(k, tail);
    assert ExpiryCode(k, ms) + x == StringCode(k) + tail;
    Widths();
    LittleEndianRoundTrip(ms, 8);
    assert tail[1..] == LittleEndian(ms, 8) + x;
    assert tail[1..][..8] == LittleEndian(ms, 8) && tail[1..][8..] == x;
  }

  lemma RecordRoundTrip(r: Record, x: Bytes)
    requires StorableRecord(r)
    ensures ReadRecord(RecordCode(r) + x) == if Readable(r) then Got(Meaning(r), x) else Fail
  {
    hide ReadRecord, EntryCode, ExpiryCode, Storable, StorableItems, Collides;
    match r
    case Selector => SelectorRoundTrip(x);
    case Entry(k, Str(s)) => StringEntryRoundTrip(k, s, x);
    case Entry(k, List(items)) => ListEntryRoundTrip(k, items, x);
    case Expiry(k, ms) => ExpiryRoundTrip(k, ms, x);
  }

  lemma SelectorRoundTrip(x: Bytes)
    ensures ReadRecord(RecordCode(Selector) + x) == Got(Nothing, x)
  {
    hide ReadTokenRecord, ReadStringFrom, ReadExpiry, ReadLength, LengthCode;
    assert (RecordCode(Selector) + x)[1..] == LengthCode(0) + x;
    LengthRoundTrip(0, x);
  }

  // ---- Whole files and their prefixes ----

  function ApplyAll(l: Loading, rs: seq<Record>, clock: nat -> Reading): Loading
    decreases |rs|
  {
    if rs == [] then l else ApplyAll(Apply(l, Meaning(rs[0]), clock), rs[1..], clock)
  }

  ghost predicate AllStorable(rs: seq<Record>) {
    forall i :: 0 <= i < |rs| ==> StorableRecord(rs[i])
  }

  ghost predicate AllReadable(rs: seq<Record>) {
    forall i :: 0 <= i < |rs| ==> Readable(rs[i])
  }

  lemma CodeNotEmpty(r: Record)
    ensures RecordCode(r) != []
  {
  }

  /** How many whole records end exactly at byte `n`, if any do. */
  function Boundary(rs: seq<Record>, n: nat): (j: Option<nat>)
    ensures j.Some? ==> j.value <= |rs|
    decreases |rs|
  {
    if n == 0 then Some(0)
    else if rs == [] || n < |RecordCode(rs[0])| then None
    else match Boundary(rs[1..], n - |RecordCode(rs[0])|)
         case Some(j) => Some(j + 1)
         case None => None
  }

  lemma LoadStep(r: Record, x: Bytes, l: Loading, clock: nat -> Reading)
    requires StorableRecord(r)
    ensures LoadRecords(RecordCode(r) + x, l, clock) ==
      if Readable(r) then LoadRecords(x, Apply(l, Meaning(r), clock), clock) else None
  {
    hide ReadRecord, RecordCode, StorableRecord, Readable, Apply;
    RecordRoundTrip(r, x);
    CodeNotEmpty(r);
  }

  /** A record cut short is an error. */
  lemma CutRecordFails(r: Record, n: nat, l: Loading, clock: nat -> Reading)
    requires StorableRecord(r) && 0 < n < |RecordCode(r)|
    ensures LoadRecords(RecordCode(r)[..n], l, clock).None?
  {
    hide ReadRecord, RecordCode, StorableRecord, Readable, Apply;
    var c := RecordCode(r);
    assert c[..n] + c[n..] == c + [] == c;
    RecordRoundTrip(r, []);
    if ReadRecord(c[..n]).Got? {
      RecordStable(c[..n], c[n..]);
    }
  }

  /** What loading the first `n` bytes of a list of records does: the whole records, or an error. */
  lemma {:induction false} LoadCut(rs: seq<Record>, n: nat, l: Loading, clock: nat -> Reading)
    requires AllStorable(rs) && n <= |RecordsCode(rs)|
    ensures LoadRecords(RecordsCode(rs)[..n], l, clock) ==
      match Boundary(rs, n)
      case None => None
      case Some(j) => if AllReadable(rs[..j]) then Some(ApplyAll(l, rs[..j], clock)) else None
    decreases |rs|
  {
    hide RecordCode, StorableRecord, Readable, Apply, ReadRecord;
    if n == 0 {
      assert RecordsCode(rs)[..n] == [];
      assert rs[..0] == [];
    } else {
      var c := RecordCode(rs[0]);
      if n < |c| {
        assert RecordsCode(rs)[..n] == c[..n];
        CutRecordFails(rs[0], n, l, clock);
      } else {
        var tail := RecordsCode(rs[1..])[..n - |c|];
        assert RecordsCode(rs)[..n] == c + tail;
        LoadStep(rs[0], tail, l, clock);
        LoadCut(rs[1..], n - |c|, Apply(l, Meaning(rs[0]), clock), clock);
        PrefixReadable(rs, Boundary(rs[1..], n - |c|), l, clock);
      }
    }
  }

  lemma PrefixReadable(rs: seq<Record>, j: Option<nat>, l: Loading, clock: nat -> Reading)
    requires rs != [] && (j.Some? ==> j.value <= |rs| - 1)
    ensures j.Some? ==> (AllReadable(rs[..j.value + 1]) <==> Readable(rs[0]) && AllReadable(rs[1..][..j.value]))
    ensures j.Some? ==>
      ApplyAll(l, rs[..j.value + 1], clock) == ApplyAll(Apply(l, Meaning(rs[0]), clock), rs[1..][..j.value], clock)
  {
    hide Readable, Apply;
    if j.Some? {
      var p := rs[..j.value + 1];
      assert p[0] == rs[0] && p[1..] == rs[1..][..j.value];
      assert forall i :: 0 <= i < |p[1..]| ==> p[1..][i] == p[i + 1];
    }
  }

  lemma {:induction false} BoundaryAt(rs: seq<Record>, j: nat)
    requires j <= |rs|
    ensures Boundary(rs, |RecordsCode(rs[..j])|) == Some(j)
    decreases j
  {
    hide RecordCode;
    if j > 0 {
      CodeNotEmpty(rs[0]);
      assert rs[..j][0] == rs[0] && rs[..j][1..] == rs[1..][..j - 1];
      BoundaryAt(rs[1..], j - 1);
    }
  }

  lemma {:induction false} BoundaryMeans(rs: seq<Record>, n: nat)
    requires Boundary(rs, n).Some?
    ensures n == |RecordsCode(rs[..Boundary(rs, n).value])|
    decreases |rs|
  {
    hide RecordCode;
    if n > 0 {
      var m := n - |RecordCode(rs[0])|;
      BoundaryMeans(rs[1..], m);
      var j := Boundary(rs[1..], m).value;
      assert rs[..j + 1][0] == rs[0] && rs[..j + 1][1..] == rs[1..][..j];
    }
  }
}
