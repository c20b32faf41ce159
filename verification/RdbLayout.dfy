/** The bytes of a snapshot, and what the reader makes of bytes the writer does not write. */
module RdbLayout {
  import opened ByteStrings
  import opened RdbFormat
  import opened RdbProofs
  import opened Snapshots
  import S = Store

  // ---- What is written ----

  lemma ByteOrder()
    ensures BigEndian(1, 4) == [0, 0, 0, 1] && LittleEndian(1, 8) == [1, 0, 0, 0, 0, 0, 0, 0]
  {
    assert LittleEndian(0, 3) == [0, 0, 0];
    assert LittleEndian(0, 5) == [0, 0] + LittleEndian(0, 3);
    assert LittleEndian(0, 7) == [0, 0] + LittleEndian(0, 5);
    assert BigEndian(0, 2) == [0, 0];
    assert BigEndian(0, 3) == BigEndian(0, 2) + [0];
  }

  /** A short length is one byte, a long one a mark and four bytes. */
  lemma LengthLayout(n: nat)
    requires n < U32_MODULUS
    ensures n < 64 ==> LengthCode(n) == [n as byte]
    ensures n >= 64 ==> LengthCode(n) == [0x80] + BigEndian(n, 4)
  {
  }

  lemma FixedTexts()
    ensures Ascii("REDIS0001") == HEADER && Ascii("string") == STRING_TOKEN && Ascii("list") == LIST_TOKEN
  {
  }

  /** A snapshot of nothing. */
  lemma EmptyLayout(saved: nat -> Reading)
    ensures var s := Save(S.EMPTY, [], [], saved);
      ValidSave(s) && File(s) == Ascii("REDIS0001") + [0xFE, 0]
  {
    FixedTexts();
    var s := Save(S.EMPTY, [], [], saved);
    assert Records(s) == [Selector] && [Selector][1..] == [];
  }

  /** A stored string with its length, for short ones. */
  function Sized(s: Bytes): Bytes
    requires |s| < 64
  {
    [|s| as byte] + s
  }

  lemma SizedIs(s: Bytes)
    requires |s| < 64
    ensures StringCode(s) == Sized(s)
  {
  }

  /** A deadline on disk is its moment on the wall clock, that of the save if it has passed, to the millisecond. */
  lemma SavedMoment(d: S.Instant, now: Reading)
    ensures var moment := now.system + (if d < now.instant then 0 else d - now.instant);
      moment < USIZE_MODULUS * S.NANOS_PER_MILLI ==>
        0 <= moment - SavedMillis(d, now) * S.NANOS_PER_MILLI < S.NANOS_PER_MILLI
  {
  }

  /** A string and its deadline, byte by byte. */
  lemma StringLayout(k: S.Key, v: Bytes, d: S.Instant, saved: nat -> Reading)
    requires |k| < 64 && |v| < 64
    ensures var s := Save(S.Store(map[k := S.Str(v)], map[k := d]), [k], [k], saved);
      && ValidSave(s)
      && File(s) == Ascii("REDIS0001") + [0xFE, 0]
           + ([6] + Ascii("string") + [0] + Sized(k) + Sized(v))
           + (Sized(k) + [0xFC] + LittleEndian(SavedMillis(d, saved(0)), 8))
  {
    hide SavedMillis, LittleEndian, RecordCode, Sized, Ascii;
    var s := Save(S.Store(map[k := S.Str(v)], map[k := d]), [k], [k], saved);
    assert s.dataOrder[0] == k && s.expOrder[0] == k;
    var e, x := Entry(k, S.Str(v)), Expiry(k, SavedMillis(d, saved(0)));
    assert Records(s) == [Selector, e, x];
    ThreeRecords(Selector, e, x);
    SelectorLayout();
    EntryLayout(k, v);
    ExpiryLayout(k, SavedMillis(d, saved(0)));
    FixedTexts();
    Regrouped(HEADER, RecordCode(Selector), RecordCode(e), RecordCode(x));
  }

  lemma Regrouped(a: Bytes, b: Bytes, c: Bytes, d: Bytes)
    ensures a + (b + c + d) == a + b + c + d
  {
  }

  lemma SelectorLayout()
    ensures RecordCode(Selector) == [0xFE, 0]
  {
  }

  lemma EntryLayout(k: S.Key, v: Bytes)
    requires |k| < 64 && |v| < 64
    ensures RecordCode(Entry(k, S.Str(v))) == [6] + Ascii("string") + [0] + Sized(k) + Sized(v)
  {
    hide StringCode;
    FixedTexts();
    SizedIs(k);
    SizedIs(v);
    SizedIs(STRING_TOKEN);
  }

  lemma ExpiryLayout(k: S.Key, ms: nat)
    requires |k| < 64
    ensures RecordCode(Expiry(k, ms)) == Sized(k) + [0xFC] + LittleEndian(ms, 8)
  {
    hide StringCode, LittleEndian;
    SizedIs(k);
  }

  lemma ThreeRecords(a: Record, b: Record, c: Record)
    ensures RecordsCode([a, b, c]) == RecordCode(a) + RecordCode(b) + RecordCode(c)
  {
    hide RecordCode;
    assert [a, b, c][1..] == [b, c] && [b, c][1..] == [c] && [c][1..] == [];
    assert RecordsCode([c]) == RecordCode(c) + [];
    assert RecordsCode([b, c]) == RecordCode(b) + RecordsCode([c]);
  }

  /** A list: the token, the count, and for each item the mark, the key and the item. */
  lemma ListLayout(k: S.Key, v: Bytes, w: Bytes)
    requires |k| < 64 && |v| < 64 && |w| < 64
    ensures RecordCode(Entry(k, S.List([S.Str(v), S.Str(w)]))) ==
      [4] + Ascii("list") + [2] + ([0] + Sized(k) + Sized(v)) + ([0] + Sized(k) + Sized(w))
  {
    hide StringCode;
    FixedTexts();
    SizedIs(k);
    SizedIs(v);
    SizedIs(w);
    SizedIs(LIST_TOKEN);
    var items := [S.Str(v), S.Str(w)];
    assert items[1..] == [S.Str(w)] && items[1..][1..] == [];
    assert ListCode(k, items[1..]) == ValueCode(k, w) + [];
    assert ListCode(k, items) == ValueCode(k, v) + ListCode(k, items[1..]);
  }

  // ---- What is read ----

  /** The first five bytes decide; the version behind them is not looked at. */
  lemma HeaderRead(head: Bytes, body: Bytes, clock: nat -> Reading)
    requires |head| == 9
    ensures Load(head + body, clock) == if head[..5] == Ascii("REDIS") then LoadRecords(body, NEW, clock) else None
    ensures forall short :: |short| < 9 ==> Load(short, clock) == None
  {
    hide LoadRecords;
    assert Ascii("REDIS") == MAGIC;
    assert (head + body)[..9] == head && (head + body)[9..] == body;
  }

  /** The number of the database is read and ignored. */
  lemma SelectorRead(n: nat, x: Bytes)
    requires n < U32_MODULUS
    ensures ReadRecord([0xFE] + LengthCode(n) + x) == Got(Nothing, x)
  {
    hide ReadTokenRecord, ReadStringFrom, ReadExpiry, ReadLength, LengthCode;
    assert ([0xFE] + LengthCode(n) + x)[1..] == LengthCode(n) + x;
    LengthRoundTrip(n, x);
  }

  /** A deadline with its opcode in front is read for every key, `string` and `list` included. */
  lemma OpcodeFirst(k: S.Key, ms: nat, x: Bytes)
    requires Storable(k) && ms < USIZE_MODULUS
    ensures ReadRecord([0xFC] + StringCode(k) + LittleEndian(ms, 8) + x) == Got(Deadline(k, ms), x)
  {
    hide StringCode, Storable, LittleEndian, FromLittleEndian, ReadTokenRecord, ReadStringFrom, ReadString, ReadLength;
    var b, tail := [0xFC] + StringCode(k) + LittleEndian(ms, 8) + x, LittleEndian(ms, 8) + x;
    assert b[1..] == StringCode(k) + tail;
    StringRoundTrip(k, tail);
    Widths();
    LittleEndianRoundTrip(ms, 8);
    assert tail[..8] == LittleEndian(ms, 8) && tail[8..] == x;
  }

  /** Records, an end marker and anything behind it: the records are loaded and the rest is not looked at. */
  lemma {:induction false} EndMarker(rs: seq<Record>, l: Loading, x: Bytes, clock: nat -> Reading)
    requires AllStorable(rs) && AllReadable(rs)
    ensures LoadRecords(RecordsCode(rs) + ([0xFF] + x), l, clock) == Some(ApplyAll(l, rs, clock))
    decreases |rs|
  {
    hide RecordCode, Apply, Meaning, StorableRecord;
    var tail := [0xFF] + x;
    if rs == [] {
      assert RecordsCode(rs) + tail == tail;
      MarkerStops(x, l, clock);
    } else {
      hide ReadRecord;
      var rest := RecordsCode(rs[1..]) + tail;
      var b := RecordsCode(rs) + tail;
      assert b == RecordCode(rs[0]) + rest;
      LoadStep(rs[0], rest, l, clock);
      EndMarker(rs[1..], Apply(l, Meaning(rs[0]), clock), x, clock);
    }
  }

  lemma MarkerStops(x: Bytes, l: Loading, clock: nat -> Reading)
    ensures LoadRecords([0xFF] + x, l, clock) == Some(l)
  {
  }

  /** The key of a list is that of its first item, whatever the others carry. */
  lemma FirstKeyCounts(k: S.Key, v: Bytes, count: nat, b: Bytes)
    requires Storable(k) && Storable(v)
    ensures ReadItems(ValueCode(k, v) + b, count + 1) ==
      match ReadItems(b, count)
      case Fail => Fail
      case Got(items, rest) => Got((Some(k), [S.Str(v)] + items.1), rest)
  {
    hide ReadValue, ValueCode;
    ValueRoundTrip(k, v, b);
  }

  /** A value without its mark is an error. */
  lemma MarkNeeded(m: byte, b: Bytes, count: nat)
    requires m != 0
    ensures ReadValue([m] + b) == Fail && ReadItems([m] + b, count + 1) == Fail
  {
  }

  /** A record starts with an opcode or a length; no other byte can start one. */
  lemma BadStart(b: Bytes)
    requires b != [] && b[0] >= 64 && b[0] !in [0x80, 0xFC, 0xFE, 0xFF]
    ensures ReadRecord(b) == Fail
  {
  }

  /** Of two records for one key the later one counts. */
  lemma LaterRecordCounts(l: Loading, k: S.Key, v: S.RedisObject, w: S.RedisObject, a: nat, b: nat,
      clock: nat -> Reading)
    ensures Apply(Apply(l, Bind(k, v), clock), Bind(k, w), clock).store.data == l.store.data[k := w]
    ensures Apply(Apply(l, Deadline(k, a), clock), Deadline(k, b), clock).store.exps ==
      l.store.exps[k := LoadedDeadline(b, clock(l.deadlines + 1))]
  {
    hide LoadedDeadline;
  }
}
