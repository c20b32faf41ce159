/** The snapshot writer, which appends to a file, and the reader, which advances a cursor through one. */
module RdbFiles {
  import opened ByteStrings
  import opened RdbFormat
  import opened Snapshots
  import S = Store
  import Utf8

  lemma {:induction false} RecordsCodeAppend(a: seq<Record>, b: seq<Record>)
    ensures RecordsCode(a + b) == RecordsCode(a) + RecordsCode(b)
    decreases |a|
  {
    hide RecordCode;
    if a == [] {
      assert a + b == b;
    } else {
      assert (a + b)[1..] == a[1..] + b;
      RecordsCodeAppend(a[1..], b);
    }
  }

  lemma RecordsCodeSnoc(rs: seq<Record>, r: Record)
    ensures RecordsCode(rs + [r]) == RecordsCode(rs) + RecordCode(r)
  {
    hide RecordCode;
    RecordsCodeAppend(rs, [r]);
    assert [r][1..] == [] && RecordsCode([r]) == RecordCode(r) + [];
  }

  lemma {:induction false} ListCodeSnoc(key: S.Key, items: seq<S.RedisObject>, i: nat)
    requires i < |items|
    ensures ListCode(key, items[..i + 1]) ==
      ListCode(key, items[..i]) + (if items[i].Str? then ValueCode(key, items[i].s) else [])
    decreases i
  {
    hide ValueCode;
    if i == 0 {
      assert items[..1][1..] == [] && items[..0] == [];
    } else {
      assert items[..i + 1][1..] == items[1..][..i] && items[..i][1..] == items[1..][..i - 1];
      ListCodeSnoc(key, items[1..], i - 1);
    }
  }

  class SnapshotWriter {
    var out: Bytes

    constructor ()
      ensures out == []
    {
      out := [];
    }

    method WriteLength(len: nat)
      modifies this
      ensures out == old(out) + LengthCode(len)
    {
      if len < 64 {
        out := out + [len as byte];
      } else {
        out := out + [0x80];
        out := out + BigEndian(len % U32_MODULUS, 4);
      }
    }

    method WriteString(s: Bytes)
      modifies this
      ensures out == old(out) + StringCode(s)
    {
      WriteLength(|s|);
      out := out + s;
    }

    method WriteValue(key: S.Key, value: Bytes)
      modifies this
      ensures out == old(out) + ValueCode(key, value)
    {
      out := out + [0];
      WriteString(key);
      WriteString(value);
    }

    method WriteExpiry(key: S.Key, expire: S.Instant, now: Reading)
      modifies this
      ensures out == old(out) + ExpiryCode(key, SavedMillis(expire, now))
    {
      hide StringCode, LittleEndian;
      WriteString(key);
      var system := if expire > now.instant then now.system + (expire - now.instant) else now.system;
      var ms := (system / S.NANOS_PER_MILLI) % USIZE_MODULUS;
      out := out + [0xFC];
      out := out + LittleEndian(ms, 8);
    }

    method WriteList(key: S.Key, items: seq<S.RedisObject>)
      modifies this
      ensures out == old(out) + EntryCode(key, S.List(items))
    {
      hide ValueCode, StringCode, LengthCode, ListCode;
      WriteString(LIST_TOKEN);
      WriteLength(|items|);
      ghost var head := out;
      ListCodeNone(key);
      for i := 0 to |items|
        invariant out == head + ListCode(key, items[..i])
      {
        ListCodeSnoc(key, items, i);
        if items[i].Str? {
          WriteValue(key, items[i].s);
        }
      }
      assert items[..|items|] == items;
    }

    method WriteEntry(key: S.Key, value: S.RedisObject)
      modifies this
      ensures out == old(out) + EntryCode(key, value)
    {
      hide ValueCode, StringCode;
      match value
      case Str(s) =>
        WriteString(STRING_TOKEN);
        WriteValue(key, s);
      case List(items) => WriteList(key, items);
    }

    /** The loop over the values, in whatever order the map is walked. */
    method WriteEntries(db: map<S.Key, S.RedisObject>) returns (ghost order: seq<S.Key>)
      modifies this
      ensures IsOrder(order, db.Keys)
      ensures out == old(out) + RecordsCode(EntryRecords(db, order))
    {
      hide RecordsCode, EntryCode;
      order := [];
      NoRecords();
      var rest := db.Keys;
      while rest != {}
        invariant rest <= db.Keys
        invariant IsOrder(order, db.Keys - rest)
        invariant out == old(out) + RecordsCode(EntryRecords(db, order))
        decreases rest
      {
        var key :| key in rest;
        WriteEntry(key, db[key]);
        RecordsCodeSnoc(EntryRecords(db, order), Entry(key, db[key]));
        assert EntryRecords(db, order + [key]) == EntryRecords(db, order) + [Entry(key, db[key])];
        OrderSnoc(order, db.Keys, rest, key);
        order, rest := order + [key], rest - {key};
      }
      assert db.Keys - {} == db.Keys;
    }

    /** The loop over the deadlines; the clocks are read anew for each. */
    method WriteExpiries(exps: map<S.Key, S.Instant>, clock: nat -> Reading) returns (ghost order: seq<S.Key>)
      modifies this
      ensures IsOrder(order, exps.Keys)
      ensures out == old(out) + RecordsCode(ExpiryRecords(exps, order, clock))
    {
      hide RecordsCode, ExpiryCode, SavedMillis;
      order := [];
      NoRecords();
      var rest, n := exps.Keys, 0;
      while rest != {}
        invariant rest <= exps.Keys && n == |order|
        invariant IsOrder(order, exps.Keys - rest)
        invariant out == old(out) + RecordsCode(ExpiryRecords(exps, order, clock))
        decreases rest
      {
        var key :| key in rest;
        WriteExpiry(key, exps[key], clock(n));
        ghost var r := Expiry(key, SavedMillis(exps[key], clock(n)));
        RecordsCodeSnoc(ExpiryRecords(exps, order, clock), r);
        assert ExpiryRecords(exps, order + [key], clock) == ExpiryRecords(exps, order, clock) + [r];
        OrderSnoc(order, exps.Keys, rest, key);
        order, rest, n := order + [key], rest - {key}, n + 1;
      }
      assert exps.Keys - {} == exps.Keys;
    }

    /** The header, then `write_db`: the file of the store in some order of each map. */
    method Save(store: S.Store, clock: nat -> Reading) returns (ghost save: Save)
      requires out == []
      modifies this
      ensures save.store == store && save.clock == clock && ValidSave(save)
      ensures out == File(save)
    {
      hide RecordsCode, LengthCode;
      out := out + HEADER;
      out := out + [0xFE];
      WriteLength(0);
      ghost var dataOrder := WriteEntries(store.data);
      ghost var expOrder := WriteExpiries(store.exps, clock);
      save := Snapshots.Save(store, dataOrder, expOrder, clock);
      SelectorFirst();
      RecordsCodeAppend([Selector], EntryRecords(store.data, dataOrder));
      RecordsCodeAppend([Selector] + EntryRecords(store.data, dataOrder), ExpiryRecords(store.exps, expOrder, clock));
    }
  }

  lemma ListCodeNone(key: S.Key)
    ensures ListCode(key, []) == []
  {
  }

  lemma NoRecords()
    ensures RecordsCode([]) == []
  {
  }

  lemma SelectorFirst()
    ensures RecordsCode([Selector]) == [0xFE] + LengthCode(0)
  {
    RecordsCodeSnoc([], Selector);
    assert [] + [Selector] == [Selector];
  }

  lemma OrderSnoc(order: seq<S.Key>, keys: set<S.Key>, rest: set<S.Key>, key: S.Key)
    requires IsOrder(order, keys - rest) && rest <= keys && key in rest
    ensures IsOrder(order + [key], keys - (rest - {key}))
  {
    assert keys - (rest - {key}) == (keys - rest) + {key};
  }

  // ---- The reader ----

  class SnapshotReader {
    const file: Bytes
    var pos: nat
    var db: map<S.Key, S.RedisObject>
    var expirations: map<S.Key, S.Instant>
    var deadlines: nat

    constructor (file: Bytes)
      ensures this.file == file && Valid() && pos == 0 && Loaded() == NEW
    {
      this.file := file;
      pos, deadlines := 0, 0;
      db, expirations := map[], map[];
    }

    ghost predicate Valid()
      reads this
    {
      pos <= |file|
    }

    /** What the cursor has not passed. */
    ghost function Rest(): Bytes
      requires Valid()
      reads this
    {
      file[pos..]
    }

    ghost function Loaded(): Loading
      reads this
    {
      Loading(S.Store(db, expirations), deadlines)
    }

    method Exact(n: nat) returns (r: Option<Bytes>)
      requires Valid()
      modifies this`pos
      ensures Valid() && match ReadExact(old(Rest()), n)
        case Got(d, rest) => r == Some(d) && Rest() == rest
        case Fail => r.None?
    {
      if pos + n > |file| {
        return None;
      }
      r := Some(file[pos..pos + n]);
      assert file[pos..][..n] == file[pos..pos + n] && file[pos..][n..] == file[pos + n..];
      pos := pos + n;
    }

    method Byte() returns (r: Option<byte>)
      requires Valid()
      modifies this`pos
      ensures Valid()
      ensures if old(Rest()) == [] then r.None? else r == Some(old(Rest())[0]) && Rest() == old(Rest())[1..]
    {
      var d := Exact(1);
      if d.None? {
        return None;
      }
      r := Some(d.value[0]);
    }

    method LengthFrom(first: byte) returns (r: Option<nat>)
      requires Valid()
      modifies this`pos
      ensures Valid() && match ReadLengthFrom(old(Rest()), first)
        case Got(n, rest) => r == Some(n) && Rest() == rest
        case Fail => r.None?
    {
      hide ReadExact;
      if first < 64 {
        return Some(first as int);
      }
      if first != 0x80 {
        return None;
      }
      var d := Exact(4);
      r := if d.None? then None else Some(FromBigEndian(d.value));
    }

    method Length() returns (r: Option<nat>)
      requires Valid()
      modifies this`pos
      ensures Valid() && match ReadLength(old(Rest()))
        case Got(n, rest) => r == Some(n) && Rest() == rest
        case Fail => r.None?
    {
      hide ReadLengthFrom;
      var first := Byte();
      if first.None? {
        return None;
      }
      r := LengthFrom(first.value);
    }

    method StringFrom(first: byte) returns (r: Option<Bytes>)
      requires Valid()
      modifies this`pos
      ensures Valid() && match ReadStringFrom(old(Rest()), first)
        case Got(s, rest) => r == Some(s) && Rest() == rest
        case Fail => r.None?
    {
      hide ReadLengthFrom, ReadExact, Utf8.Lossy;
      var n := LengthFrom(first);
      if n.None? {
        return None;
      }
      var d := Exact(n.value);
      r := if d.None? then None else Some(Utf8.Lossy(d.value));
    }

    method String() returns (r: Option<Bytes>)
      requires Valid()
      modifies this`pos
      ensures Valid() && match ReadString(old(Rest()))
        case Got(s, rest) => r == Some(s) && Rest() == rest
        case Fail => r.None?
    {
      hide ReadStringFrom;
      var first := Byte();
      if first.None? {
        return None;
      }
      r := StringFrom(first.value);
    }

    method Expiry() returns (r: Option<nat>)
      requires Valid()
      modifies this`pos
      ensures Valid() && match ReadExpiry(old(Rest()))
        case Got(ms, rest) => r == Some(ms) && Rest() == rest
        case Fail => r.None?
    {
      hide ReadExact;
      var d := Exact(8);
      r := if d.None? then None else Some(FromLittleEndian(d.value));
    }

    method KeyValue() returns (r: Option<(S.Key, Bytes)>)
      requires Valid()
      modifies this`pos
      ensures Valid() && match ReadValue(old(Rest()))
        case Got(kv, rest) => r == Some(kv) && Rest() == rest
        case Fail => r.None?
    {
      hide ReadString;
      var kind := Byte();
      if kind.None? || kind.value != 0 {
        return None;
      }
      var key := String();
      if key.None? {
        return None;
      }
      var value := String();
      r := if value.None? then None else Some((key.value, value.value));
    }

    /** The loop over the items of a list, which remembers the first key. */
    method Items(count: nat) returns (ok: bool, key: Option<S.Key>, values: seq<S.RedisObject>)
      requires Valid()
      modifies this`pos
      ensures Valid() && match ReadItems(old(Rest()), count)
        case Got(items, rest) => ok && (key, values) == items && Rest() == rest
        case Fail => !ok
    {
      hide ReadValue, ReadItems;
      ghost var start := Rest();
      ok, key, values := true, None, [];
      NoItems(start);
      for i := 0 to count
        invariant Valid() && ReadItems(start, i) == Got((key, values), Rest())
      {
        ItemsSnoc(start, i);
        var kv := KeyValue();
        if kv.None? {
          ItemsFail(start, i + 1, count);
          return false, key, values;
        }
        if key.None? {
          key := Some(kv.value.0);
        }
        values := values + [S.Str(kv.value.1)];
      }
    }

    /** A LIST record after its token. */
    method ListRecord(clock: nat -> Reading) returns (ok: bool)
      requires Valid()
      modifies this`pos, this`db
      ensures Valid() && match ReadList(old(Rest()))
        case Got(e, rest) => ok && Rest() == rest && Loaded() == Apply(old(Loaded()), e, clock)
        case Fail => !ok
    {
      hide ReadLength, ReadItems;
      var count := Length();
      if count.None? {
        return false;
      }
      var good, key, values := Items(count.value);
      if !good {
        return false;
      }
      if key.Some? {
        db := db[key.value := S.List(values)];
      }
      return true;
    }

    /** A record that starts with a string. */
    method TokenRecord(token: Bytes, clock: nat -> Reading) returns (ok: bool)
      requires Valid()
      modifies this
      ensures Valid() && match ReadTokenRecord(token, old(Rest()))
        case Got(e, rest) => ok && Rest() == rest && Loaded() == Apply(old(Loaded()), e, clock)
        case Fail => !ok
    {
      hide ReadValue, ReadList, ReadExpiry, LoadedDeadline;
      if Upper(token) == STRING_UPPER {
        var kv := KeyValue();
        if kv.None? {
          return false;
        }
        db := db[kv.value.0 := S.Str(kv.value.1)];
        return true;
      }
      if Upper(token) == LIST_UPPER {
        ok := ListRecord(clock);
        return;
      }
      var opcode := Byte();
      if opcode.None? || opcode.value != 0xFC {
        return false;
      }
      ok := Deadline(token, clock);
    }

    method Deadline(key: S.Key, clock: nat -> Reading) returns (ok: bool)
      requires Valid()
      modifies this
      ensures Valid() && match ReadExpiry(old(Rest()))
        case Got(ms, rest) =>
          ok && Rest() == rest && Loaded() == Apply(old(Loaded()), RdbFormat.Deadline(key, ms), clock)
        case Fail => !ok
    {
      hide ReadExpiry;
      var ms := Expiry();
      if ms.None? {
        return false;
      }
      expirations := expirations[key := LoadedDeadline(ms.value, clock(deadlines))];
      deadlines := deadlines + 1;
      return true;
    }

    /** One turn of the loop of `parse`, after its marker byte. */
    method Record(marker: byte, clock: nat -> Reading) returns (ok: bool, stop: bool)
      requires Valid()
      modifies this
      ensures Valid() && match ReadRecord([marker] + old(Rest()))
        case Got(e, rest) => ok && stop == e.Stop? && Rest() == rest && Loaded() == Apply(old(Loaded()), e, clock)
        case Fail => !ok
    {
      hide ReadLength, ReadString, ReadStringFrom, ReadTokenRecord, ReadExpiry, LoadedDeadline;
      MarkerFirst(marker, Rest());
      ok, stop := true, false;
      if marker == 0xFE {
        var n := Length();
        ok := n.Some?;
      } else if marker == 0xFC {
        var key := String();
        if key.None? {
          return false, false;
        }
        ok := Deadline(key.value, clock);
      } else if marker == 0xFF {
        stop := true;
      } else {
        var token := StringFrom(marker);
        if token.None? {
          return false, false;
        }
        ok := TokenRecord(token.value, clock);
      }
    }

    /** The loop of `parse`: records until the file or an end marker ends it. */
    method Records(clock: nat -> Reading) returns (ok: bool)
      requires Valid()
      modifies this
      ensures LoadRecords(old(Rest()), old(Loaded()), clock) == if ok then Some(Loaded()) else None
    {
      hide ReadRecord, LoadRecords, LoadedDeadline;
      ghost var goal := LoadRecords(Rest(), Loaded(), clock);
      var stop := false;
      while !stop
        invariant Valid()
        invariant goal == if stop then Some(Loaded()) else LoadRecords(Rest(), Loaded(), clock)
        decreases !stop, |file| - pos
      {
        ghost var rest := Rest();
        LoadTurn(rest, Loaded(), clock);
        var marker := Byte();
        if marker.None? {
          stop := true;
        } else {
          assert [marker.value] + Rest() == rest;
          var good, end := Record(marker.value, clock);
          if !good {
            return false;
          }
          stop := end;
        }
      }
      return true;
    }

    /** `parse`: the header, then the records. */
    method Parse(clock: nat -> Reading) returns (ok: bool)
      requires Valid() && pos == 0 && Loaded() == NEW
      modifies this
      ensures Load(file, clock) == if ok then Some(Loaded()) else None
    {
      hide ReadExact, LoadRecords;
      assert file[0..] == file;
      var head := Exact(9);
      if head.None? || head.value[..5] != MAGIC {
        return false;
      }
      ok := Records(clock);
    }
  }

  lemma LoadTurn(b: Bytes, l: Loading, clock: nat -> Reading)
    ensures b == [] ==> LoadRecords(b, l, clock) == Some(l)
    ensures b != [] && ReadRecord(b).Fail? ==> LoadRecords(b, l, clock) == None
    ensures b != [] && ReadRecord(b).Got? ==>
      var e, rest := ReadRecord(b).value, ReadRecord(b).rest;
      LoadRecords(b, l, clock) == if e.Stop? then Some(l) else LoadRecords(rest, Apply(l, e, clock), clock)
  {
    hide ReadRecord, Apply;
  }

  lemma MarkerFirst(marker: byte, rest: Bytes)
    ensures ([marker] + rest)[0] == marker && ([marker] + rest)[1..] == rest
  {
  }

  lemma NoItems(b: Bytes)
    ensures ReadItems(b, 0) == Got((None, []), b)
  {
  }

  lemma {:induction false} ItemsSnoc(b: Bytes, n: nat)
    requires ReadItems(b, n).Got?
    ensures var done := ReadItems(b, n);
      ReadItems(b, n + 1) ==
      match ReadValue(done.rest)
      case Fail => Fail
      case Got(kv, rest) =>
        Got((if done.value.0.None? then Some(kv.0) else done.value.0, done.value.1 + [S.Str(kv.1)]), rest)
    decreases n
  {
    hide ReadValue;
    if n == 0 {
      if ReadValue(b).Got? {
        NoItems(ReadValue(b).rest);
        assert [S.Str(ReadValue(b).value.1)] + [] == [] + [S.Str(ReadValue(b).value.1)];
      }
    } else {
      var kv := ReadValue(b);
      ItemsSnoc(kv.rest, n - 1);
      var done := ReadItems(kv.rest, n - 1);
      var last := ReadValue(done.rest);
      if last.Got? {
        var first, item := [S.Str(kv.value.1)], [S.Str(last.value.1)];
        assert first + done.value.1 + item == first + (done.value.1 + item);
      }
    }
  }

  lemma {:induction false} ItemsFail(b: Bytes, n: nat, more: nat)
    requires n <= more && ReadItems(b, n).Fail?
    ensures ReadItems(b, more).Fail?
    decreases n
  {
    hide ReadValue;
    if ReadValue(b).Got? {
      ItemsFail(ReadValue(b).rest, n - 1, more - 1);
    }
  }
}
