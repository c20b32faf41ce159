/** Saving a store and loading it again. */
module Snapshots {
  import opened ByteStrings
  import opened RdbFormat
  import opened RdbProofs
  import S = Store
  import Utf8

  // ---- The file of a store ----

  /** Every key exactly once. */
  ghost predicate IsOrder(order: seq<S.Key>, keys: set<S.Key>) {
    && (forall i :: 0 <= i < |order| ==> order[i] in keys)
    && (forall k :: k in keys ==> k in order)
    && (forall i, j :: 0 <= i < j < |order| ==> order[i] != order[j])
  }

  function EntryRecords(data: map<S.Key, S.RedisObject>, order: seq<S.Key>): (r: seq<Record>)
    requires forall i :: 0 <= i < |order| ==> order[i] in data
    ensures |r| == |order| && forall i :: 0 <= i < |r| ==> r[i] == Entry(order[i], data[order[i]])
  {
    seq(|order|, i requires 0 <= i < |order| => Entry(order[i], data[order[i]]))
  }

  /** `clock(i)` is the reading for the i-th deadline written. */
  function ExpiryRecords(exps: map<S.Key, S.Instant>, order: seq<S.Key>, clock: nat -> Reading): (r: seq<Record>)
    requires forall i :: 0 <= i < |order| ==> order[i] in exps
    ensures |r| == |order|
    ensures forall i :: 0 <= i < |r| ==> r[i] == Expiry(order[i], SavedMillis(exps[order[i]], clock(i)))
  {
    seq(|order|, i requires 0 <= i < |order| => Expiry(order[i], SavedMillis(exps[order[i]], clock(i))))
  }

  /** A save: the store, an iteration order of each map, and the clock readings of the writer. */
  datatype Save = Save(store: S.Store, dataOrder: seq<S.Key>, expOrder: seq<S.Key>, clock: nat -> Reading)

  ghost predicate ValidSave(s: Save) {
    IsOrder(s.dataOrder, s.store.data.Keys) && IsOrder(s.expOrder, s.store.exps.Keys)
  }

  ghost function Records(s: Save): seq<Record>
    requires ValidSave(s)
  {
    [Selector] + EntryRecords(s.store.data, s.dataOrder) + ExpiryRecords(s.store.exps, s.expOrder, s.clock)
  }

  ghost function File(s: Save): Bytes
    requires ValidSave(s)
  {
    HEADER + RecordsCode(Records(s))
  }

  /** Strings are short and valid, and lists hold only strings: what the format can express. */
  ghost predicate StorableStore(s: S.Store) {
    && (forall k :: k in s.data ==> StorableRecord(Entry(k, s.data[k])))
    && (forall k :: k in s.exps ==> Storable(k))
  }

  lemma RecordsStorable(s: Save)
    requires ValidSave(s) && StorableStore(s.store)
    ensures AllStorable(Records(s))
  {
    hide Storable;
  }

  // ---- What loading records builds ----

  lemma {:induction false} ApplyAppend(l: Loading, a: seq<Record>, b: seq<Record>, clock: nat -> Reading)
    ensures ApplyAll(l, a + b, clock) == ApplyAll(ApplyAll(l, a, clock), b, clock)
    decreases |a|
  {
    hide Apply, Meaning;
    if a == [] {
      assert a + b == b;
    } else {
      assert (a + b)[0] == a[0] && (a + b)[1..] == a[1..] + b;
      ApplyAppend(Apply(l, Meaning(a[0]), clock), a[1..], b, clock);
    }
  }

  /** The entries that leave a trace: all but empty lists. */
  function NonEmpty(data: map<S.Key, S.RedisObject>, keys: seq<S.Key>): map<S.Key, S.RedisObject> {
    map k | k in keys && k in data && data[k] != S.List([]) :: data[k]
  }

  lemma NonEmptyStep(base: map<S.Key, S.RedisObject>, data: map<S.Key, S.RedisObject>, order: seq<S.Key>)
    requires order != [] && order[0] in data
    ensures var first := if data[order[0]] == S.List([]) then base else base[order[0] := data[order[0]]];
      first + NonEmpty(data, order[1..]) == base + NonEmpty(data, order)
  {
    assert forall k :: k in order <==> k == order[0] || k in order[1..];
  }

  lemma EntryMeaning(l: Loading, k: S.Key, v: S.RedisObject, clock: nat -> Reading)
    ensures Apply(l, Meaning(Entry(k, v)), clock) ==
      l.(store := l.store.(data := if v == S.List([]) then l.store.data else l.store.data[k := v]))
  {
  }

  lemma {:induction false} EntriesApplied(l: Loading, data: map<S.Key, S.RedisObject>, order: seq<S.Key>,
      clock: nat -> Reading)
    requires forall i :: 0 <= i < |order| ==> order[i] in data
    ensures ApplyAll(l, EntryRecords(data, order), clock) ==
      l.(store := l.store.(data := l.store.data + NonEmpty(data, order)))
    decreases |order|
  {
    hide Apply, Meaning;
    var rs := EntryRecords(data, order);
    if order == [] {
      assert l.store.data + NonEmpty(data, order) == l.store.data;
    } else {
      hide NonEmpty;
      EntryMeaning(l, order[0], data[order[0]], clock);
      assert rs[1..] == EntryRecords(data, order[1..]);
      EntriesApplied(Apply(l, Meaning(rs[0]), clock), data, order[1..], clock);
      NonEmptyStep(l.store.data, data, order);
    }
  }

  /** The deadline of the i-th expiring key after saving and loading. */
  function Reloaded(s: Save, i: nat, clock: nat -> Reading): S.Instant
    requires i < |s.expOrder| && s.expOrder[i] in s.store.exps
  {
    LoadedDeadline(SavedMillis(s.store.exps[s.expOrder[i]], s.clock(i)), clock(i))
  }

  /** Of the loaded deadlines, those of the first `n` expiring keys are there and nothing else changed. */
  ghost predicate DeadlinesLoaded(l: Loading, r: Loading, s: Save, n: nat, clock: nat -> Reading)
    requires ValidSave(s) && n <= |s.expOrder|
  {
    && r.deadlines == n && r.store.data == l.store.data
    && (forall k :: k in r.store.exps ==> k in l.store.exps || k in s.store.exps)
    && (forall k :: k in l.store.exps ==> k in r.store.exps)
    && forall i :: 0 <= i < n ==>
         s.expOrder[i] in r.store.exps && r.store.exps[s.expOrder[i]] == Reloaded(s, i, clock)
  }

  lemma OneMoreDeadline(l: Loading, r: Loading, s: Save, n: nat, clock: nat -> Reading)
    requires ValidSave(s) && n < |s.expOrder| && DeadlinesLoaded(l, r, s, n, clock)
    ensures var record := ExpiryRecords(s.store.exps, s.expOrder, s.clock)[n];
      DeadlinesLoaded(l, Apply(r, Meaning(record), clock), s, n + 1, clock)
  {
    hide SavedMillis, LoadedDeadline;
  }

  /** The first `n` deadlines of a save, loaded. */
  lemma {:induction false} DeadlinesApplied(l: Loading, s: Save, n: nat, clock: nat -> Reading)
    requires ValidSave(s) && n <= |s.expOrder| && l.deadlines == 0
    ensures DeadlinesLoaded(l, ApplyAll(l, ExpiryRecords(s.store.exps, s.expOrder, s.clock)[..n], clock), s, n, clock)
    decreases n
  {
    hide SavedMillis, Reloaded, ApplyAll, Apply, Meaning;
    var rs := ExpiryRecords(s.store.exps, s.expOrder, s.clock);
    if n == 0 {
      assert rs[..0] == [];
      ApplyNone(l, clock);
    } else {
      hide DeadlinesLoaded, ValidSave;
      DeadlinesApplied(l, s, n - 1, clock);
      assert rs[..n] == rs[..n - 1] + [rs[n - 1]];
      ApplyAppend(l, rs[..n - 1], [rs[n - 1]], clock);
      ApplyOne(ApplyAll(l, rs[..n - 1], clock), rs[n - 1], clock);
      OneMoreDeadline(l, ApplyAll(l, rs[..n - 1], clock), s, n - 1, clock);
    }
  }

  lemma ApplyNone(l: Loading, clock: nat -> Reading)
    ensures ApplyAll(l, [], clock) == l
  {
  }

  lemma ApplyOne(l: Loading, r: Record, clock: nat -> Reading)
    ensures ApplyAll(l, [r], clock) == Apply(l, Meaning(r), clock)
  {
    hide Apply, Meaning;
    assert [r][1..] == [];
  }

  // ---- Round trip ----

  /** An expiring key that reads like a data type token. */
  ghost predicate SomeKeyCollides(s: S.Store) {
    exists k :: k in s.exps && Collides(k)
  }

  lemma AllReadableExactly(s: Save)
    requires ValidSave(s) && StorableStore(s.store)
    ensures AllReadable(Records(s)) <==> !SomeKeyCollides(s.store)
  {
    hide Collides, StorableRecord;
    RecordsStorable(s);
    var rs, n := Records(s), |s.dataOrder| + 1;
    if k :| k in s.store.exps && Collides(k) {
      assert k in s.expOrder;
      var i :| 0 <= i < |s.expOrder| && s.expOrder[i] == k;
      assert rs[n + i] == ExpiryRecords(s.store.exps, s.expOrder, s.clock)[i];
      assert !Readable(rs[n + i]);
    }
  }

  lemma LoadFile(s: Save, n: nat, clock: nat -> Reading)
    requires ValidSave(s) && StorableStore(s.store) && n <= |File(s)|
    ensures Load(File(s)[..n], clock) ==
      if n < 9 then None
      else match Boundary(Records(s), n - 9)
           case None => None
           case Some(j) => if AllReadable(Records(s)[..j]) then Some(ApplyAll(NEW, Records(s)[..j], clock)) else None
  {
    hide LoadRecords, RecordsCode, Records, AllStorable, ApplyAll, Boundary, AllReadable;
    if n >= 9 {
      var body := RecordsCode(Records(s));
      assert File(s)[..n][9..] == body[..n - 9];
      assert File(s)[..n][..9] == HEADER;
      assert HEADER[..5] == MAGIC;
      RecordsStorable(s);
      LoadCut(Records(s), n - 9, NEW, clock);
    }
  }

  lemma ValuesApplied(s: Save, clock: nat -> Reading)
    requires ValidSave(s)
    ensures ApplyAll(NEW, [Selector] + EntryRecords(s.store.data, s.dataOrder), clock) ==
      Loading(S.Store(NonEmpty(s.store.data, s.dataOrder), map[]), 0)
  {
    hide ApplyAll, NonEmpty;
    var entries := EntryRecords(s.store.data, s.dataOrder);
    ApplyAppend(NEW, [Selector], entries, clock);
    ApplyOne(NEW, Selector, clock);
    EntriesApplied(NEW, s.store.data, s.dataOrder, clock);
    assert map[] + NonEmpty(s.store.data, s.dataOrder) == NonEmpty(s.store.data, s.dataOrder);
  }

  lemma AllApplied(s: Save, clock: nat -> Reading)
    requires ValidSave(s)
    ensures var l := ApplyAll(NEW, Records(s), clock);
      && l.store.data == NonEmpty(s.store.data, s.dataOrder)
      && l.store.exps.Keys == s.store.exps.Keys
      && forall i :: 0 <= i < |s.expOrder| ==> l.store.exps[s.expOrder[i]] == Reloaded(s, i, clock)
  {
    hide Reloaded, ApplyAll, NonEmpty, SavedMillis;
    var entries := EntryRecords(s.store.data, s.dataOrder);
    var expiries := ExpiryRecords(s.store.exps, s.expOrder, s.clock);
    ApplyAppend(NEW, [Selector] + entries, expiries, clock);
    ValuesApplied(s, clock);
    DeadlinesApplied(ApplyAll(NEW, [Selector] + entries, clock), s, |s.expOrder|, clock);
    assert expiries[..|s.expOrder|] == expiries;
    assert forall k :: k in s.store.exps ==> k in s.expOrder;
  }

  /**
   Loading a saved store, in whatever order the maps were written: an error if and only if an expiring
   key reads like a data type token; otherwise all values but empty lists, and every deadline converted.
   */
  lemma SnapshotRoundTrip(s: Save, clock: nat -> Reading)
    requires ValidSave(s) && StorableStore(s.store)
    ensures Load(File(s), clock).None? <==> SomeKeyCollides(s.store)
    ensures !SomeKeyCollides(s.store) ==>
      var l := Load(File(s), clock).value.store;
      && l.data == NonEmpty(s.store.data, s.dataOrder)
      && l.exps.Keys == s.store.exps.Keys
      && forall i :: 0 <= i < |s.expOrder| ==> l.exps[s.expOrder[i]] == Reloaded(s, i, clock)
  {
    hide Load, RecordsCode, Records, ApplyAll, Boundary, AllReadable, SomeKeyCollides, NonEmpty, Reloaded;
    var rs := Records(s);
    assert File(s)[..|File(s)|] == File(s);
    LoadFile(s, |File(s)|, clock);
    BoundaryAt(rs, |rs|);
    assert rs[..|rs|] == rs;
    AllReadableExactly(s);
    AllApplied(s, clock);
  }

  /** The exact condition for getting the same values and the same expiring keys back. */
  lemma SnapshotExactly(s: Save, clock: nat -> Reading)
    requires ValidSave(s) && StorableStore(s.store)
    ensures (var r := Load(File(s), clock);
             r.Some? && r.value.store.data == s.store.data && r.value.store.exps.Keys == s.store.exps.Keys)
      <==> !SomeKeyCollides(s.store) && forall k :: k in s.store.data ==> s.store.data[k] != S.List([])
  {
    hide Load, File, Reloaded, SomeKeyCollides;
    SnapshotRoundTrip(s, clock);
    var kept := NonEmpty(s.store.data, s.dataOrder);
    assert forall k :: k in kept <==> k in s.store.data && s.store.data[k] != S.List([]);
    if forall k :: k in s.store.data ==> s.store.data[k] != S.List([]) {
      assert kept == s.store.data;
    }
  }

  // ---- Strings too long for the format ----

  /** A string of two to the 32 bytes is stored with the length zero. */
  lemma LongString(s: Bytes, x: Bytes)
    requires |s| == U32_MODULUS
    ensures ReadString(StringCode(s) + x) == Got([], s + x)
  {
    hide BigEndian, FromBigEndian, Utf8.Lossy;
    var digits, b := BigEndian(0, 4), StringCode(s) + x;
    assert b == [0x80] + (digits + (s + x)) && b[1..] == digits + (s + x);
    assert (digits + (s + x))[..4] == digits && (digits + (s + x))[4..] == s + x;
    Widths();
    BigEndianRoundTrip(0, 4);
    Utf8.LossyKeepsValid([]);
    assert (s + x)[..0] == [] && (s + x)[0..] == s + x;
  }

  lemma LongEntry(k: S.Key, s: Bytes, x: Bytes)
    requires Storable(k) && |s| == U32_MODULUS
    ensures ReadRecord(EntryCode(k, S.Str(s)) + x) == Got(Bind(k, S.Str([])), s + x)
  {
    hide StringCode, ReadRecord, ReadString, Storable;
    TokensUpper();
    TokensStorable();
    var tail := [0] + (StringCode(k) + (StringCode(s) + x));
    assert EntryCode(k, S.Str(s)) + x == StringCode(STRING_TOKEN) + tail;
    TokenFirst(STRING_TOKEN, tail);
    assert tail[1..] == StringCode(k) + (StringCode(s) + x);
    StringRoundTrip(k, StringCode(s) + x);
    LongString(s, x);
  }

  /** The letters of the string are then taken for records. */
  lemma LettersFail(s: Bytes, l: Loading, clock: nat -> Reading)
    requires s != [] && 64 <= s[0] < 0x80
    ensures LoadRecords(s, l, clock) == None
  {
  }

  lemma EntryNotEmpty(k: S.Key, s: Bytes)
    ensures EntryCode(k, S.Str(s)) != []
  {
  }

  lemma ReadStep(b: Bytes, l: Loading, clock: nat -> Reading)
    requires b != [] && ReadRecord(b).Got? && !ReadRecord(b).value.Stop?
    ensures LoadRecords(b, l, clock) == LoadRecords(ReadRecord(b).rest, Apply(l, ReadRecord(b).value, clock), clock)
  {
    hide ReadRecord, Apply;
  }

  /**
   The bound on lengths is needed: a string of two to the 32 bytes that starts with a letter makes the file
   unreadable.
   */
  lemma LongStringRejected(k: S.Key, s: Bytes, saved: nat -> Reading, loaded: nat -> Reading)
    requires Storable(k) && |s| == U32_MODULUS && 64 <= s[0] < 0x80
    ensures var save := Save(S.Store(map[k := S.Str(s)], map[]), [k], [], saved);
      ValidSave(save) && Load(File(save), loaded) == None
  {
    hide EntryCode, ReadRecord, Storable, LoadRecords;
    var save := Save(S.Store(map[k := S.Str(s)], map[]), [k], [], saved);
    assert save.dataOrder[0] == k;
    var rs := [Selector, Entry(k, S.Str(s))];
    assert Records(save) == rs && rs[1..] == [Entry(k, S.Str(s))] && rs[1..][1..] == [];
    var entry := EntryCode(k, S.Str(s));
    assert RecordsCode(rs[1..]) == entry + [];
    assert entry + [] != [] by { EntryNotEmpty(k, s); }
    assert RecordsCode(rs) == RecordCode(Selector) + (entry + []);
    assert File(save)[..9] == HEADER && File(save)[9..] == RecordsCode(rs) && HEADER[..5] == MAGIC;
    SelectorRoundTrip(entry + []);
    LongEntry(k, s, []);
    assert s + [] == s;
    ReadStep(RecordsCode(rs), NEW, loaded);
    ReadStep(entry + [], NEW, loaded);
    LettersFail(s, Apply(NEW, Bind(k, S.Str([])), loaded), loaded);
  }

  // ---- Truncated files ----

  /** Every binding and every expiring key was saved. */
  ghost predicate SubStore(l: S.Store, s: S.Store) {
    && (forall k :: k in l.data ==> k in s.data && l.data[k] == s.data[k])
    && l.exps.Keys <= s.exps.Keys
  }

  lemma {:induction false} PrefixIsSubStore(l: Loading, rs: seq<Record>, s: S.Store, clock: nat -> Reading)
    requires SubStore(l.store, s)
    requires forall i :: 0 <= i < |rs| ==>
      && (rs[i].Entry? ==> rs[i].key in s.data && s.data[rs[i].key] == rs[i].value)
      && (rs[i].Expiry? ==> rs[i].key in s.exps)
    ensures SubStore(ApplyAll(l, rs, clock).store, s)
    decreases |rs|
  {
    hide LoadedDeadline;
    if rs != [] {
      PrefixIsSubStore(Apply(l, Meaning(rs[0]), clock), rs[1..], s, clock);
    }
  }

  lemma RecordsFromStore(s: Save, j: nat)
    requires ValidSave(s) && j <= |Records(s)|
    ensures var rs := Records(s)[..j];
      forall i :: 0 <= i < |rs| ==>
        && (rs[i].Entry? ==> rs[i].key in s.store.data && s.store.data[rs[i].key] == rs[i].value)
        && (rs[i].Expiry? ==> rs[i].key in s.store.exps)
  {
    hide SavedMillis;
  }

  /** Byte `n` of the file is where its first `j` records end. */
  ghost predicate CutAfter(s: Save, n: nat, j: nat)
    requires ValidSave(s)
  {
    j <= |Records(s)| && n == 9 + |RecordsCode(Records(s)[..j])|
  }

  /**
   Loading any prefix of a snapshot: it succeeds if and only if the cut is between records, none of
   which has a colliding key, and then yields a part of the saved store.
   */
  lemma TruncatedSnapshot(s: Save, n: nat, clock: nat -> Reading)
    requires ValidSave(s) && StorableStore(s.store) && n <= |File(s)|
    ensures Load(File(s)[..n], clock).Some? <==> exists j: nat :: CutAfter(s, n, j) && AllReadable(Records(s)[..j])
    ensures Load(File(s)[..n], clock).Some? ==> SubStore(Load(File(s)[..n], clock).value.store, s.store)
  {
    hide Load, RecordsCode, Records, ApplyAll, Boundary, AllReadable, SubStore;
    LoadFile(s, n, clock);
    if Load(File(s)[..n], clock).Some? {
      var j := Boundary(Records(s), n - 9).value;
      BoundaryMeans(Records(s), n - 9);
      assert CutAfter(s, n, j);
      PrefixPart(s, j, clock);
    }
    forall j: nat | CutAfter(s, n, j) && AllReadable(Records(s)[..j]) ensures Load(File(s)[..n], clock).Some? {
      BoundaryAt(Records(s), j);
    }
  }

  lemma PrefixPart(s: Save, j: nat, clock: nat -> Reading)
    requires ValidSave(s) && j <= |Records(s)|
    ensures SubStore(ApplyAll(NEW, Records(s)[..j], clock).store, s.store)
  {
    hide ApplyAll;
    RecordsFromStore(s, j);
    PrefixIsSubStore(NEW, Records(s)[..j], s.store, clock);
  }

  // ---- Deadlines ----

  /** One offset relates the two clocks, at saving and at loading. */
  predicate Offset(now: Reading, off: int) {
    now.system == now.instant + off
  }

  /** The wall-clock moment that is stored, in milliseconds before truncation to 64 bits. */
  function ExactMillis(deadline: S.Instant, saved: Reading): int {
    (if deadline > saved.instant then saved.system + (deadline - saved.instant) else saved.system) / S.NANOS_PER_MILLI
  }

  /** A deadline that had passed when it was saved is the moment of loading. */
  lemma PassedDeadline(d: S.Instant, saved: Reading, loaded: Reading, off: int)
    requires Offset(saved, off) && Offset(loaded, off) && saved.instant <= loaded.instant && d <= saved.instant
    ensures LoadedDeadline(SavedMillis(d, saved), loaded) == loaded.instant
  {
  }

  /** A reloaded deadline is never late, and never before the load. */
  lemma DeadlineNotLater(d: S.Instant, saved: Reading, loaded: Reading, off: int)
    requires Offset(saved, off) && Offset(loaded, off) && saved.instant <= loaded.instant
    ensures var r := LoadedDeadline(SavedMillis(d, saved), loaded);
      loaded.instant <= r && (r <= d || r <= loaded.instant)
  {
    var e := ExactMillis(d, saved);
    assert SavedMillis(d, saved) <= e;
    assert e * S.NANOS_PER_MILLI <= (if d > saved.instant then d else saved.instant) + off;
  }

  /**
   A reloaded deadline loses less than a millisecond exactly when its milliseconds fit 64 bits, or when
   it is so near that the moment of loading is no worse.
   */
  lemma DeadlineLoss(d: S.Instant, saved: Reading, loaded: Reading, off: int)
    requires Offset(saved, off) && Offset(loaded, off) && saved.instant <= loaded.instant
    ensures d - LoadedDeadline(SavedMillis(d, saved), loaded) < S.NANOS_PER_MILLI <==>
      (ExactMillis(d, saved) < USIZE_MODULUS || d - loaded.instant < S.NANOS_PER_MILLI)
  {
    var e := ExactMillis(d, saved);
    var top := if d > saved.instant then d else saved.instant;
    assert e * S.NANOS_PER_MILLI <= top + off < (e + 1) * S.NANOS_PER_MILLI;
    if e >= USIZE_MODULUS {
      assert SavedMillis(d, saved) + 1 <= USIZE_MODULUS <= e;
    }
  }

  /** Every deadline of a snapshot that loads: never late, and exact to the millisecond unless it was out of range. */
  lemma SnapshotDeadlines(s: Save, l: Loading, clock: nat -> Reading, off: int, i: nat)
    requires ValidSave(s) && StorableStore(s.store) && Load(File(s), clock) == Some(l) && i < |s.expOrder|
    requires Offset(s.clock(i), off) && Offset(clock(i), off) && s.clock(i).instant <= clock(i).instant
    ensures s.expOrder[i] in l.store.exps
    ensures var k, now := s.expOrder[i], clock(i).instant;
      var d, r := s.store.exps[k], l.store.exps[k];
      && now <= r && (r <= d || r <= now)
      && (d - r < S.NANOS_PER_MILLI <==> ExactMillis(d, s.clock(i)) < USIZE_MODULUS || d - now < S.NANOS_PER_MILLI)
      && (d <= s.clock(i).instant ==> r == now)
  {
    hide Load, File, SavedMillis, LoadedDeadline, ExactMillis, SomeKeyCollides, NonEmpty;
    SnapshotRoundTrip(s, clock);
    var d := s.store.exps[s.expOrder[i]];
    DeadlineNotLater(d, s.clock(i), clock(i), off);
    DeadlineLoss(d, s.clock(i), clock(i), off);
    if d <= s.clock(i).instant {
      PassedDeadline(d, s.clock(i), clock(i), off);
    }
  }
}
