/**
 What every command keeps: strings stay valid UTF-8, lists hold strings, deadlines belong to values; and
 what replies look like.
 */
module Invariants {
  import opened ByteStrings
  import opened RespTypes
  import opened RespParser
  import opened RespProofs
  import opened Commands
  import opened Dispatcher
  import S = Store
  import Utf8

  // ---- Text ----

  /** Every string inside a value is valid UTF-8. */
  predicate ValidText(v: RespType) {
    match v
    case SimpleString(s) => Utf8.Valid(s)
    case SimpleError(s) => Utf8.Valid(s)
    case BulkString(s) => Utf8.Valid(s)
    case Array(items) => forall i :: 0 <= i < |items| ==> ValidText(items[i])
    case _ => true
  }

  /** The value can be held in memory: strings and arrays fit one allocation, integers 64 bits. */
  predicate Sized(v: RespType) {
    match v
    case SimpleString(s) => |s| <= ISIZE_MAX
    case SimpleError(s) => |s| <= ISIZE_MAX
    case BulkString(s) => |s| <= ISIZE_MAX
    case Integer(n) => I64_MIN <= n <= I64_MAX
    case Array(items) => FitsVec(|items|) && forall i :: 0 <= i < |items| ==> Sized(items[i])
    case _ => true
  }

  lemma {:induction false} WellFormedParts(v: RespType)
    ensures WellFormed(v) <==> ValidText(v) && Sized(v)
    decreases v, 1
  {
    if v.Array? {
      AllWellFormedParts(v.items);
    }
  }

  lemma {:induction false} AllWellFormedParts(vs: seq<RespType>)
    ensures AllWellFormed(vs) <==> forall i :: 0 <= i < |vs| ==> ValidText(vs[i]) && Sized(vs[i])
    decreases vs, 0
  {
    hide WellFormed, ValidText, Sized;
    if vs != [] {
      WellFormedParts(vs[0]);
      AllWellFormedParts(vs[1..]);
      assert forall i :: 0 < i < |vs| ==> vs[i] == vs[1..][i - 1];
    }
  }

  lemma {:induction false} AllLineSafeMeans(vs: seq<RespType>)
    ensures AllLineSafe(vs) <==> forall i :: 0 <= i < |vs| ==> LineSafe(vs[i])
    decreases |vs|
  {
    hide LineSafe;
    if vs != [] {
      AllLineSafeMeans(vs[1..]);
      assert forall i :: 0 < i < |vs| ==> vs[i] == vs[1..][i - 1];
    }
  }

  lemma PrintableText(s: Bytes)
    requires Printable(s)
    ensures Utf8.Valid(s) && !HasCrlf(s)
  {
    Utf8.AsciiValid(s);
  }

  // ---- Sound values, cells and commands ----

  predicate SoundObject(v: S.RedisObject) {
    match v
    case Str(s) => Utf8.Valid(s)
    case List(items) => forall i :: 0 <= i < |items| ==> items[i].Str? && Utf8.Valid(items[i].s)
  }

  /** Key and value are valid strings, and lists hold only strings. */
  predicate SoundCell(k: S.Key, c: S.Cell) {
    (c != S.ABSENT ==> Utf8.Valid(k)) && (c.value.Some? ==> SoundObject(c.value.value))
  }

  ghost predicate SoundStore(s: S.Store) {
    forall k :: SoundCell(k, S.At(s, k))
  }

  /** Every deadline belongs to a value. */
  ghost predicate Owned(s: S.Store) {
    forall k :: S.At(s, k).deadline.Some? ==> S.At(s, k).value.Some?
  }

  /** The strings of a command are valid. */
  predicate Sound(c: Command) {
    match c
    case ECHO(m) => Utf8.Valid(m)
    case SET(k, v, _) => Utf8.Valid(k) && Utf8.Valid(v)
    case GET(k) => Utf8.Valid(k)
    case DELETE(k) => Utf8.Valid(k)
    case LPUSH(k, vs) => Utf8.Valid(k) && AllValid(vs)
    case RPUSH(k, vs) => Utf8.Valid(k) && AllValid(vs)
    case LRANGE(k, _, _) => Utf8.Valid(k)
    case EXPIRE(k, _, _) => Utf8.Valid(k)
    case _ => true
  }

  predicate AllValid(vs: seq<Bytes>) {
    forall i :: 0 <= i < |vs| ==> Utf8.Valid(vs[i])
  }

  predicate SoundQueue(cmds: seq<Command>) {
    forall i :: 0 <= i < |cmds| ==> Sound(cmds[i])
  }

  // ---- Operations ----

  predicate SoundOutcome(out: S.Outcome) {
    match out
    case Done => true
    case Value(v) => SoundObject(v)
    case Err(e) => Printable(e)
  }

  lemma RangeSound(list: seq<S.RedisObject>, start: int, stop: int)
    requires SoundObject(S.List(list))
    ensures SoundObject(S.List(S.Range(list, start, stop)))
  {
    hide Utf8.Valid, S.Filtered, S.Bound;
    S.FilteredIsSlice(list, S.Bound(start, |list|), S.Bound(stop, |list|), 0);
  }

  lemma NilSound()
    ensures SoundOutcome(S.NIL_VALUE)
  {
    PrintableText(NIL);
  }

  lemma CellOpSound(c: Command, cell: S.Cell, now: S.Instant)
    requires Sound(c) && StoreOp(c).KeyOp? && SoundCell(StoreOp(c).key, cell)
    ensures SoundCell(StoreOp(c).key, S.CellOp(StoreOp(c).op, cell, now).0)
    ensures SoundOutcome(S.CellOp(StoreOp(c).op, cell, now).1)
  {
    hide Utf8.Valid, S.Range;
    NilSound();
    if c.LRANGE? && cell.value.Some? && cell.value.value.List? {
      RangeSound(cell.value.value.items, c.start, c.stop);
    }
  }

  lemma CellOpOwned(op: S.Op, cell: S.Cell, now: S.Instant)
    requires cell.deadline.Some? ==> cell.value.Some?
    ensures var r := S.CellOp(op, cell, now).0; r.deadline.Some? ==> r.value.Some?
  {
    hide S.Range;
  }

  // ---- Replies ----

  /** A reply the client can decode: valid text, and no line end inside a simple string or error. */
  ghost predicate SoundReply(r: Result<RespType>) {
    match r
    case Success(v) => ValidText(v) && LineSafe(v)
    case Failure(e) => Printable(e)
  }

  lemma {:induction false} BulkItemsSound(list: seq<S.RedisObject>)
    requires SoundObject(S.List(list))
    ensures forall i :: 0 <= i < |BulkItems(list)| ==>
      BulkItems(list)[i].BulkString? && Utf8.Valid(BulkItems(list)[i].text)
    decreases |list|
  {
    hide Utf8.Valid;
    if list != [] {
      BulkItemsSound(list[1..]);
    }
  }

  lemma ReplySound(c: Command, out: S.Outcome)
    requires SoundOutcome(out)
    ensures SoundReply(Reply(c, out))
  {
    hide Utf8.Valid;
    PrintableText(OK);
    if out.Value? && out.obj.List? {
      BulkItemsSound(out.obj.items);
      AllLineSafeMeans(BulkItems(out.obj.items));
      ArraySafe(BulkItems(out.obj.items));
    }
  }

  /** A command keeps both invariants and its reply can be decoded. */
  lemma ExecSound(s: S.Store, c: Command, now: S.Instant)
    requires SoundStore(s) && Sound(c) && !IsControl(c)
    ensures SoundStore(ExecCommand(s, c, now).0) && SoundReply(ExecCommand(s, c, now).1)
  {
    hide S.CellOp, SoundCell, Reply, Utf8.Valid, SoundOutcome;
    match StoreOp(c)
    case NoOp => PrintableText(OK); PrintableText(PONG);
    case KeyOp(k, op) =>
      var r := S.CellOp(op, S.At(s, k), now);
      CellOpSound(c, S.At(s, k), now);
      ReplySound(c, r.1);
      forall j ensures SoundCell(j, S.At(S.Put(s, k, r.0), j)) { S.PutAt(s, k, r.0, j); }
  }

  lemma ExecOwned(s: S.Store, c: Command, now: S.Instant)
    requires Owned(s) && !IsControl(c)
    ensures Owned(ExecCommand(s, c, now).0)
  {
    hide S.CellOp, S.Put, S.At;
    if StoreOp(c).KeyOp? {
      var k, op := StoreOp(c).key, StoreOp(c).op;
      var cell := S.CellOp(op, S.At(s, k), now).0;
      CellOpOwned(op, S.At(s, k), now);
      forall j ensures S.At(S.Put(s, k, cell), j).deadline.Some? ==> S.At(S.Put(s, k, cell), j).value.Some? {
        S.PutAt(s, k, cell, j);
      }
    }
  }

  // ---- Batches and dispatch ----

  ghost predicate SoundBatch(b: Batch) {
    && SoundStore(b.store)
    && (forall i :: 0 <= i < |b.replies| ==> ValidText(b.replies[i]) && LineSafe(b.replies[i]))
    && (b.error.Some? ==> Printable(b.error.value))
  }

  lemma {:induction false} RunAllSound(s: S.Store, cmds: seq<Command>, clock: Clock, tick: nat)
    requires SoundStore(s) && SoundQueue(cmds) && Plain(cmds)
    ensures SoundBatch(RunAll(s, cmds, clock, tick))
    decreases |cmds|
  {
    hide ExecCommand, SoundStore, Sound, ValidText, LineSafe;
    if cmds != [] {
      var n := |cmds| - 1;
      RunAllSound(s, cmds[..n], clock, tick);
      var b := RunAll(s, cmds[..n], clock, tick);
      ExecSound(b.store, cmds[n], clock(tick + b.executed));
    }
  }

  lemma {:induction false} RunAllOwned(s: S.Store, cmds: seq<Command>, clock: Clock, tick: nat)
    requires Owned(s) && Plain(cmds)
    ensures Owned(RunAll(s, cmds, clock, tick).store)
    decreases |cmds|
  {
    hide ExecCommand, Owned;
    if cmds != [] {
      var n := |cmds| - 1;
      RunAllOwned(s, cmds[..n], clock, tick);
      var b := RunAll(s, cmds[..n], clock, tick);
      ExecOwned(b.store, cmds[n], clock(tick + b.executed));
    }
  }

  /** The strings of the store and of the queued commands are valid. */
  ghost predicate SoundSession(st: Session) {
    SoundStore(st.store) && SoundQueue(st.tx.queue)
  }

  lemma BatchReplySound(b: Batch)
    requires SoundBatch(b)
    ensures SoundReply(Success(Array(b.replies)))
    ensures b.error.Some? ==> SoundReply(Failure(QUEUE_FAILED + b.error.value))
  {
    hide ValidText, LineSafe;
    AllLineSafeMeans(b.replies);
    ArraySafe(b.replies);
  }

  lemma ArraySafe(vs: seq<RespType>)
    ensures LineSafe(Array(vs)) == AllLineSafe(vs)
    ensures ValidText(Array(vs)) == forall i :: 0 <= i < |vs| ==> ValidText(vs[i])
  {
  }

  /**
   Whatever is dispatched, EXEC included, keeps the session sound and is answered with a reply that can be
   decoded.
   */
  lemma DispatchSound(st: Session, c: Command, clock: Clock)
    requires TxValid(st.tx) && SoundSession(st) && Sound(c)
    ensures SoundSession(Dispatch(st, c, clock).0) && SoundReply(Dispatch(st, c, clock).1)
  {
    hide ExecCommand, RunAll, SoundStore, Sound, Utf8.Valid;
    PrintableText(OK);
    PrintableText(QUEUED);
    if c.EXEC? {
      RunAllSound(st.store, st.tx.queue, clock, st.tick);
      BatchReplySound(RunAll(st.store, st.tx.queue, clock, st.tick));
    } else if !IsControl(c) {
      ExecSound(st.store, c, clock(st.tick));
    }
  }

  lemma DispatchOwned(st: Session, c: Command, clock: Clock)
    requires TxValid(st.tx) && Owned(st.store)
    ensures Owned(Dispatch(st, c, clock).0.store)
  {
    hide ExecCommand, RunAll, Owned;
    RunAllOwned(st.store, st.tx.queue, clock, st.tick);
    if !IsControl(c) {
      ExecOwned(st.store, c, clock(st.tick));
    }
  }
}
