/** RESP values, their plain printed form (`to_string`) and the buffered fast-path printer (`write_to`). */
module RespTypes {
  import opened ByteStrings
  import Decimal
  import Utf8

  datatype RespType =
    | SimpleString(text: Bytes)
    | SimpleError(text: Bytes)
    | Integer(n: int)
    | BulkString(text: Bytes)
    | Array(items: seq<RespType>)
    | Null
    | Boolean(b: bool)

  /** Size of one value in memory: the tag and a three-word string. */
  const RESP_VALUE_BYTES: int := 32

  /** Rust's limit on one allocation. */
  predicate FitsVec(count: nat) {
    count * RESP_VALUE_BYTES <= ISIZE_MAX
  }

  /** What the Rust types guarantee of every value: `String` is UTF-8, `i64` is bounded, allocations fit. */
  predicate WellFormed(v: RespType)
    decreases v, 1
  {
    match v
    case SimpleString(s) => Utf8.Valid(s) && |s| <= ISIZE_MAX
    case SimpleError(s) => Utf8.Valid(s) && |s| <= ISIZE_MAX
    case BulkString(s) => Utf8.Valid(s) && |s| <= ISIZE_MAX
    case Integer(n) => I64_MIN <= n <= I64_MAX
    case Array(items) => FitsVec(|items|) && AllWellFormed(items)
    case _ => true
  }

  predicate AllWellFormed(vs: seq<RespType>)
    decreases vs, 0
  {
    vs == [] || (WellFormed(vs[0]) && AllWellFormed(vs[1..]))
  }

  /** The printed form of a value. */
  function Wire(v: RespType): (w: Bytes)
    ensures |w| >= 3
    decreases v, 1
  {
    match v
    case SimpleString(s) => [43] + s + CRLF
    case SimpleError(s) => [45] + s + CRLF
    case Integer(n) => [58] + Decimal.PrintInt(n) + CRLF
    case BulkString(s) => [36] + Decimal.Print(|s|) + CRLF + s + CRLF
    case Array(items) => [42] + Decimal.Print(|items|) + CRLF + WireAll(items)
    case Null => [95] + CRLF
    case Boolean(b) => [35] + (if b then [116] else [102]) + CRLF
  }

  function WireAll(vs: seq<RespType>): Bytes
    decreases vs, 0
  {
    if vs == [] then [] else Wire(vs[0]) + WireAll(vs[1..])
  }

  lemma {:induction false} WireAllAppend(a: seq<RespType>, b: seq<RespType>)
    ensures WireAll(a + b) == WireAll(a) + WireAll(b)
  {
    if a == [] {
      assert a + b == b;
    } else {
      assert (a + b)[1..] == a[1..] + b;
      WireAllAppend(a[1..], b);
    }
  }

  lemma WireAllSnoc(vs: seq<RespType>, i: nat)
    requires i < |vs|
    ensures WireAll(vs[..i + 1]) == WireAll(vs[..i]) + Wire(vs[i])
  {
    assert vs[..i + 1] == vs[..i] + [vs[i]];
    WireAllAppend(vs[..i], [vs[i]]);
  }

  /** `to_string`, with its accumulator loop for arrays. */
  method ToString(v: RespType) returns (s: Bytes)
    ensures s == Wire(v)
    decreases v
  {
    match v
    case SimpleString(t) => s := [43] + t + CRLF;
    case Integer(n) => s := [58] + Decimal.PrintInt(n) + CRLF;
    case BulkString(t) => s := [36] + Decimal.Print(|t|) + CRLF + t + CRLF;
    case Array(items) =>
      var head := [42] + Decimal.Print(|items|) + CRLF;
      s := head;
      for i := 0 to |items|
        invariant s == head + WireAll(items[..i])
      {
        var item := ToString(items[i]);
        s := s + item;
        WireAllSnoc(items, i);
      }
      assert items[..|items|] == items;
    case Null => s := [95] + CRLF;
    case Boolean(b) => s := [35] + (if b then [116] else [102]) + CRLF;
    case SimpleError(t) => s := [45] + t + CRLF;
  }

  const WRITE_BUF_BYTES: nat := 64 * 1024

  /** A buffered writer: bytes handed to the socket, then bytes still held back. */
  class BufWriter {
    var sent: Bytes
    var pending: Bytes

    constructor ()
      ensures sent == [] && pending == []
    {
      sent, pending := [], [];
    }

    ghost function Written(): Bytes
      reads this
    {
      sent + pending
    }

    /** Appends `data`; a full buffer is drained first and an oversized write partly bypasses it. */
    method WriteAll(data: Bytes)
      modifies this
      ensures Written() == old(Written()) + data
      ensures old(sent) <= sent
    {
      if |pending| + |data| > WRITE_BUF_BYTES {
        sent, pending := sent + pending, [];
      }
      if |data| >= WRITE_BUF_BYTES {
        var direct :| 0 <= direct <= |data|;
        sent, pending := sent + data[..direct], data[direct..];
      } else {
        pending := pending + data;
      }
    }

    method Flush()
      modifies this
      ensures sent == old(Written()) && pending == []
    {
      sent, pending := sent + pending, [];
    }
  }

  const RESP_OK: Bytes := [43, 79, 107, 13, 10]
  const RESP_PONG: Bytes := [43, 80, 111, 110, 103, 13, 10]
  const RESP_QUEUED: Bytes := [43, 81, 85, 69, 85, 69, 68, 13, 10]
  const RESP_NIL: Bytes := [36, 51, 13, 10, 110, 105, 108, 13, 10]

  const OK: Bytes := [79, 107]
  const PONG: Bytes := [80, 111, 110, 103]
  const QUEUED: Bytes := [81, 85, 69, 85, 69, 68]
  const NIL: Bytes := [110, 105, 108]

  /** A tag byte, a text and a line end, in three writes. */
  method WriteLine(tag: byte, text: Bytes, w: BufWriter)
    modifies w
    ensures w.Written() == old(w.Written()) + ([tag] + text + CRLF)
    ensures old(w.sent) <= w.sent
  {
    w.WriteAll([tag]);
    w.WriteAll(text);
    w.WriteAll(CRLF);
  }

  /** The precomputed replies are the printed forms of the values they stand for. */
  lemma FastPathsExact()
    ensures Wire(SimpleString(OK)) == RESP_OK
    ensures Wire(SimpleString(PONG)) == RESP_PONG
    ensures Wire(SimpleString(QUEUED)) == RESP_QUEUED
    ensures Wire(BulkString(NIL)) == RESP_NIL
  {
    assert Decimal.Print(3) == [51];
  }

  method WriteSimple(s: Bytes, w: BufWriter)
    modifies w
    ensures w.Written() == old(w.Written()) + Wire(SimpleString(s))
    ensures old(w.sent) <= w.sent
  {
    FastPathsExact();
    if s == OK {
      w.WriteAll(RESP_OK);
    } else if s == PONG {
      w.WriteAll(RESP_PONG);
    } else if s == QUEUED {
      w.WriteAll(RESP_QUEUED);
    } else {
      WriteLine(43, s, w);
    }
  }

  method WriteBulk(s: Bytes, w: BufWriter)
    modifies w
    ensures w.Written() == old(w.Written()) + Wire(BulkString(s))
    ensures old(w.sent) <= w.sent
  {
    FastPathsExact();
    if s == NIL {
      w.WriteAll(RESP_NIL);
    } else {
      WriteLine(36, Decimal.Print(|s|), w);
      w.WriteAll(s);
      w.WriteAll(CRLF);
    }
  }

  /** The loop of `write_to` over the items of an array. */
  method WriteItems(items: seq<RespType>, w: BufWriter)
    modifies w
    ensures w.Written() == old(w.Written()) + WireAll(items)
    ensures old(w.sent) <= w.sent
    decreases items, 0
  {
    for i := 0 to |items|
      invariant w.Written() == old(w.Written()) + WireAll(items[..i])
      invariant old(w.sent) <= w.sent
    {
      WriteTo(items[i], w);
      WireAllSnoc(items, i);
    }
    assert items[..|items|] == items;
  }

  /** `write_to`: whatever the writer held, exactly the printed form is appended. */
  method WriteTo(v: RespType, w: BufWriter)
    modifies w
    ensures w.Written() == old(w.Written()) + Wire(v)
    ensures old(w.sent) <= w.sent
    decreases v, 1
  {
    hide WireAll;
    match v
    case SimpleString(s) => WriteSimple(s, w);
    case SimpleError(s) => WriteLine(45, s, w);
    case Integer(n) => WriteLine(58, Decimal.PrintInt(n), w);
    case BulkString(s) => WriteBulk(s, w);
    case Array(items) =>
      WriteLine(42, Decimal.Print(|items|), w);
      WriteItems(items, w);
    case Null => w.WriteAll([95, 13, 10]);
    case Boolean(b) => w.WriteAll(if b then [35, 116, 13, 10] else [35, 102, 13, 10]);
  }
}
