/**
 The incremental RESP parser. `Parse` gives the verdict on a buffer as a function; `ParseFrame`,
 `ParseArrayFrame` and `ReadUntilCrlf` are the loops of the implementation, proved to compute it.
 */
module RespParser {
  import opened ByteStrings
  import opened RespTypes
  import Decimal
  import Utf8

  /** `Panic` stands for the aborts of the implementation: a capacity overflow and an inverted slice. */
  datatype ParseResult =
    | Ok(value: RespType, consumed: nat)
    | Incomplete
    | Invalid(msg: Bytes)
    | Panic

  datatype Line = NoLine | Line(data: Bytes, len: nat)

  /** A line end starts at position `i`. */
  predicate CrlfAt(b: Bytes, i: int) {
    0 <= i < |b| - 1 && b[i] == CR && b[i + 1] == LF
  }

  ghost predicate HasCrlf(b: Bytes) {
    exists i :: CrlfAt(b, i)
  }

  /** The bytes before the first line end, and their length with it. */
  function FirstLine(b: Bytes): (r: Line)
    ensures r.Line? ==> 2 <= r.len <= |b| && CrlfAt(b, r.len - 2) && r.data == b[..r.len - 2]
    ensures r.Line? ==> forall i :: i < r.len - 2 ==> !CrlfAt(b, i)
    ensures r.NoLine? ==> !HasCrlf(b)
    decreases |b|
  {
    if |b| < 2 then NoLine
    else if CrlfAt(b, 0) then Line([], 2)
    else
      match FirstLine(b[1..])
      case NoLine =>
        assert forall i :: CrlfAt(b, i) ==> CrlfAt(b[1..], i - 1);
        NoLine
      case Line(data, len) =>
        assert forall i :: i < len - 1 && CrlfAt(b, i) ==> CrlfAt(b[1..], i - 1);
        Line([b[0]] + data, len + 1)
  }

  /** `read_until_crlf`: an index loop with early return. */
  method ReadUntilCrlf(b: Bytes) returns (r: Line)
    ensures r == FirstLine(b)
  {
    var i := 0;
    while i + 1 < |b|
      invariant 0 <= i
      invariant forall j :: j < i ==> !CrlfAt(b, j)
    {
      if b[i] == CR && b[i + 1] == LF {
        FirstLineIs(b, i);
        return Line(b[..i], i + 2);
      }
      i := i + 1;
    }
    return NoLine;
  }

  /** The first line end determines the line. */
  lemma FirstLineIs(b: Bytes, i: int)
    requires CrlfAt(b, i)
    requires forall j :: j < i ==> !CrlfAt(b, j)
    ensures FirstLine(b) == Line(b[..i], i + 2)
  {
    var r := FirstLine(b);
    assert r.Line?;
    assert CrlfAt(b, r.len - 2);
  }

  function ParseUsize(b: Bytes): (r: Result<nat>)
    ensures r.Success? ==> r.value < USIZE_MODULUS
  {
    if !Utf8.Valid(b) then Failure(Ascii("Invalid UTF-8 string."))
    else match Decimal.ParseUnsigned(b, USIZE_MODULUS)
         case Some(n) => Success(n)
         case None => Failure(Ascii("Invalid value for an integer."))
  }

  predicate IsTypeByte(c: byte) {
    c == 43 || c == 45 || c == 58 || c == 36 || c == 42 || c == 95 || c == 35
  }

  function ParseSimple(b: Bytes): (r: ParseResult)
    requires b != []
    ensures r.Ok? ==> 2 <= r.consumed <= |b|
  {
    match FirstLine(b[1..])
    case NoLine => Incomplete
    case Line(data, len) =>
      if Utf8.Valid(data) then Ok(SimpleString(data), len + 1)
      else Invalid(Ascii("Simple string value is not a valid utf8 string."))
  }

  function ParseInteger(b: Bytes): (r: ParseResult)
    requires b != []
    ensures r.Ok? ==> 2 <= r.consumed <= |b|
  {
    match FirstLine(b[1..])
    case NoLine => Incomplete
    case Line(data, len) =>
      if !Utf8.Valid(data) then Invalid(Ascii("Integer value is not valid."))
      else match Decimal.ParseSigned(data, I64_MIN, I64_MAX)
           case Some(n) => Ok(Integer(n), len + 1)
           case None => Invalid(Ascii("Invalid integer value."))
  }

  /** The body of a bulk string that starts at `start`; `usize` sums wrap around. */
  function ParseBulkBody(b: Bytes, start: nat, size: nat): (r: ParseResult)
    requires 2 <= start <= |b| && size < USIZE_MODULUS
    ensures r.Ok? ==> 2 <= r.consumed <= |b|
  {
    var end := WrapUsize(start + size);
    if WrapUsize(end + 2) > |b| then Incomplete
    else if end < start || end + 2 >= USIZE_MODULUS then Panic
    else if b[end..end + 2] != CRLF then Invalid(Ascii("Missing CRLF after bulk string"))
    else if !Utf8.Valid(b[start..end]) then Invalid(Ascii("Invalid UTF-8"))
    else Ok(BulkString(b[start..end]), end + 2)
  }

  function ParseBulkString(b: Bytes): (r: ParseResult)
    requires b != []
    ensures r.Ok? ==> 2 <= r.consumed <= |b|
  {
    match FirstLine(b[1..])
    case NoLine => Incomplete
    case Line(data, len) =>
      match ParseUsize(data)
      case Failure(e) => Invalid(e)
      case Success(size) => ParseBulkBody(b, len + 1, size)
  }

  function ParseNull(b: Bytes): (r: ParseResult)
    requires b != []
    ensures r.Ok? ==> 2 <= r.consumed <= |b|
  {
    match FirstLine(b[1..])
    case NoLine => Incomplete
    case Line(_, len) => Ok(Null, len + 1)
  }

  function ParseBool(b: Bytes): (r: ParseResult)
    requires b != []
    ensures r.Ok? ==> 2 <= r.consumed <= |b|
  {
    match FirstLine(b[1..])
    case NoLine => Incomplete
    case Line(data, len) =>
      if data == [116] then Ok(Boolean(true), len + 1)
      else if data == [102] then Ok(Boolean(false), len + 1)
      else Invalid(Ascii("Invalid value for boolean. Only \"t\" or \"f\" is accepted."))
  }

  function Bulks(words: seq<Bytes>): (r: seq<RespType>)
    ensures |r| == |words|
  {
    seq(|words|, i requires 0 <= i < |words| => BulkString(words[i]))
  }

  function ParseInline(b: Bytes): (r: ParseResult)
    ensures r.Ok? ==> 2 <= r.consumed <= |b|
  {
    match FirstLine(b)
    case NoLine => Incomplete
    case Line(data, len) =>
      if Utf8.Valid(data) then Ok(Array(Bulks(Utf8.Words(data))), len)
      else Invalid(Ascii("Invalid inline command"))
  }

  /** The `count` values at the head of a buffer, or the verdict that stopped the array. */
  datatype Elements =
    | Elements(values: seq<RespType>, consumed: nat)
    | Stopped(verdict: ParseResult)

  function ParseElements(b: Bytes, count: nat): (r: Elements)
    ensures r.Elements? ==> r.consumed <= |b| && |r.values| == count
    ensures r.Stopped? ==> !r.verdict.Ok?
    decreases |b|, 1
  {
    if count == 0 then Elements([], 0)
    else
      match Parse(b)
      case Ok(v, n) =>
        (match ParseElements(b[n..], count - 1)
         case Elements(vs, m) => Elements([v] + vs, n + m)
         case Stopped(verdict) => Stopped(verdict))
      case verdict => Stopped(verdict)
  }

  function ParseArray(b: Bytes): (r: ParseResult)
    requires b != []
    ensures r.Ok? ==> 2 <= r.consumed <= |b|
    decreases |b|, 0, 0
  {
    match FirstLine(b[1..])
    case NoLine => Incomplete
    case Line(data, len) =>
      match ParseUsize(data)
      case Failure(e) => Invalid(e)
      case Success(count) =>
        if !FitsVec(count) then Panic
        else match ParseElements(b[len + 1..], count)
             case Elements(vs, m) => Ok(Array(vs), len + 1 + m)
             case Stopped(verdict) => verdict
  }

  /** The parser's verdict on a buffer. */
  function Parse(b: Bytes): (r: ParseResult)
    ensures r.Ok? ==> 2 <= r.consumed <= |b|
    decreases |b|, 0, 1
  {
    if b == [] then Incomplete
    else if !IsTypeByte(b[0]) then ParseInline(b)
    else if b[0] == 43 || b[0] == 45 then ParseSimple(b)
    else if b[0] == 58 then ParseInteger(b)
    else if b[0] == 36 then ParseBulkString(b)
    else if b[0] == 42 then ParseArray(b)
    else if b[0] == 95 then ParseNull(b)
    else ParseBool(b)
  }

  /** One element more at the end of a run of elements. */
  lemma {:induction false} ElementsSnoc(b: Bytes, k: nat)
    requires ParseElements(b, k).Elements?
    ensures ParseElements(b, k + 1) ==
            var done := ParseElements(b, k);
            match Parse(b[done.consumed..])
            case Ok(v, n) => Elements(done.values + [v], done.consumed + n)
            case verdict => Stopped(verdict)
    decreases k
  {
    hide Parse;
    if k == 0 {
      assert b[0..] == b;
      if Parse(b).Ok? {
        assert ParseElements(b[Parse(b).consumed..], 0) == Elements([], 0);
      }
    } else {
      var n := Parse(b).consumed;
      ElementsSnoc(b[n..], k - 1);
      var m := ParseElements(b[n..], k - 1).consumed;
      assert b[n..][m..] == b[n + m..];
    }
  }

  /** Once a run of elements is stopped, asking for more of them stops it the same way. */
  lemma {:induction false} StoppedStays(b: Bytes, k: nat, more: nat)
    requires k <= more && ParseElements(b, k).Stopped?
    ensures ParseElements(b, more) == ParseElements(b, k)
    decreases k
  {
    hide Parse;
    if Parse(b).Ok? {
      StoppedStays(b[Parse(b).consumed..], k - 1, more - 1);
    }
  }

  /** The loop of `parse_array`, which grows `arr` and `consumed`. */
  method ParseElementsLoop(b: Bytes, count: nat) returns (r: Elements)
    ensures r == ParseElements(b, count)
    decreases |b|, 2
  {
    hide Parse;
    var arr: seq<RespType>, consumed := [], 0;
    for i := 0 to count
      invariant 0 <= consumed <= |b|
      invariant ParseElements(b, i) == Elements(arr, consumed)
    {
      ElementsSnoc(b, i);
      var el := ParseFrame(b[consumed..]);
      if !el.Ok? {
        StoppedStays(b, i + 1, count);
        return Stopped(el);
      }
      arr, consumed := arr + [el.value], consumed + el.consumed;
    }
    return Elements(arr, consumed);
  }

  /** `parse_array`: the count line, then the loop over the elements. */
  method ParseArrayFrame(b: Bytes) returns (r: ParseResult)
    requires b != []
    ensures r == ParseArray(b)
    decreases |b|, 0
  {
    hide Parse, ParseElements, ParseUsize, FirstLine;
    var line := ReadUntilCrlf(b[1..]);
    if line.NoLine? {
      return Incomplete;
    }
    var size := ParseUsize(line.data);
    if size.Failure? {
      return Invalid(size.error);
    }
    if !FitsVec(size.value) {
      return Panic;
    }
    var els := ParseElementsLoop(b[line.len + 1..], size.value);
    return match els
      case Elements(vs, m) => Ok(Array(vs), line.len + 1 + m)
      case Stopped(verdict) => verdict;
  }

  /** `Parser::parse`. */
  method ParseFrame(b: Bytes) returns (r: ParseResult)
    ensures r == Parse(b)
    decreases |b|, 1
  {
    hide ParseArray;
    if b != [] && b[0] == 42 {
      r := ParseArrayFrame(b);
    } else {
      r := Parse(b);
    }
  }
}
