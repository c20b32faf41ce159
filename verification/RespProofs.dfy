/** What the parser promises over growing buffers, and that it inverts the printer. */
module RespProofs {
  import opened ByteStrings
  import opened RespTypes
  import opened RespParser
  import Decimal
  import Utf8

  // ---- Stability: a verdict, once reached, never changes ----

  lemma FirstLineStable(b: Bytes, x: Bytes)
    requires FirstLine(b).Line?
    ensures FirstLine(b + x) == FirstLine(b)
  {
    var i := FirstLine(b).len - 2;
    assert CrlfAt(b + x, i);
    assert forall j :: j < i && CrlfAt(b + x, j) ==> CrlfAt(b, j);
    FirstLineIs(b + x, i);
    assert (b + x)[..i] == b[..i];
  }

  lemma BulkBodyStable(b: Bytes, start: nat, size: nat, x: Bytes)
    requires 2 <= start <= |b| && size < USIZE_MODULUS
    requires !ParseBulkBody(b, start, size).Incomplete?
    ensures ParseBulkBody(b + x, start, size) == ParseBulkBody(b, start, size)
  {
    hide WrapUsize;
    var end := WrapUsize(start + size);
    if start <= end && end + 2 < USIZE_MODULUS {
      assert (b + x)[end..end + 2] == b[end..end + 2];
      assert (b + x)[start..end] == b[start..end];
    }
  }

  /**
   An announced length that overflows the position sum is never taken for a frame or for malformed bytes:
   the parser waits, or panics once the wrapped end lies inside the buffer. Without overflow it never panics.
   */
  lemma BulkOverflow(b: Bytes, start: nat, size: nat)
    requires 2 <= start <= |b| <= ISIZE_MAX && size < USIZE_MODULUS
    ensures start + size + 2 < USIZE_MODULUS ==> !ParseBulkBody(b, start, size).Panic?
    ensures start + size + 2 >= USIZE_MODULUS ==>
      ParseBulkBody(b, start, size) == if start + size + 2 - USIZE_MODULUS <= |b| then Panic else Incomplete
  {
    hide Utf8.Valid;
    var end := WrapUsize(start + size);
    if start + size >= USIZE_MODULUS {
      assert end == start + size - USIZE_MODULUS;
    } else if start + size + 2 >= USIZE_MODULUS {
      assert WrapUsize(end + 2) == end + 2 - USIZE_MODULUS;
    }
  }

  lemma LeafStable(b: Bytes, x: Bytes)
    requires b != [] && b[0] != 42 && !Parse(b).Incomplete?
    ensures Parse(b + x) == Parse(b)
  {
    hide Utf8.Words, Utf8.Valid;
    if IsTypeByte(b[0]) {
      assert (b + x)[1..] == b[1..] + x;
      FirstLineStable(b[1..], x);
      if b[0] == 36 {
        var size := ParseUsize(FirstLine(b[1..]).data);
        if size.Success? {
          BulkBodyStable(b, FirstLine(b[1..]).len + 1, size.value, x);
        }
      }
    } else {
      FirstLineStable(b, x);
    }
  }

  lemma ParseIsArray(b: Bytes)
    requires b != [] && b[0] == 42
    ensures Parse(b) == ParseArray(b)
  {
    hide ParseArray;
  }

  /** Appending bytes to a buffer that has a verdict leaves the verdict, the value and the length as they were. */
  lemma {:induction false} ParseStable(b: Bytes, x: Bytes)
    requires !Parse(b).Incomplete?
    ensures Parse(b + x) == Parse(b)
    decreases |b|, 0, 1
  {
    if b[0] != 42 {
      LeafStable(b, x);
    } else {
      hide Parse, ParseArray;
      ParseIsArray(b);
      ParseIsArray(b + x);
      ArrayStable(b, x);
    }
  }

  lemma {:induction false} ArrayStable(b: Bytes, x: Bytes)
    requires b != [] && !ParseArray(b).Incomplete?
    ensures ParseArray(b + x) == ParseArray(b)
    decreases |b|, 0, 0
  {
    hide Parse, ParseElements, ParseUsize, FirstLine;
    assert (b + x)[1..] == b[1..] + x;
    FirstLineStable(b[1..], x);
    var line := FirstLine(b[1..]);
    var size := ParseUsize(line.data);
    if size.Success? && FitsVec(size.value) {
      assert (b + x)[line.len + 1..] == b[line.len + 1..] + x;
      ElementsStable(b[line.len + 1..], size.value, x);
    }
  }

  lemma {:induction false} ElementsStable(b: Bytes, count: nat, x: Bytes)
    requires ParseElements(b, count) != Stopped(Incomplete)
    ensures ParseElements(b + x, count) == ParseElements(b, count)
    decreases |b|, 1
  {
    hide Parse;
    if count > 0 {
      ParseStable(b, x);
      if Parse(b).Ok? {
        var n := Parse(b).consumed;
        assert (b + x)[n..] == b[n..] + x;
        ElementsStable(b[n..], count - 1, x);
      }
    }
  }

  // ---- Minimality: a frame is recognised with its last byte and not before ----

  lemma FirstLineExact(b: Bytes, k: nat)
    requires FirstLine(b).Line? && FirstLine(b).len <= k <= |b|
    ensures FirstLine(b[..k]) == FirstLine(b)
  {
    var i := FirstLine(b).len - 2;
    assert CrlfAt(b[..k], i);
    assert forall j :: j < i && CrlfAt(b[..k], j) ==> CrlfAt(b, j);
    FirstLineIs(b[..k], i);
    assert b[..k][..i] == b[..i];
  }

  lemma BulkBodyExact(b: Bytes, start: nat, size: nat)
    requires 2 <= start <= |b| && size < USIZE_MODULUS && ParseBulkBody(b, start, size).Ok?
    ensures start <= ParseBulkBody(b, start, size).consumed
    ensures ParseBulkBody(b[..ParseBulkBody(b, start, size).consumed], start, size) == ParseBulkBody(b, start, size)
  {
    var n := ParseBulkBody(b, start, size).consumed;
    assert b[..n][n - 2..n] == b[n - 2..n];
    assert b[..n][start..n - 2] == b[start..n - 2];
  }

  lemma BulkExact(b: Bytes)
    requires b != [] && ParseBulkString(b).Ok?
    ensures ParseBulkString(b[..ParseBulkString(b).consumed]) == ParseBulkString(b)
  {
    hide ParseUsize, FirstLine, ParseBulkBody;
    var n := ParseBulkString(b).consumed;
    var line := FirstLine(b[1..]);
    BulkBodyExact(b, line.len + 1, ParseUsize(line.data).value);
    assert b[..n][1..] == b[1..][..n - 1];
    FirstLineExact(b[1..], n - 1);
  }

  lemma LeafExact(b: Bytes)
    requires b != [] && b[0] != 42 && Parse(b).Ok?
    ensures Parse(b[..Parse(b).consumed]) == Parse(b)
  {
    hide Utf8.Words, Utf8.Valid, ParseBulkString, FirstLine;
    var n := Parse(b).consumed;
    if b[0] == 36 {
      BulkExact(b);
    } else if IsTypeByte(b[0]) {
      assert b[..n][1..] == b[1..][..n - 1];
      FirstLineExact(b[1..], n - 1);
    } else {
      FirstLineExact(b, n);
    }
  }

  lemma {:induction false} FrameExact(b: Bytes)
    requires Parse(b).Ok?
    ensures Parse(b[..Parse(b).consumed]) == Parse(b)
    decreases |b|, 0, 1
  {
    if b[0] != 42 {
      LeafExact(b);
    } else {
      hide Parse, ParseArray;
      ParseIsArray(b);
      ParseIsArray(b[..Parse(b).consumed]);
      ArrayExact(b);
    }
  }

  lemma {:induction false} ArrayExact(b: Bytes)
    requires b != [] && ParseArray(b).Ok?
    ensures ParseArray(b[..ParseArray(b).consumed]) == ParseArray(b)
    decreases |b|, 0, 0
  {
    hide Parse, ParseElements, ParseUsize, FirstLine;
    var n := ParseArray(b).consumed;
    assert b[..n][1..] == b[1..][..n - 1];
    FirstLineExact(b[1..], n - 1);
    var line := FirstLine(b[1..]);
    var body := b[line.len + 1..];
    assert b[..n][line.len + 1..] == body[..n - line.len - 1];
    ElementsExact(body, ParseUsize(line.data).value);
  }

  lemma {:induction false} ElementsExact(b: Bytes, count: nat)
    requires ParseElements(b, count).Elements?
    ensures ParseElements(b[..ParseElements(b, count).consumed], count) == ParseElements(b, count)
    decreases |b|, 1
  {
    hide Parse;
    if count > 0 {
      var m := ParseElements(b, count).consumed;
      var n := Parse(b).consumed;
      FrameExact(b);
      ParseStable(b[..n], b[n..m]);
      assert b[..n] + b[n..m] == b[..m];
      assert b[..m][n..] == b[n..][..m - n];
      ElementsExact(b[n..], count - 1);
    }
  }

  /**
   The verdict on every cut of a buffer that starts with a frame: incomplete short of the frame, the frame
   from there on.
   */
  lemma FrameVerdicts(b: Bytes, k: nat)
    requires Parse(b).Ok? && k <= |b|
    ensures Parse(b[..k]) == if k < Parse(b).consumed then Incomplete else Parse(b)
  {
    hide Parse;
    var n := Parse(b).consumed;
    if k < n {
      assert b[..k] + b[k..] == b;
      if !Parse(b[..k]).Incomplete? {
        ParseStable(b[..k], b[k..]);
      }
    } else {
      FrameExact(b);
      ParseStable(b[..n], b[n..k]);
      assert b[..n] + b[n..k] == b[..k];
    }
  }

  // ---- Round trip: the parser inverts the printer exactly on values whose lines contain no line end ----

  /** The parser reads `-` frames as simple strings. */
  function Normalise(v: RespType): RespType
    decreases v, 1
  {
    match v
    case SimpleError(s) => SimpleString(s)
    case Array(items) => Array(NormaliseAll(items))
    case _ => v
  }

  function NormaliseAll(vs: seq<RespType>): (r: seq<RespType>)
    ensures |r| == |vs|
    decreases vs, 0
  {
    if vs == [] then [] else [Normalise(vs[0])] + NormaliseAll(vs[1..])
  }

  ghost predicate LineSafe(v: RespType)
    decreases v, 1
  {
    match v
    case SimpleString(s) => !HasCrlf(s)
    case SimpleError(s) => !HasCrlf(s)
    case Array(items) => AllLineSafe(items)
    case _ => true
  }

  ghost predicate AllLineSafe(vs: seq<RespType>)
    decreases vs, 0
  {
    vs == [] || (LineSafe(vs[0]) && AllLineSafe(vs[1..]))
  }

  /** A text without line end is read back as the first line. */
  lemma LineOf(text: Bytes, x: Bytes)
    requires !HasCrlf(text)
    ensures FirstLine(text + CRLF + x) == Line(text, |text| + 2)
  {
    var b := text + CRLF + x;
    var i := |text|;
    assert CrlfAt(b, i);
    assert forall j :: j < i && CrlfAt(b, j) ==> CrlfAt(text, j);
    FirstLineIs(b, i);
    assert b[..i] == text;
  }

  /** A text with a line end inside is cut there. */
  lemma LineCut(text: Bytes, x: Bytes)
    requires HasCrlf(text)
    ensures FirstLine(text + CRLF + x).Line? && |FirstLine(text + CRLF + x).data| < |text|
  {
    var i :| CrlfAt(text, i);
    assert CrlfAt(text + CRLF + x, i);
  }

  lemma NumberLine(n: int)
    ensures !HasCrlf(Decimal.PrintInt(n)) && Utf8.Valid(Decimal.PrintInt(n))
  {
    Decimal.PrintAscii(n);
    Utf8.AsciiValid(Decimal.PrintInt(n));
  }

  /** A printed count is read back. */
  lemma CountLine(n: nat, x: Bytes)
    requires n < USIZE_MODULUS
    ensures FirstLine(Decimal.Print(n) + CRLF + x) == Line(Decimal.Print(n), |Decimal.Print(n)| + 2)
    ensures ParseUsize(Decimal.Print(n)) == Success(n)
  {
    NumberLine(n);
    assert Decimal.PrintInt(n) == Decimal.Print(n);
    LineOf(Decimal.Print(n), x);
    Decimal.UnsignedRoundTrip(n, USIZE_MODULUS);
  }

  /** The line behind a type byte. */
  lemma TaggedLine(tag: byte, text: Bytes, x: Bytes)
    requires !HasCrlf(text)
    ensures FirstLine(([tag] + text + CRLF + x)[1..]) == Line(text, |text| + 2)
  {
    hide FirstLine;
    LineOf(text, x);
    assert ([tag] + text + CRLF + x)[1..] == text + CRLF + x;
  }

  lemma BulkBodyRoundTrip(b: Bytes, start: nat, size: nat)
    requires 2 <= start && start + size + 2 < USIZE_MODULUS && start + size + 2 <= |b|
    requires b[start + size..start + size + 2] == CRLF && Utf8.Valid(b[start..start + size])
    ensures ParseBulkBody(b, start, size) == Ok(BulkString(b[start..start + size]), start + size + 2)
  {
    hide Utf8.Valid, WrapUsize;
  }

  lemma BulkLayout(b: Bytes, t: Bytes, s: Bytes, x: Bytes)
    requires b == [36] + t + CRLF + s + CRLF + x && !HasCrlf(t)
    ensures var start := |t| + 3;
      && FirstLine(b[1..]) == Line(t, |t| + 2)
      && start + |s| + 2 <= |b| && b[start..start + |s|] == s && b[start + |s|..start + |s| + 2] == CRLF
  {
    hide FirstLine;
    var tail := s + CRLF + x;
    assert b == [36] + t + CRLF + tail;
    TaggedLine(36, t, tail);
  }

  lemma BulkRoundTrip(s: Bytes, x: Bytes)
    requires WellFormed(BulkString(s))
    ensures Parse(Wire(BulkString(s)) + x) == Ok(BulkString(s), |Wire(BulkString(s))|)
  {
    hide FirstLine, ParseUsize, Utf8.Valid, ParseBulkBody, Decimal.Print, ParseArray;
    var head, b := Decimal.Print(|s|), Wire(BulkString(s)) + x;
    CountLine(|s|, s + CRLF + x);
    NumberLine(|s|);
    assert b == [36] + head + CRLF + s + CRLF + x;
    BulkLayout(b, head, s, x);
    Decimal.PrintShort(|s|);
    BulkBodyRoundTrip(b, |head| + 3, |s|);
  }

  lemma SimpleRoundTrip(tag: byte, s: Bytes, x: Bytes)
    requires (tag == 43 || tag == 45) && Utf8.Valid(s) && !HasCrlf(s)
    ensures Parse([tag] + s + CRLF + x) == Ok(SimpleString(s), |s| + 3)
  {
    hide FirstLine, Utf8.Valid, ParseArray;
    TaggedLine(tag, s, x);
  }

  lemma IntegerRoundTrip(n: int, x: Bytes)
    requires I64_MIN <= n <= I64_MAX
    ensures Parse(Wire(Integer(n)) + x) == Ok(Integer(n), |Wire(Integer(n))|)
  {
    hide FirstLine, Utf8.Valid, ParseArray, Decimal.ParseSigned, Decimal.PrintInt;
    NumberLine(n);
    TaggedLine(58, Decimal.PrintInt(n), x);
    Decimal.SignedRoundTrip(n, I64_MIN, I64_MAX);
  }

  lemma FlagRoundTrip(v: RespType, x: Bytes)
    requires v.Null? || v.Boolean?
    ensures Parse(Wire(v) + x) == Ok(v, |Wire(v)|)
  {
    hide FirstLine, ParseArray;
    if v.Null? {
      TaggedLine(95, [], x);
      assert [95] + [] + CRLF + x == Wire(v) + x;
    } else {
      TaggedLine(35, if v.b then [116] else [102], x);
    }
  }

  lemma LeafRoundTrip(v: RespType, x: Bytes)
    requires !v.Array? && WellFormed(v) && LineSafe(v)
    ensures Parse(Wire(v) + x) == Ok(Normalise(v), |Wire(v)|)
  {
    hide Parse;
    match v
    case SimpleString(s) => SimpleRoundTrip(43, s, x);
    case SimpleError(s) => SimpleRoundTrip(45, s, x);
    case Integer(n) => IntegerRoundTrip(n, x);
    case BulkString(s) => BulkRoundTrip(s, x);
    case _ => FlagRoundTrip(v, x);
  }

  /** Reading an array is reading its elements after the count line. */
  lemma ArrayOfElements(items: seq<RespType>, x: Bytes)
    requires FitsVec(|items|)
    ensures Parse(Wire(Array(items)) + x) ==
            var head := |Decimal.Print(|items|)| + 3;
            match ParseElements(WireAll(items) + x, |items|)
            case Elements(vs, m) => Ok(Array(vs), head + m)
            case Stopped(verdict) => verdict
  {
    hide Parse, ParseElements, FirstLine, ParseUsize, WireAll;
    var b := Wire(Array(items)) + x;
    var head := Decimal.Print(|items|);
    ParseIsArray(b);
    CountLine(|items|, WireAll(items) + x);
    assert b[1..] == head + CRLF + (WireAll(items) + x);
    assert b[|head| + 3..] == WireAll(items) + x;
  }

  /** Printing and parsing returns the value and its exact length, whatever follows it in the buffer. */
  lemma {:induction false} RoundTrip(v: RespType, x: Bytes)
    requires WellFormed(v) && LineSafe(v)
    ensures Parse(Wire(v) + x) == Ok(Normalise(v), |Wire(v)|)
    decreases v, 1
  {
    hide Parse, ParseElements;
    if v.Array? {
      ArrayOfElements(v.items, x);
      ElementsRoundTrip(v.items, x);
    } else {
      LeafRoundTrip(v, x);
    }
  }

  lemma {:induction false} ElementsRoundTrip(vs: seq<RespType>, x: Bytes)
    requires AllWellFormed(vs) && AllLineSafe(vs)
    ensures ParseElements(WireAll(vs) + x, |vs|) == Elements(NormaliseAll(vs), |WireAll(vs)|)
    decreases vs, 0
  {
    hide Parse;
    if vs != [] {
      var rest := WireAll(vs[1..]) + x;
      assert WireAll(vs) + x == Wire(vs[0]) + rest;
      RoundTrip(vs[0], rest);
      assert (Wire(vs[0]) + rest)[|Wire(vs[0])|..] == rest;
      ElementsRoundTrip(vs[1..], x);
    }
  }

  lemma SimpleCut(tag: byte, s: Bytes, x: Bytes)
    requires (tag == 43 || tag == 45) && HasCrlf(s)
    ensures Parse([tag] + s + CRLF + x).Ok? ==> Parse([tag] + s + CRLF + x).value != SimpleString(s)
  {
    hide FirstLine, Utf8.Valid, ParseArray;
    LineCut(s, x);
    assert ([tag] + s + CRLF + x)[1..] == s + CRLF + x;
  }

  lemma ElementsCons(b: Bytes, count: nat)
    requires ParseElements(b, count + 1).Elements?
    ensures Parse(b).Ok? && ParseElements(b[Parse(b).consumed..], count).Elements?
    ensures ParseElements(b, count + 1).values == [Parse(b).value] + ParseElements(b[Parse(b).consumed..], count).values
  {
    hide Parse;
  }

  lemma ListsDiffer<T>(x: T, xs: seq<T>, y: T, ys: seq<T>)
    requires x != y || xs != ys
    ensures [x] + xs != [y] + ys
  {
    assert ([x] + xs)[0] == x && ([x] + xs)[1..] == xs;
    assert ([y] + ys)[0] == y && ([y] + ys)[1..] == ys;
  }

  /** A value with a line end inside a simple string or error never comes back. */
  lemma {:induction false} NoRoundTrip(v: RespType, x: Bytes)
    requires WellFormed(v) && !LineSafe(v)
    ensures Parse(Wire(v) + x).Ok? ==> Parse(Wire(v) + x).value != Normalise(v)
    decreases v, 1
  {
    hide Parse, ParseElements;
    match v
    case SimpleString(s) => SimpleCut(43, s, x);
    case SimpleError(s) => SimpleCut(45, s, x);
    case Array(items) =>
      ArrayOfElements(items, x);
      NoElementsRoundTrip(items, x);
  }

  lemma {:induction false} NoElementsRoundTrip(vs: seq<RespType>, x: Bytes)
    requires AllWellFormed(vs) && !AllLineSafe(vs)
    ensures var r := ParseElements(WireAll(vs) + x, |vs|); r.Elements? ==> r.values != NormaliseAll(vs)
    decreases vs, 0
  {
    hide Parse, ParseElements;
    var rest := WireAll(vs[1..]) + x;
    var b := Wire(vs[0]) + rest;
    assert WireAll(vs) + x == b;
    if ParseElements(b, |vs|).Elements? {
      ElementsCons(b, |vs| - 1);
      if LineSafe(vs[0]) {
        RoundTrip(vs[0], rest);
        assert b[|Wire(vs[0])|..] == rest;
        NoElementsRoundTrip(vs[1..], x);
        ListsDiffer(Parse(b).value, ParseElements(rest, |vs| - 1).values, Normalise(vs[0]), NormaliseAll(vs[1..]));
      } else {
        NoRoundTrip(vs[0], rest);
        var more := ParseElements(b[Parse(b).consumed..], |vs| - 1).values;
        ListsDiffer(Parse(b).value, more, Normalise(vs[0]), NormaliseAll(vs[1..]));
      }
    }
  }

  /** The exact domain of the round trip. */
  lemma RoundTripExactly(v: RespType, x: Bytes)
    requires WellFormed(v)
    ensures Parse(Wire(v) + x) == Ok(Normalise(v), |Wire(v)|) <==> LineSafe(v)
  {
    hide Parse;
    if LineSafe(v) {
      RoundTrip(v, x);
    } else {
      NoRoundTrip(v, x);
    }
  }

  // ---- Everything the parser returns can be printed and parsed again ----

  ghost predicate Clean(v: RespType) {
    WellFormed(v) && LineSafe(v) && Normalise(v) == v
  }

  ghost predicate AllClean(vs: seq<RespType>) {
    AllWellFormed(vs) && AllLineSafe(vs) && NormaliseAll(vs) == vs
  }

  lemma AllCleanCons(v: RespType, vs: seq<RespType>)
    requires Clean(v) && AllClean(vs)
    ensures AllClean([v] + vs)
  {
    assert ([v] + vs)[1..] == vs;
  }

  lemma {:induction false} BulksClean(words: seq<Bytes>)
    requires forall i :: 0 <= i < |words| ==> Utf8.Valid(words[i]) && |words[i]| <= ISIZE_MAX
    ensures AllClean(Bulks(words))
    decreases |words|
  {
    if words != [] {
      BulksClean(words[1..]);
      assert Bulks(words) == [BulkString(words[0])] + Bulks(words[1..]);
      AllCleanCons(BulkString(words[0]), Bulks(words[1..]));
    }
  }

  lemma FirstLineHasNoCrlf(b: Bytes)
    requires FirstLine(b).Line?
    ensures !HasCrlf(FirstLine(b).data)
  {
    var line := FirstLine(b);
    assert forall i :: CrlfAt(line.data, i) ==> CrlfAt(b, i);
  }

  lemma InlineClean(b: Bytes)
    requires ParseInline(b).Ok? && FitsVec(|b|)
    ensures Clean(ParseInline(b).value)
  {
    hide FirstLine, Utf8.Valid, Utf8.Words;
    var data := FirstLine(b).data;
    Utf8.WordsValid(data);
    BulksClean(Utf8.Words(data));
  }

  lemma SimpleClean(b: Bytes)
    requires b != [] && ParseSimple(b).Ok? && |b| <= ISIZE_MAX
    ensures Clean(ParseSimple(b).value)
  {
    hide FirstLine, Utf8.Valid;
    FirstLineHasNoCrlf(b[1..]);
  }

  lemma BulkClean(b: Bytes)
    requires b != [] && ParseBulkString(b).Ok? && |b| <= ISIZE_MAX
    ensures Clean(ParseBulkString(b).value)
  {
    hide FirstLine, ParseUsize, Utf8.Valid;
  }

  lemma LeafClean(b: Bytes)
    requires b != [] && b[0] != 42 && Parse(b).Ok? && FitsVec(|b|)
    ensures Clean(Parse(b).value)
  {
    hide FirstLine, Utf8.Valid, ParseInline, ParseArray, ParseSimple, ParseBulkString, Decimal.ParseSigned;
    if !IsTypeByte(b[0]) {
      InlineClean(b);
    } else if b[0] == 43 || b[0] == 45 {
      SimpleClean(b);
    } else if b[0] == 36 {
      BulkClean(b);
    }
  }

  lemma {:induction false} ParseClean(b: Bytes)
    requires Parse(b).Ok? && FitsVec(|b|)
    ensures Clean(Parse(b).value)
    decreases |b|, 0, 1
  {
    if b[0] != 42 {
      LeafClean(b);
    } else {
      hide Parse, ParseArray;
      ParseIsArray(b);
      ArrayClean(b);
    }
  }

  lemma {:induction false} ArrayClean(b: Bytes)
    requires b != [] && ParseArray(b).Ok? && FitsVec(|b|)
    ensures Clean(ParseArray(b).value)
    decreases |b|, 0, 0
  {
    hide Parse, ParseElements, ParseUsize, FirstLine;
    var line := FirstLine(b[1..]);
    ElementsClean(b[line.len + 1..], ParseUsize(line.data).value);
  }

  lemma {:induction false} ElementsClean(b: Bytes, count: nat)
    requires ParseElements(b, count).Elements? && FitsVec(|b|)
    ensures AllClean(ParseElements(b, count).values)
    decreases |b|, 1
  {
    hide Parse, ParseElements;
    if count == 0 {
      NoElements(b);
    } else {
      ElementsCons(b, count - 1);
      var rest := b[Parse(b).consumed..];
      ParseClean(b);
      ElementsClean(rest, count - 1);
      AllCleanCons(Parse(b).value, ParseElements(rest, count - 1).values);
    }
  }

  lemma NoElements(b: Bytes)
    ensures ParseElements(b, 0) == Elements([], 0)
  {
  }

  /** A parsed frame, printed canonically, parses to itself in any surroundings. */
  lemma ReprintStable(b: Bytes, x: Bytes)
    requires Parse(b).Ok? && FitsVec(|b|)
    ensures Parse(Wire(Parse(b).value) + x) == Ok(Parse(b).value, |Wire(Parse(b).value)|)
  {
    hide Parse;
    ParseClean(b);
    RoundTrip(Parse(b).value, x);
  }

  // ---- Inline commands mean the same as arrays of bulk strings ----

  /** Words with white space around and between them. */
  function Spaced(seps: seq<Bytes>, words: seq<Bytes>): Bytes
    requires |seps| == |words| + 1
  {
    if words == [] then seps[0] else seps[0] + (words[0] + Spaced(seps[1..], words[1..]))
  }

  ghost predicate InlineShape(seps: seq<Bytes>, words: seq<Bytes>) {
    && |seps| == |words| + 1
    && (forall i :: 0 <= i < |words| ==> Utf8.IsWord(words[i]))
    && (forall i :: 0 <= i < |seps| ==> Utf8.AllSpace(seps[i]))
    && (forall i :: 0 < i < |words| ==> seps[i] != [])
  }

  lemma {:induction false} WordsOfSpaced(seps: seq<Bytes>, words: seq<Bytes>)
    requires InlineShape(seps, words)
    ensures Utf8.Valid(Spaced(seps, words)) && Utf8.Words(Spaced(seps, words)) == words
    decreases |words|
  {
    hide Utf8.CharLen;
    if words == [] {
      Utf8.WordsSkipSpaces(seps[0], []);
      assert seps[0] + [] == seps[0];
    } else {
      var tail := Spaced(seps[1..], words[1..]);
      WordsOfSpaced(seps[1..], words[1..]);
      SpacedStart(seps[1..], words[1..]);
      Utf8.WordsTakeWord(words[0], tail);
      Utf8.WordsSkipSpaces(seps[0], words[0] + tail);
    }
  }

  lemma SpacedStart(seps: seq<Bytes>, words: seq<Bytes>)
    requires InlineShape(seps, words) && (words != [] ==> seps[0] != [])
    ensures Spaced(seps, words) == [] || Utf8.SpaceAhead(Spaced(seps, words))
  {
    hide Utf8.CharLen;
    if seps[0] != [] {
      if words != [] {
        Utf8.HeadStable(seps[0], words[0] + Spaced(seps[1..], words[1..]));
      }
    }
  }

  /** Both syntaxes of a command parse to the same value. */
  lemma InlineMeansArray(seps: seq<Bytes>, words: seq<Bytes>, x: Bytes, y: Bytes)
    requires InlineShape(seps, words) && FitsVec(|words|)
    requires forall i :: 0 <= i < |words| ==> |words[i]| <= ISIZE_MAX
    requires !HasCrlf(Spaced(seps, words))
    requires Spaced(seps, words) == [] || !IsTypeByte(Spaced(seps, words)[0])
    ensures Parse(Spaced(seps, words) + CRLF + x) == Ok(Array(Bulks(words)), |Spaced(seps, words)| + 2)
    ensures Parse(Wire(Array(Bulks(words))) + y) == Ok(Array(Bulks(words)), |Wire(Array(Bulks(words)))|)
  {
    hide FirstLine, Utf8.Valid, Utf8.Words, ParseElements;
    var line := Spaced(seps, words);
    WordsOfSpaced(seps, words);
    LineOf(line, x);
    BulksClean(words);
    RoundTrip(Array(Bulks(words)), y);
  }
}
