/** The frames of the protocol, given by their shape, and that the parser recognises exactly these. */
module Grammar {
  import opened ByteStrings
  import opened RespTypes
  import opened RespParser
  import opened RespProofs
  import Decimal
  import Utf8

  /** A type byte, a text without line end, and a line end. */
  ghost predicate LineForm(w: Bytes, tag: byte, text: Bytes) {
    w == [tag] + text + CRLF && !HasCrlf(text)
  }

  ghost predicate BulkForm(w: Bytes, size: Bytes, s: Bytes) {
    && w == [36] + size + CRLF + s + CRLF && !HasCrlf(size)
    && Decimal.ParseUnsigned(size, USIZE_MODULUS) == Some(|s|) && |w| < USIZE_MODULUS
  }

  ghost predicate CountForm(w: Bytes, size: Bytes, body: Bytes, n: nat) {
    && w == [42] + size + CRLF + body && !HasCrlf(size)
    && Decimal.ParseUnsigned(size, USIZE_MODULUS) == Some(n) && FitsVec(n)
  }

  ghost predicate InlineForm(w: Bytes, line: Bytes, items: seq<RespType>) {
    && w == line + CRLF && !HasCrlf(line) && (line == [] || !IsTypeByte(line[0]))
    && Utf8.Valid(line) && items == Bulks(Utf8.Words(line))
  }

  /**
   `w` is a frame of the value `v`. Errors are read as simple strings, numbers may carry a sign and
   leading zeros, the text of a null is ignored, and an array may be an inline command.
   */
  ghost predicate Encodes(v: RespType, w: Bytes)
    decreases v, 1
  {
    match v
    case SimpleString(s) => Utf8.Valid(s) && (LineForm(w, 43, s) || LineForm(w, 45, s))
    case SimpleError(_) => false
    case Integer(n) => exists t :: LineForm(w, 58, t) && Decimal.ParseSigned(t, I64_MIN, I64_MAX) == Some(n)
    case BulkString(s) => Utf8.Valid(s) && exists t :: BulkForm(w, t, s)
    case Array(items) =>
      || (exists line :: InlineForm(w, line, items))
      || (exists t, body :: CountForm(w, t, body, |items|) && EncodesAll(items, body))
    case Null => exists t :: LineForm(w, 95, t)
    case Boolean(b) => LineForm(w, 35, if b then [116] else [102])
  }

  ghost predicate EncodesAll(vs: seq<RespType>, w: Bytes)
    decreases vs, 0
  {
    if vs == [] then w == []
    else exists k :: 0 <= k <= |w| && Encodes(vs[0], w[..k]) && EncodesAll(vs[1..], w[k..])
  }

  // ---- What the parser accepts is a frame ----

  /** The first line behind a type byte. */
  lemma LineOfFrame(b: Bytes)
    requires b != [] && FirstLine(b[1..]).Line?
    ensures var line := FirstLine(b[1..]); LineForm(b[..line.len + 1], b[0], line.data)
  {
    var line := FirstLine(b[1..]);
    FirstLineHasNoCrlf(b[1..]);
    assert b[..line.len + 1] == [b[0]] + line.data + CRLF;
  }

  lemma SoundBulk(b: Bytes)
    requires b != [] && b[0] == 36 && ParseBulkString(b).Ok? && |b| < USIZE_MODULUS
    ensures Encodes(ParseBulkString(b).value, b[..ParseBulkString(b).consumed])
  {
    hide FirstLine, Utf8.Valid, Decimal.ParseUnsigned;
    LineOfFrame(b);
    var line, r := FirstLine(b[1..]), ParseBulkString(b);
    var w, s := b[..r.consumed], r.value.text;
    BulkSize(b, line.len + 1, ParseUsize(line.data).value);
    assert w == b[..line.len + 1] + s + CRLF;
    assert BulkForm(w, line.data, s);
  }

  lemma BulkSize(b: Bytes, start: nat, size: nat)
    requires 2 <= start <= |b| < USIZE_MODULUS && size < USIZE_MODULUS && ParseBulkBody(b, start, size).Ok?
    ensures ParseBulkBody(b, start, size).consumed == start + size + 2
    ensures ParseBulkBody(b, start, size).value == BulkString(b[start..start + size])
    ensures b[start + size..start + size + 2] == CRLF
  {
    hide Utf8.Valid;
  }

  lemma SoundInline(b: Bytes)
    requires b != [] && !IsTypeByte(b[0]) && ParseInline(b).Ok?
    ensures Encodes(ParseInline(b).value, b[..ParseInline(b).consumed])
  {
    hide FirstLine, Utf8.Valid, Utf8.Words;
    var line := FirstLine(b);
    FirstLineHasNoCrlf(b);
    assert b[..line.len] == line.data + CRLF;
    assert InlineForm(b[..line.len], line.data, ParseInline(b).value.items);
  }

  lemma SoundSimple(b: Bytes)
    requires b != [] && (b[0] == 43 || b[0] == 45) && ParseSimple(b).Ok?
    ensures Encodes(ParseSimple(b).value, b[..ParseSimple(b).consumed])
  {
    hide FirstLine, Utf8.Valid;
    LineOfFrame(b);
  }

  lemma SoundInteger(b: Bytes)
    requires b != [] && b[0] == 58 && ParseInteger(b).Ok?
    ensures Encodes(ParseInteger(b).value, b[..ParseInteger(b).consumed])
  {
    hide FirstLine, Utf8.Valid, Decimal.ParseSigned;
    LineOfFrame(b);
  }

  lemma SoundFlag(b: Bytes)
    requires b != [] && (b[0] == 95 || b[0] == 35)
    ensures b[0] == 95 && ParseNull(b).Ok? ==> Encodes(Null, b[..ParseNull(b).consumed])
    ensures b[0] == 35 && ParseBool(b).Ok? ==> Encodes(ParseBool(b).value, b[..ParseBool(b).consumed])
  {
    hide FirstLine;
    if FirstLine(b[1..]).Line? {
      LineOfFrame(b);
    }
  }

  lemma SoundLeaf(b: Bytes)
    requires b != [] && b[0] != 42 && Parse(b).Ok? && |b| < USIZE_MODULUS
    ensures Encodes(Parse(b).value, b[..Parse(b).consumed])
  {
    hide Encodes, ParseArray, ParseBulkString, ParseInline, ParseSimple, ParseInteger, FirstLine;
    if !IsTypeByte(b[0]) {
      SoundInline(b);
    } else if b[0] == 36 {
      SoundBulk(b);
    } else if b[0] == 58 {
      SoundInteger(b);
    } else if b[0] == 43 || b[0] == 45 {
      SoundSimple(b);
    } else {
      SoundFlag(b);
    }
  }

  lemma {:induction false} ParserSound(b: Bytes)
    requires Parse(b).Ok? && |b| < USIZE_MODULUS
    ensures Encodes(Parse(b).value, b[..Parse(b).consumed])
    decreases |b|, 0, 1
  {
    if b[0] != 42 {
      SoundLeaf(b);
    } else {
      hide Parse, ParseArray, Encodes;
      ParseIsArray(b);
      SoundArray(b);
    }
  }

  lemma {:induction false} SoundArray(b: Bytes)
    requires b != [] && b[0] == 42 && ParseArray(b).Ok? && |b| < USIZE_MODULUS
    ensures Encodes(ParseArray(b).value, b[..ParseArray(b).consumed])
    decreases |b|, 0, 0
  {
    hide Parse, ParseElements, FirstLine, Utf8.Valid, Decimal.ParseUnsigned, EncodesAll;
    var line, r := FirstLine(b[1..]), ParseArray(b);
    var count, rest := ParseUsize(line.data).value, b[line.len + 1..];
    LineOfFrame(b);
    SoundElements(rest, count);
    var els := ParseElements(rest, count);
    var w, body := b[..r.consumed], rest[..els.consumed];
    assert w == b[..line.len + 1] + body;
    assert CountForm(w, line.data, body, count);
  }

  lemma {:induction false} SoundElements(b: Bytes, count: nat)
    requires ParseElements(b, count).Elements? && |b| < USIZE_MODULUS
    ensures EncodesAll(ParseElements(b, count).values, b[..ParseElements(b, count).consumed])
    decreases |b|, 1
  {
    hide Parse, Encodes;
    if count > 0 {
      var r := ParseElements(b, count);
      var n, m := Parse(b).consumed, r.consumed;
      ParserSound(b);
      SoundElements(b[n..], count - 1);
      assert b[..m][..n] == b[..n] && b[..m][n..] == b[n..][..m - n];
      assert r.values[0] == Parse(b).value && r.values[1..] == ParseElements(b[n..], count - 1).values;
    }
  }

  // ---- Every frame is accepted, with its own value and length, whatever follows it ----

  lemma DigitsValid(s: Bytes, modulus: int)
    requires Decimal.ParseUnsigned(s, modulus).Some?
    ensures Utf8.Valid(s)
  {
    hide Utf8.Valid;
    Utf8.AsciiValid(s);
  }

  lemma NumberValid(s: Bytes, lo: int, hi: int)
    requires Decimal.ParseSigned(s, lo, hi).Some?
    ensures Utf8.Valid(s)
  {
    hide Utf8.Valid;
    Utf8.AsciiValid(s);
  }

  lemma CompleteInteger(n: int, w: Bytes, x: Bytes)
    requires Encodes(Integer(n), w)
    ensures Parse(w + x) == Ok(Integer(n), |w|)
  {
    hide FirstLine, Utf8.Valid, ParseArray, Decimal.ParseSigned;
    var t :| LineForm(w, 58, t) && Decimal.ParseSigned(t, I64_MIN, I64_MAX) == Some(n);
    TaggedLine(58, t, x);
    NumberValid(t, I64_MIN, I64_MAX);
  }

  lemma CompleteFlag(v: RespType, w: Bytes, x: Bytes)
    requires (v.Null? || v.Boolean?) && Encodes(v, w)
    ensures Parse(w + x) == Ok(v, |w|)
  {
    hide FirstLine, ParseArray;
    if v.Null? {
      var t :| LineForm(w, 95, t);
      TaggedLine(95, t, x);
    } else {
      TaggedLine(35, if v.b then [116] else [102], x);
    }
  }

  lemma CompleteBulk(s: Bytes, w: Bytes, x: Bytes)
    requires Encodes(BulkString(s), w)
    ensures Parse(w + x) == Ok(BulkString(s), |w|)
  {
    hide FirstLine, Utf8.Valid, ParseArray, Decimal.ParseUnsigned, ParseBulkBody;
    var t :| BulkForm(w, t, s);
    DigitsValid(t, USIZE_MODULUS);
    BulkLayout(w + x, t, s, x);
    BulkBodyRoundTrip(w + x, |t| + 3, |s|);
  }

  lemma CompleteInline(items: seq<RespType>, w: Bytes, line: Bytes, x: Bytes)
    requires InlineForm(w, line, items)
    ensures Parse(w + x) == Ok(Array(items), |w|)
  {
    hide FirstLine, Utf8.Valid, Utf8.Words, ParseArray;
    LineOf(line, x);
    assert w + x == line + CRLF + x;
  }

  lemma {:induction false} ParserComplete(v: RespType, w: Bytes, x: Bytes)
    requires Encodes(v, w)
    ensures Parse(w + x) == Ok(v, |w|)
    decreases v, 1
  {
    hide Parse, Decimal.ParseSigned, Decimal.ParseUnsigned, Utf8.Valid;
    match v
    case SimpleString(s) =>
      if LineForm(w, 43, s) {
        SimpleRoundTrip(43, s, x);
      } else {
        SimpleRoundTrip(45, s, x);
      }
    case Integer(n) => CompleteInteger(n, w, x);
    case BulkString(s) => CompleteBulk(s, w, x);
    case Array(items) =>
      if line :| InlineForm(w, line, items) {
        CompleteInline(items, w, line, x);
      } else {
        var t, body :| CountForm(w, t, body, |items|) && EncodesAll(items, body);
        CompleteArray(items, w, t, body, x);
      }
    case _ => CompleteFlag(v, w, x);
  }

  lemma {:induction false} CompleteArray(items: seq<RespType>, w: Bytes, t: Bytes, body: Bytes, x: Bytes)
    requires CountForm(w, t, body, |items|) && EncodesAll(items, body)
    ensures Parse(w + x) == Ok(Array(items), |w|)
    decreases items, 2
  {
    hide Parse, ParseElements, FirstLine, Decimal.ParseUnsigned, Utf8.Valid, EncodesAll;
    var b, tail := w + x, body + x;
    assert b == [42] + t + CRLF + tail;
    ParseIsArray(b);
    TaggedLine(42, t, tail);
    DigitsValid(t, USIZE_MODULUS);
    assert b[|t| + 3..] == tail;
    CompleteElements(items, body, x);
  }

  lemma {:induction false} CompleteElements(vs: seq<RespType>, w: Bytes, x: Bytes)
    requires EncodesAll(vs, w)
    ensures ParseElements(w + x, |vs|) == Elements(vs, |w|)
    decreases vs, 0
  {
    hide Parse, Encodes;
    if vs != [] {
      var k :| 0 <= k <= |w| && Encodes(vs[0], w[..k]) && EncodesAll(vs[1..], w[k..]);
      var rest := w[k..] + x;
      assert w + x == w[..k] + rest;
      ParserComplete(vs[0], w[..k], rest);
      assert (w + x)[k..] == rest;
      CompleteElements(vs[1..], w[k..], x);
      assert [vs[0]] + vs[1..] == vs;
    }
  }

  /** The parser returns a value and a length exactly when the buffer starts with a frame of that value and length. */
  lemma ParserIsGrammar(b: Bytes, v: RespType, n: nat)
    requires n <= |b| < USIZE_MODULUS
    ensures Parse(b) == Ok(v, n) <==> Encodes(v, b[..n])
  {
    hide Parse, Encodes;
    if Parse(b) == Ok(v, n) {
      ParserSound(b);
    }
    if Encodes(v, b[..n]) {
      ParserComplete(v, b[..n], b[n..]);
      assert b[..n] + b[n..] == b;
    }
  }
}
