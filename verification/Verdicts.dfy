/**
 The parser's other verdicts by the shape of the buffer: what it rejects, what it panics on, and what it
 waits for.
 */
module Verdicts {
  import opened ByteStrings
  import opened RespTypes
  import opened RespParser
  import opened RespProofs
  import opened Grammar
  import Decimal
  import Utf8

  /** A buffer that starts with a type byte and a line; `body` is what follows them. */
  ghost predicate Headed(b: Bytes, tag: byte, t: Bytes, body: Bytes) {
    b == [tag] + t + CRLF + body && !HasCrlf(t)
  }

  /** The line reads as a count or a length. */
  predicate Reads(t: Bytes, n: nat) {
    Decimal.ParseUnsigned(t, USIZE_MODULUS) == Some(n)
  }

  predicate Unreadable(t: Bytes) {
    Decimal.ParseUnsigned(t, USIZE_MODULUS).None?
  }

  /** The two ways a buffer can be wrong: the parser rejects it, or it panics. */
  datatype Flaw = Broken | Fatal

  predicate Shows(r: ParseResult, flaw: Flaw) {
    if flaw.Fatal? then r.Panic? else r.Invalid?
  }

  // ---- Flawed buffers ----

  /** A length so large that the position behind the body wraps around, to a position within the buffer. */
  predicate Wraps(t: Bytes, body: Bytes, n: nat) {
    |t| + 5 + n >= USIZE_MODULUS && n + 2 - USIZE_MODULUS <= |body|
  }

  /** A body of the announced length that is not text or not followed by a line end. */
  predicate BadBody(t: Bytes, body: Bytes, n: nat) {
    |t| + 5 + n < USIZE_MODULUS && n + 2 <= |body| && (body[n..n + 2] != CRLF || !Utf8.Valid(body[..n]))
  }

  /** A line that its type does not allow. */
  predicate BadLine(tag: byte, t: Bytes) {
    || ((tag == 43 || tag == 45) && !Utf8.Valid(t))
    || (tag == 58 && Decimal.ParseSigned(t, I64_MIN, I64_MAX).None?)
    || (tag == 35 && t != [116] && t != [102])
    || ((tag == 36 || tag == 42) && Unreadable(t))
  }

  /** A flaw of the line behind the type byte, or of the bulk string it announces. */
  ghost predicate HeadFlaw(tag: byte, t: Bytes, body: Bytes, flaw: Flaw) {
    match flaw
    case Fatal => exists n: nat :: Reads(t, n) && ((tag == 36 && Wraps(t, body, n)) || (tag == 42 && !FitsVec(n)))
    case Broken => BadLine(tag, t) || exists n: nat :: Reads(t, n) && tag == 36 && BadBody(t, body, n)
  }

  /** An inline line that is not text. */
  ghost predicate BadInline(b: Bytes, line: Bytes, rest: Bytes) {
    b == line + CRLF + rest && !HasCrlf(line) && line != [] && !IsTypeByte(line[0]) && !Utf8.Valid(line)
  }

  ghost predicate FlatFlaw(b: Bytes, flaw: Flaw) {
    || (exists tag, t, body :: Headed(b, tag, t, body) && HeadFlaw(tag, t, body, flaw))
    || (flaw.Broken? && exists line, rest :: BadInline(b, line, rest))
  }

  /** An array of which fewer elements than announced are complete; they end `k` bytes behind the count line. */
  ghost predicate Started(b: Bytes, t: Bytes, body: Bytes, n: nat, vs: seq<RespType>, k: nat) {
    && Headed(b, 42, t, body) && Reads(t, n) && FitsVec(n)
    && |vs| < n && k <= |body| && EncodesAll(vs, body[..k])
  }

  /** A flaw at the head of the buffer, or in an array behind its complete elements. */
  ghost predicate Flawed(b: Bytes, flaw: Flaw)
    decreases |b|
  {
    || FlatFlaw(b, flaw)
    || exists t, body, n, vs, k :: Started(b, t, body, n, vs, k) && Flawed(body[k..], flaw)
  }

  // ---- Lines ----

  /** The line behind a type byte is determined by the buffer. */
  lemma HeadedLine(b: Bytes, tag: byte, t: Bytes, body: Bytes)
    requires Headed(b, tag, t, body)
    ensures b != [] && b[0] == tag && FirstLine(b[1..]) == Line(t, |t| + 2) && b[|t| + 3..] == body
  {
    hide FirstLine;
    TaggedLine(tag, t, body);
  }

  lemma LineHeads(b: Bytes)
    requires b != [] && FirstLine(b[1..]).Line?
    ensures var line := FirstLine(b[1..]); Headed(b, b[0], line.data, b[line.len + 1..])
  {
    hide FirstLine;
    LineOfFrame(b);
    var line := FirstLine(b[1..]);
    assert b == b[..line.len + 1] + b[line.len + 1..];
  }

  /** Behind a type byte a flat flaw is one of the first line. */
  lemma TypedFlaw(b: Bytes, flaw: Flaw)
    requires b != [] && IsTypeByte(b[0])
    ensures var line := FirstLine(b[1..]);
      FlatFlaw(b, flaw) <==> line.Line? && HeadFlaw(b[0], line.data, b[line.len + 1..], flaw)
  {
    hide FirstLine, HeadFlaw;
    if FirstLine(b[1..]).Line? {
      LineHeads(b);
    }
    forall tag, t, body | Headed(b, tag, t, body)
      ensures var line := FirstLine(b[1..]); b[0] == tag && line.Line? && line.data == t && b[line.len + 1..] == body
    {
      HeadedLine(b, tag, t, body);
    }
  }

  lemma UsizeIs(t: Bytes)
    ensures ParseUsize(t).Failure? <==> Unreadable(t)
    ensures forall n: nat :: ParseUsize(t) == Success(n) <==> Reads(t, n)
  {
    hide Utf8.Valid, Decimal.ParseUnsigned;
    if !Unreadable(t) {
      DigitsValid(t, USIZE_MODULUS);
    }
  }

  // ---- Flat buffers ----

  lemma LineVerdict(b: Bytes, flaw: Flaw)
    requires b != [] && IsTypeByte(b[0]) && b[0] != 36 && b[0] != 42
    ensures Shows(Parse(b), flaw) <==> FlatFlaw(b, flaw)
  {
    hide FirstLine, Utf8.Valid, ParseArray, ParseBulkString, Decimal.ParseSigned, FlatFlaw;
    TypedFlaw(b, flaw);
    var line := FirstLine(b[1..]);
    if b[0] == 58 && line.Line? && Decimal.ParseSigned(line.data, I64_MIN, I64_MAX).Some? {
      NumberValid(line.data, I64_MIN, I64_MAX);
    }
  }

  lemma BodyVerdict(b: Bytes, t: Bytes, body: Bytes, n: nat, flaw: Flaw)
    requires Headed(b, 36, t, body) && n < USIZE_MODULUS && |b| <= ISIZE_MAX
    ensures Shows(ParseBulkBody(b, |t| + 3, n), flaw) <==>
      if flaw.Fatal? then Wraps(t, body, n) else BadBody(t, body, n)
  {
    hide Utf8.Valid;
    BulkOverflow(b, |t| + 3, n);
    var start := |t| + 3;
    if start + n + 2 <= |b| {
      assert b[start..start + n] == body[..n] && b[start + n..start + n + 2] == body[n..n + 2];
    }
  }

  lemma BulkVerdict(b: Bytes, flaw: Flaw)
    requires b != [] && b[0] == 36 && |b| <= ISIZE_MAX
    ensures Shows(Parse(b), flaw) <==> FlatFlaw(b, flaw)
  {
    hide FirstLine, ParseUsize, ParseBulkBody, FlatFlaw, Unreadable, Reads, Wraps, BadBody, ParseArray;
    TypedFlaw(b, flaw);
    var line := FirstLine(b[1..]);
    if line.Line? {
      LineHeads(b);
      UsizeIs(line.data);
      var size, body := ParseUsize(line.data), b[line.len + 1..];
      if size.Success? {
        BodyVerdict(b, line.data, body, size.value, flaw);
        assert Reads(line.data, size.value);
      }
    }
  }

  lemma InlineVerdict(b: Bytes, flaw: Flaw)
    requires b != [] && !IsTypeByte(b[0])
    ensures Shows(Parse(b), flaw) <==> FlatFlaw(b, flaw)
  {
    hide FirstLine, Utf8.Valid, Utf8.Words;
    var line := FirstLine(b);
    forall t, rest | BadInline(b, t, rest) ensures line.Line? && line.data == t {
      LineOf(t, rest);
    }
    forall tag, t, body | Headed(b, tag, t, body) ensures !HeadFlaw(tag, t, body, flaw) {
      assert tag == b[0];
    }
    if line.Line? && !Utf8.Valid(line.data) {
      FirstLineHasNoCrlf(b);
      assert b == line.data + CRLF + b[line.len..];
      Utf8.AsciiValid([]);
      assert BadInline(b, line.data, b[line.len..]);
    }
  }

  // ---- Arrays ----

  /** Where a run of elements stops: behind complete elements, fewer than announced. */
  lemma {:induction false} StopsBehind(b: Bytes, count: nat) returns (vs: seq<RespType>, k: nat)
    requires ParseElements(b, count).Stopped? && |b| < USIZE_MODULUS
    ensures |vs| < count && k <= |b| && EncodesAll(vs, b[..k])
    ensures ParseElements(b, count) == Stopped(Parse(b[k..]))
    decreases |b|, count
  {
    hide Parse, Encodes;
    if Parse(b).Ok? {
      var v, n := Parse(b).value, Parse(b).consumed;
      ParserSound(b);
      var more, m := StopsBehind(b[n..], count - 1);
      vs, k := [v] + more, n + m;
      assert b[..k][..n] == b[..n] && b[..k][n..] == b[n..][..m] && b[k..] == b[n..][m..];
      assert vs[0] == v && vs[1..] == more;
    } else {
      vs, k := [], 0;
      assert b[0..] == b;
    }
  }

  /** And it stops there for certain. */
  lemma StopsThere(b: Bytes, count: nat, vs: seq<RespType>, k: nat)
    requires |vs| < count && k <= |b| && EncodesAll(vs, b[..k]) && !Parse(b[k..]).Ok?
    ensures ParseElements(b, count) == Stopped(Parse(b[k..]))
  {
    hide Parse, ParseElements, EncodesAll;
    CompleteElements(vs, b[..k], b[k..]);
    assert b[..k] + b[k..] == b;
    ElementsSnoc(b, |vs|);
    StoppedStays(b, |vs| + 1, count);
  }

  lemma FlatStays(b: Bytes, flaw: Flaw)
    requires b == [] || b[0] != 42
    ensures Flawed(b, flaw) <==> FlatFlaw(b, flaw)
  {
    hide FlatFlaw, Reads;
  }

  lemma NothingFlawed(flaw: Flaw)
    ensures !FlatFlaw([], flaw) && Parse([]).Incomplete?
  {
    hide HeadFlaw;
  }

  /** An array whose count can be read and held: a flaw in it is one behind its complete elements. */
  lemma CountedFlaw(b: Bytes, t: Bytes, body: Bytes, n: nat, flaw: Flaw)
    requires Headed(b, 42, t, body) && Reads(t, n) && FitsVec(n)
    ensures !FlatFlaw(b, flaw)
    ensures forall x, y, m, vs, k :: Started(b, x, y, m, vs, k) ==> x == t && y == body && m == n
  {
    hide FirstLine;
    HeadedLine(b, 42, t, body);
    TypedFlaw(b, flaw);
    forall x, y, m, vs, k | Started(b, x, y, m, vs, k) ensures x == t && y == body && m == n {
      HeadedLine(b, 42, x, y);
    }
  }

  lemma UncountedFlaw(b: Bytes, flaw: Flaw)
    requires b != [] && b[0] == 42
    requires var line := FirstLine(b[1..]);
      line.Line? && ParseUsize(line.data).Success? ==> !FitsVec(ParseUsize(line.data).value)
    ensures Flawed(b, flaw) <==> FlatFlaw(b, flaw)
    ensures Shows(ParseArray(b), flaw) <==> FlatFlaw(b, flaw)
  {
    hide FirstLine, ParseUsize, FlatFlaw, Unreadable, Reads, EncodesAll, ParseElements;
    TypedFlaw(b, flaw);
    var line := FirstLine(b[1..]);
    if line.Line? {
      UsizeIs(line.data);
      if ParseUsize(line.data).Success? {
        assert Reads(line.data, ParseUsize(line.data).value);
      }
    }
    forall t, body, n, vs, k | Started(b, t, body, n, vs, k) ensures false {
      HeadedLine(b, 42, t, body);
      UsizeIs(t);
    }
  }

  /**
   The parser rejects exactly the malformed buffers and panics exactly on the fatal ones. Both kinds are
   given by their shape alone, at any nesting.
   */
  lemma {:induction false} FlawExactly(b: Bytes, flaw: Flaw)
    requires |b| <= ISIZE_MAX
    ensures Shows(Parse(b), flaw) <==> Flawed(b, flaw)
    decreases |b|, 2
  {
    hide Parse, FlatFlaw, Flawed, ParseArray;
    if b == [] {
      NothingFlawed(flaw);
      FlatStays(b, flaw);
    } else if b[0] == 42 {
      ParseIsArray(b);
      ArrayFlaw(b, flaw);
    } else {
      FlatStays(b, flaw);
      if !IsTypeByte(b[0]) {
        InlineVerdict(b, flaw);
      } else if b[0] == 36 {
        BulkVerdict(b, flaw);
      } else {
        LineVerdict(b, flaw);
      }
    }
  }

  lemma {:induction false} ArrayFlaw(b: Bytes, flaw: Flaw)
    requires b != [] && b[0] == 42 && |b| <= ISIZE_MAX
    ensures Shows(ParseArray(b), flaw) <==> Flawed(b, flaw)
    decreases |b|, 1
  {
    hide Parse, ParseElements, ParseUsize, FirstLine, FlatFlaw, Reads, EncodesAll;
    var line := FirstLine(b[1..]);
    if line.NoLine? || ParseUsize(line.data).Failure? || !FitsVec(ParseUsize(line.data).value) {
      UncountedFlaw(b, flaw);
    } else {
      var t, body, n := line.data, b[line.len + 1..], ParseUsize(line.data).value;
      LineHeads(b);
      UsizeIs(t);
      CountedFlaw(b, t, body, n, flaw);
      ElementsFlaw(b, t, body, n, flaw);
    }
  }

  lemma {:induction false} ElementsFlaw(b: Bytes, t: Bytes, body: Bytes, n: nat, flaw: Flaw)
    requires Headed(b, 42, t, body) && Reads(t, n) && FitsVec(n) && |b| <= ISIZE_MAX
    requires !FlatFlaw(b, flaw)
    requires forall x, y, m, vs, k :: Started(b, x, y, m, vs, k) ==> x == t && y == body && m == n
    ensures Flawed(b, flaw) <==> (var r := ParseElements(body, n); r.Stopped? && Shows(r.verdict, flaw))
    decreases |b|, 0
  {
    hide Parse, ParseElements, FlatFlaw, EncodesAll, Reads;
    var r := ParseElements(body, n);
    if r.Stopped? && Shows(r.verdict, flaw) {
      var vs, k := StopsBehind(body, n);
      FlawExactly(body[k..], flaw);
      assert Started(b, t, body, n, vs, k);
    }
    forall vs, k: nat | Started(b, t, body, n, vs, k) && Flawed(body[k..], flaw)
      ensures r.Stopped? && Shows(r.verdict, flaw)
    {
      FlawExactly(body[k..], flaw);
      StopsThere(body, n, vs, k);
    }
  }

  // ---- A count that no vector can hold ----

  lemma NumeralHasNoLineEnd(t: Bytes, n: nat)
    requires Reads(t, n)
    ensures !HasCrlf(t)
  {
    var digits := if t != [] && t[0] == 43 then t[1..] else t;
    assert forall i :: 0 < i < |t| && digits == t[1..] ==> digits[i - 1] == t[i];
    assert forall i :: 0 <= i < |t| ==> t[i] != CR;
  }

  /** Every count line of two to the 58 or more, whatever follows it. */
  lemma HugeCountPanics(t: Bytes, n: nat, x: Bytes)
    requires Reads(t, n) && n >= 0x400_0000_0000_0000
    ensures Parse([42] + t + CRLF + x).Panic?
  {
    hide FirstLine, Reads, ParseElements;
    var b := [42] + t + CRLF + x;
    NumeralHasNoLineEnd(t, n);
    HeadedLine(b, 42, t, x);
    UsizeIs(t);
  }

  // ---- Buffers without a verdict ----

  ghost predicate HasFrame(b: Bytes) {
    exists v, n :: 0 <= n <= |b| && Encodes(v, b[..n])
  }

  /** The parser waits exactly when the buffer holds no frame at its head and has no flaw. */
  lemma WaitsExactly(b: Bytes)
    requires |b| <= ISIZE_MAX
    ensures Parse(b).Incomplete? <==> !HasFrame(b) && !Flawed(b, Broken) && !Flawed(b, Fatal)
  {
    hide Parse, Encodes, Flawed;
    FlawExactly(b, Broken);
    FlawExactly(b, Fatal);
    if Parse(b).Ok? {
      ParserSound(b);
    }
    if v, n :| 0 <= n <= |b| && Encodes(v, b[..n]) {
      ParserIsGrammar(b, v, n);
    }
  }

  const BAD: Bytes := [35, 13, 10]

  lemma BadRejected(n: nat)
    ensures Parse(BAD).Invalid?
    ensures n > 0 ==> ParseElements(BAD, n) == Stopped(Parse(BAD))
  {
    hide ParseArray;
    assert BAD == [35] + [] + CRLF + [];
    TaggedLine(35, [], []);
  }

  function Zeros(n: nat): (r: Bytes)
    ensures |r| == n
  {
    seq(n, _ => 0)
  }

  lemma CompletedLine(b: Bytes)
    requires b != [] && b[0] != 36 && b[0] != 42
    ensures !Parse(b + CRLF).Incomplete?
  {
    hide FirstLine, Utf8.Valid, Utf8.Words, ParseArray, ParseBulkString, Decimal.ParseSigned;
    var w := b + CRLF;
    assert w[1..] == b[1..] + CRLF;
    assert CrlfAt(w, |b|) && CrlfAt(w[1..], |b| - 1);
  }

  /** Enough bytes complete any bulk string, or show what is wrong with it. */
  lemma CompletedBulk(b: Bytes, t: Bytes, body: Bytes)
    requires Headed(b, 36, t, body) && (Unreadable(t) || exists n: nat :: Reads(t, n) && |body| >= n + 2)
    ensures !Parse(b).Incomplete?
  {
    hide FirstLine, Utf8.Valid, Reads, Unreadable, ParseUsize, ParseArray;
    HeadedLine(b, 36, t, body);
    UsizeIs(t);
    if ParseUsize(t).Success? {
      var n: nat :| Reads(t, n) && |body| >= n + 2;
      Wrapped(|t| + 3, n);
    }
  }

  lemma Wrapped(start: nat, n: nat)
    ensures WrapUsize(WrapUsize(start + n) + 2) <= start + n + 2
  {
  }

  lemma BulkCompletable(b: Bytes) returns (x: Bytes)
    requires b != [] && b[0] == 36
    ensures !Parse(b + x).Incomplete?
  {
    hide Parse, Reads, Unreadable, FirstLine;
    var t, body := b[1..], [];
    if FirstLine(b[1..]).Line? {
      LineHeads(b);
      t, body := FirstLine(b[1..]).data, b[FirstLine(b[1..]).len + 1..];
      x := [];
    } else {
      assert b + CRLF == [36] + t + CRLF + [];
      x := CRLF;
    }
    assert Headed(b + x, 36, t, body) by { assert b + [] == b; }
    var n := ReadOrZero(t);
    assert b + (x + Zeros(n + 2)) == [36] + t + CRLF + (body + Zeros(n + 2));
    x := x + Zeros(n + 2);
    CompletedBulk(b + x, t, body + Zeros(n + 2));
  }

  lemma ReadOrZero(t: Bytes) returns (n: nat)
    ensures Unreadable(t) || Reads(t, n)
  {
    n := if Unreadable(t) then 0 else Decimal.ParseUnsigned(t, USIZE_MODULUS).value;
  }

  /** Some bytes give every waiting buffer a verdict: the parser never waits for nothing. */
  lemma {:induction false} Completable(b: Bytes) returns (x: Bytes)
    requires Parse(b).Incomplete?
    ensures !Parse(b + x).Incomplete?
    decreases |b|, 0
  {
    hide Parse;
    if b == [] {
      x := BAD;
      BadRejected(0);
      assert b + x == BAD;
    } else if b[0] == 42 {
      x := ArrayCompletable(b);
    } else if b[0] == 36 {
      x := BulkCompletable(b);
    } else {
      x := CRLF;
      CompletedLine(b);
    }
  }

  lemma ArrayVerdict(b: Bytes, t: Bytes, body: Bytes)
    requires Headed(b, 42, t, body)
    requires forall n: nat :: Reads(t, n) ==> ParseElements(body, n) != Stopped(Incomplete)
    ensures !Parse(b).Incomplete?
  {
    hide Parse, FirstLine, ParseUsize, Reads, Unreadable, ParseElements;
    HeadedLine(b, 42, t, body);
    ParseIsArray(b);
    UsizeIs(t);
  }

  lemma {:induction false} ArrayCompletable(b: Bytes) returns (x: Bytes)
    requires b != [] && b[0] == 42 && Parse(b).Incomplete?
    ensures !Parse(b + x).Incomplete?
    decreases |b|, 0, 0
  {
    hide Parse, FirstLine, Reads, Unreadable, ParseElements;
    if FirstLine(b[1..]).Line? {
      LineHeads(b);
      var t, body := FirstLine(b[1..]).data, b[FirstLine(b[1..]).len + 1..];
      var n := ReadOrZero(t);
      x := [];
      if Reads(t, n) && ParseElements(body, n) == Stopped(Incomplete) {
        x := ElementsCompletable(body, n);
      }
      assert Headed(b + x, 42, t, body + x) by { assert b + x == [42] + t + CRLF + (body + x); }
      assert body + [] == body;
      ReadsOnce(t, n);
      ArrayVerdict(b + x, t, body + x);
    } else {
      x := CRLF + BAD;
      assert b + x == [42] + b[1..] + CRLF + BAD;
      forall n: nat ensures ParseElements(BAD, n) != Stopped(Incomplete) {
        BadRejected(n);
        NoElements(BAD);
      }
      ArrayVerdict(b + x, b[1..], BAD);
    }
  }

  lemma ReadsOnce(t: Bytes, n: nat)
    requires Unreadable(t) || Reads(t, n)
    ensures forall m: nat :: Reads(t, m) ==> m == n
  {
  }

  lemma {:induction false} ElementsCompletable(b: Bytes, count: nat) returns (x: Bytes)
    requires ParseElements(b, count) == Stopped(Incomplete)
    ensures ParseElements(b + x, count) != Stopped(Incomplete)
    decreases |b|, 1, count
  {
    hide Parse;
    if Parse(b).Ok? {
      var n := Parse(b).consumed;
      x := ElementsCompletable(b[n..], count - 1);
      ParseStable(b, x);
      assert (b + x)[n..] == b[n..] + x;
    } else {
      var y := Completable(b);
      x := LastElement(b, y, count);
    }
  }

  /** Bytes that give the element a verdict give the run of elements one, if need be with one malformed element more. */
  lemma LastElement(b: Bytes, y: Bytes, count: nat) returns (x: Bytes)
    requires count > 0 && Parse(b).Incomplete? && !Parse(b + y).Incomplete?
    ensures ParseElements(b + x, count) != Stopped(Incomplete)
  {
    hide Parse;
    x := y;
    if Parse(b + y).Ok? {
      var m := Parse(b + y).consumed;
      FrameVerdicts(b + y, |b|);
      assert (b + y)[..|b|] == b;
      FrameVerdicts(b + y, m);
      var w := (b + y)[..m];
      x := w[|b|..] + BAD;
      assert b + x == w + BAD;
      ParseStable(w, BAD);
      assert (w + BAD)[m..] == BAD;
      BadRejected(count - 1);
      NoElements(BAD);
    }
  }

  // ---- Complaints ----

  /** What is wrong with a line or with the body it announces, in the words of the reply. */
  function Complaint(tag: byte, t: Bytes, body: Bytes): Bytes {
    if tag == 43 || tag == 45 then Ascii("Simple string value is not a valid utf8 string.")
    else if tag == 58 then
      (if Utf8.Valid(t) then Ascii("Invalid integer value.") else Ascii("Integer value is not valid."))
    else if tag == 35 then Ascii("Invalid value for boolean. Only \"t\" or \"f\" is accepted.")
    else if !Utf8.Valid(t) then Ascii("Invalid UTF-8 string.")
    else match Decimal.ParseUnsigned(t, USIZE_MODULUS)
         case None => Ascii("Invalid value for an integer.")
         case Some(n) =>
           if n + 2 <= |body| && body[n..n + 2] != CRLF then Ascii("Missing CRLF after bulk string")
           else Ascii("Invalid UTF-8")
  }

  lemma LineComplaint(b: Bytes, tag: byte, t: Bytes, body: Bytes)
    requires Headed(b, tag, t, body) && IsTypeByte(tag) && tag != 36 && tag != 42 && BadLine(tag, t)
    ensures Parse(b) == Invalid(Complaint(tag, t, body))
  {
    hide FirstLine, Utf8.Valid, ParseArray, ParseBulkString, Decimal.ParseSigned, Decimal.ParseUnsigned, Ascii;
    HeadedLine(b, tag, t, body);
  }

  lemma CountComplaint(b: Bytes, tag: byte, t: Bytes, body: Bytes)
    requires Headed(b, tag, t, body) && (tag == 36 || tag == 42) && Unreadable(t)
    ensures Parse(b) == Invalid(Complaint(tag, t, body))
  {
    hide FirstLine, Utf8.Valid, Decimal.ParseUnsigned, Ascii, ParseElements;
    HeadedLine(b, tag, t, body);
  }

  lemma BodyComplaint(b: Bytes, t: Bytes, body: Bytes, n: nat)
    requires Headed(b, 36, t, body) && Reads(t, n) && BadBody(t, body, n)
    ensures Parse(b) == Invalid(Complaint(36, t, body))
  {
    hide FirstLine, Utf8.Valid, Decimal.ParseUnsigned, Ascii, ParseArray;
    HeadedLine(b, 36, t, body);
    DigitsValid(t, USIZE_MODULUS);
    var start := |t| + 3;
    assert b[start..start + n] == body[..n] && b[start + n..start + n + 2] == body[n..n + 2];
  }

  /** The complaint about a flaw of the head, and that a flaw inside an array is complained about in the same words. */
  lemma ComplaintExactly(b: Bytes)
    ensures forall tag, t, body ::
      Headed(b, tag, t, body) && IsTypeByte(tag) && HeadFlaw(tag, t, body, Broken) ==>
        Parse(b) == Invalid(Complaint(tag, t, body))
    ensures forall line, rest :: BadInline(b, line, rest) ==> Parse(b) == Invalid(Ascii("Invalid inline command"))
    ensures forall t, body, n: nat, vs, k: nat :: Started(b, t, body, n, vs, k) && Parse(body[k..]).Invalid? ==>
      Parse(b) == Parse(body[k..])
  {
    hide Parse, Complaint, BadLine, Reads, BadBody, Unreadable, EncodesAll;
    forall tag, t, body | Headed(b, tag, t, body) && IsTypeByte(tag) && HeadFlaw(tag, t, body, Broken)
      ensures Parse(b) == Invalid(Complaint(tag, t, body))
    {
      HeadComplaint(b, tag, t, body);
    }
    forall line, rest | BadInline(b, line, rest) ensures Parse(b) == Invalid(Ascii("Invalid inline command")) {
      InlineComplaint(b, line, rest);
    }
    forall t, body, n: nat, vs, k: nat | Started(b, t, body, n, vs, k) && Parse(body[k..]).Invalid?
      ensures Parse(b) == Parse(body[k..])
    {
      ElementComplaint(b, t, body, n, vs, k);
    }
  }

  lemma HeadComplaint(b: Bytes, tag: byte, t: Bytes, body: Bytes)
    requires Headed(b, tag, t, body) && IsTypeByte(tag) && HeadFlaw(tag, t, body, Broken)
    ensures Parse(b) == Invalid(Complaint(tag, t, body))
  {
    hide Parse, Complaint, Reads, BadBody, Unreadable, Headed;
    if n: nat :| Reads(t, n) && tag == 36 && BadBody(t, body, n) {
      BodyComplaint(b, t, body, n);
    } else if tag == 36 || tag == 42 {
      CountComplaint(b, tag, t, body);
    } else {
      LineComplaint(b, tag, t, body);
    }
  }

  lemma InlineComplaint(b: Bytes, line: Bytes, rest: Bytes)
    requires BadInline(b, line, rest)
    ensures Parse(b) == Invalid(Ascii("Invalid inline command"))
  {
    hide FirstLine, Utf8.Valid, Utf8.Words, Ascii;
    LineOf(line, rest);
    assert b[0] == line[0];
  }

  lemma ElementComplaint(b: Bytes, t: Bytes, body: Bytes, n: nat, vs: seq<RespType>, k: nat)
    requires Started(b, t, body, n, vs, k) && !Parse(body[k..]).Ok?
    ensures Parse(b) == Parse(body[k..])
  {
    hide Parse, FirstLine, ParseElements, Reads, EncodesAll, ParseUsize;
    HeadedLine(b, 42, t, body);
    ParseIsArray(b);
    UsizeIs(t);
    StopsThere(body, n, vs, k);
  }
}
