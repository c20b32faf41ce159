/** UTF-8 as Rust's `str` sees it (section 4 of RFC 3629), with `from_utf8_lossy` and `split_whitespace`. */
module Utf8 {
  import opened ByteStrings

  predicate Cont(s: Bytes, i: nat) {
    i < |s| && 0x80 <= s[i] <= 0xBF
  }

  predicate SecondByteOk(s: Bytes)
    requires s != []
  {
    |s| > 1 &&
    match s[0]
    case 0xE0 => 0xA0 <= s[1] <= 0xBF
    case 0xED => 0x80 <= s[1] <= 0x9F
    case 0xF0 => 0x90 <= s[1] <= 0xBF
    case 0xF4 => 0x80 <= s[1] <= 0x8F
    case _ => 0x80 <= s[1] <= 0xBF
  }

  /** Number of bytes the lead byte announces; 0 for a byte that cannot start a character. */
  function Announced(lead: byte): nat {
    if lead < 0x80 then 1
    else if 0xC2 <= lead <= 0xDF then 2
    else if 0xE0 <= lead <= 0xEF then 3
    else if 0xF0 <= lead <= 0xF4 then 4
    else 0
  }

  /** Length of the well-formed character at the head of `s`, 0 when there is none. */
  function CharLen(s: Bytes): (n: nat)
    ensures n <= |s|
  {
    if s == [] then 0
    else
      var n := Announced(s[0]);
      if n <= 1 then n
      else if SecondByteOk(s) && (n >= 3 ==> Cont(s, 2)) && (n == 4 ==> Cont(s, 3)) then n
      else 0
  }

  predicate Valid(s: Bytes)
    decreases |s|
  {
    s == [] || (CharLen(s) > 0 && Valid(s[CharLen(s)..]))
  }

  lemma CharLenStable(s: Bytes, t: Bytes)
    requires CharLen(s) > 0
    ensures CharLen(s + t) == CharLen(s)
  {
  }

  /** What stands at the head of a valid string does not depend on what follows it. */
  lemma HeadStable(s: Bytes, t: Bytes)
    requires CharLen(s) > 0
    ensures CharLen(s + t) == CharLen(s)
    ensures SpaceAhead(s + t) == SpaceAhead(s)
    ensures (s + t)[CharLen(s)..] == s[CharLen(s)..] + t
  {
    CharLenStable(s, t);
    assert (s + t)[..CharLen(s)] == s[..CharLen(s)];
  }

  /** A valid prefix never influences whether the rest is valid. */
  lemma {:induction false} ValidConcat(a: Bytes, b: Bytes)
    requires Valid(a)
    ensures Valid(a + b) <==> Valid(b)
    decreases |a|
  {
    if a == [] {
      assert a + b == b;
    } else {
      HeadStable(a, b);
      ValidConcat(a[CharLen(a)..], b);
    }
  }

  lemma {:induction false} AsciiValid(s: Bytes)
    requires forall i :: 0 <= i < |s| ==> s[i] < 128
    ensures Valid(s)
    decreases |s|
  {
    if s != [] {
      AsciiValid(s[1..]);
    }
  }

  const REPLACEMENT: Bytes := [0xEF, 0xBF, 0xBD]

  /** Length of the ill-formed chunk that one replacement character stands for. */
  function BadLen(s: Bytes): (n: nat)
    requires s != [] && CharLen(s) == 0
    ensures 1 <= n <= |s|
  {
    if Announced(s[0]) < 2 || !SecondByteOk(s) then 1
    else if !Cont(s, 2) then 2
    else 3
  }

  /** `String::from_utf8_lossy`. */
  function Lossy(s: Bytes): Bytes
    decreases |s|
  {
    if s == [] then []
    else if CharLen(s) > 0 then s[..CharLen(s)] + Lossy(s[CharLen(s)..])
    else REPLACEMENT + Lossy(s[BadLen(s)..])
  }

  lemma {:induction false} LossyKeepsValid(s: Bytes)
    requires Valid(s)
    ensures Lossy(s) == s
    decreases |s|
  {
    if s != [] {
      LossyKeepsValid(s[CharLen(s)..]);
    }
  }

  /** Encodings of the code points with the Unicode property White_Space. */
  predicate IsSpace(c: Bytes) {
    if |c| == 1 then 9 <= c[0] <= 13 || c[0] == 32
    else if |c| == 2 then c[0] == 0xC2 && (c[1] == 0x85 || c[1] == 0xA0)
    else if |c| == 3 then
      || c == [0xE1, 0x9A, 0x80]
      || (c[0] == 0xE2 && c[1] == 0x80 && (0x80 <= c[2] <= 0x8A || c[2] == 0xA8 || c[2] == 0xA9 || c[2] == 0xAF))
      || c == [0xE2, 0x81, 0x9F]
      || c == [0xE3, 0x80, 0x80]
    else false
  }

  /** The string starts with a white-space character. */
  predicate SpaceAhead(s: Bytes) {
    s != [] && IsSpace(s[..CharLen(s)])
  }

  predicate AllSpace(s: Bytes)
    decreases |s|
  {
    s == [] || (CharLen(s) > 0 && SpaceAhead(s) && AllSpace(s[CharLen(s)..]))
  }

  /** Length of the longest prefix without white space. */
  function WordLen(s: Bytes): (n: nat)
    requires Valid(s)
    ensures n <= |s|
    ensures n == 0 <==> s == [] || SpaceAhead(s)
    decreases |s|
  {
    if s == [] || SpaceAhead(s) then 0
    else CharLen(s) + WordLen(s[CharLen(s)..])
  }

  lemma {:induction false} AfterWordValid(s: Bytes)
    requires Valid(s)
    ensures Valid(s[WordLen(s)..])
    decreases |s|
  {
    var n := WordLen(s);
    if n == 0 {
      assert s[n..] == s;
    } else {
      var rest := s[CharLen(s)..];
      AfterWordValid(rest);
      assert s[n..] == rest[WordLen(rest)..];
    }
  }

  lemma {:induction false} WordValid(s: Bytes)
    requires Valid(s)
    ensures Valid(s[..WordLen(s)])
    decreases |s|
  {
    var n := WordLen(s);
    if n > 0 {
      var rest := s[CharLen(s)..];
      WordValid(rest);
      HeadValid(s);
      ValidConcat(s[..CharLen(s)], rest[..WordLen(rest)]);
      assert s[..n] == s[..CharLen(s)] + rest[..WordLen(rest)];
    }
  }

  lemma HeadValid(s: Bytes)
    requires CharLen(s) > 0
    ensures CharLen(s[..CharLen(s)]) == CharLen(s) && Valid(s[..CharLen(s)])
  {
    assert s[..CharLen(s)][CharLen(s)..] == [];
  }

  predicate IsWord(w: Bytes) {
    w != [] && Valid(w) && WordLen(w) == |w|
  }

  /** `str::split_whitespace`. */
  function Words(s: Bytes): seq<Bytes>
    requires Valid(s)
    decreases |s|
  {
    if s == [] then []
    else if SpaceAhead(s) then Words(s[CharLen(s)..])
    else
      AfterWordValid(s);
      [s[..WordLen(s)]] + Words(s[WordLen(s)..])
  }

  lemma {:induction false} WordsValid(s: Bytes)
    requires Valid(s)
    ensures forall i :: 0 <= i < |Words(s)| ==> Valid(Words(s)[i]) && |Words(s)[i]| <= |s|
    ensures |Words(s)| <= |s|
    decreases |s|
  {
    if s == [] {
    } else if SpaceAhead(s) {
      WordsValid(s[CharLen(s)..]);
    } else {
      WordValid(s);
      AfterWordValid(s);
      WordsValid(s[WordLen(s)..]);
    }
  }

  lemma {:induction false} SpacesValid(p: Bytes)
    requires AllSpace(p)
    ensures Valid(p)
    decreases |p|
  {
    if p != [] {
      SpacesValid(p[CharLen(p)..]);
    }
  }

  lemma {:induction false} WordsSkipSpaces(p: Bytes, s: Bytes)
    requires AllSpace(p) && Valid(s)
    ensures Valid(p + s) && Words(p + s) == Words(s)
    decreases |p|
  {
    SpacesValid(p);
    ValidConcat(p, s);
    if p == [] {
      assert p + s == s;
    } else {
      var n := CharLen(p);
      HeadStable(p, s);
      WordsSkipSpaces(p[n..], s);
    }
  }

  lemma WordLenStep(s: Bytes)
    requires Valid(s) && s != [] && !SpaceAhead(s)
    ensures WordLen(s) == CharLen(s) + WordLen(s[CharLen(s)..])
  {
  }

  lemma {:induction false} WordLenStops(w: Bytes, s: Bytes)
    requires Valid(w) && WordLen(w) == |w| && Valid(s) && (s == [] || SpaceAhead(s))
    ensures Valid(w + s) && WordLen(w + s) == |w|
    decreases |w|
  {
    ValidConcat(w, s);
    if w == [] {
      assert w + s == s;
    } else {
      var n := CharLen(w);
      HeadStable(w, s);
      WordLenStep(w);
      WordLenStep(w + s);
      WordLenStops(w[n..], s);
    }
  }

  lemma WordsTakeWord(w: Bytes, s: Bytes)
    requires IsWord(w) && Valid(s) && (s == [] || SpaceAhead(s))
    ensures Valid(w + s) && Words(w + s) == [w] + Words(s)
  {
    WordLenStops(w, s);
    assert (w + s)[..|w|] == w && (w + s)[|w|..] == s;
  }
}
