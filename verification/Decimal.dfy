/** Decimal text of integers: what `itoa`/`format!` print and what Rust's `str::parse` accepts. */
module Decimal {
  import opened ByteStrings

  predicate AllDigits(s: Bytes) {
    forall i :: 0 <= i < |s| ==> 48 <= s[i] <= 57
  }

  function Value(s: Bytes): nat
    requires AllDigits(s)
  {
    if s == [] then 0 else 10 * Value(s[..|s| - 1]) + (s[|s| - 1] as int - 48)
  }

  function Print(n: nat): (s: Bytes)
    ensures s != [] && AllDigits(s)
  {
    if n < 10 then [(48 + n) as byte] else Print(n / 10) + [(48 + n % 10) as byte]
  }

  function PrintInt(n: int): Bytes {
    if n < 0 then [45] + Print(-n) else Print(n)
  }

  function Magnitude(s: Bytes): Option<nat> {
    if s != [] && AllDigits(s) then Some(Value(s)) else None
  }

  /** Unsigned `parse`: an optional `+`, then digits, the value below `modulus`. */
  function ParseUnsigned(s: Bytes, modulus: int): (r: Option<nat>)
    ensures r.Some? ==> r.value < modulus
  {
    var body := if s != [] && s[0] == 43 then s[1..] else s;
    match Magnitude(body)
    case Some(n) => if n < modulus then Some(n) else None
    case None => None
  }

  /** Signed `parse`: an optional sign, then digits, the value within `[lo, hi]`. */
  function ParseSigned(s: Bytes, lo: int, hi: int): (r: Option<int>)
    ensures r.Some? ==> lo <= r.value <= hi
  {
    var negative := s != [] && s[0] == 45;
    var body := if s != [] && (s[0] == 43 || s[0] == 45) then s[1..] else s;
    match Magnitude(body)
    case None => None
    case Some(n) =>
      var v: int := if negative then -(n as int) else n;
      if lo <= v <= hi then Some(v) else None
  }

  lemma {:induction false} ValueOfPrint(n: nat)
    ensures Value(Print(n)) == n
  {
    if n >= 10 {
      ValueOfPrint(n / 10);
      assert Print(n)[..|Print(n)| - 1] == Print(n / 10);
    }
  }

  lemma MagnitudeOfPrint(n: nat)
    ensures Magnitude(Print(n)) == Some(n)
  {
    ValueOfPrint(n);
  }

  /** A printed length is read back, whatever the width it is read at allows. */
  lemma UnsignedRoundTrip(n: nat, modulus: int)
    ensures ParseUnsigned(Print(n), modulus) == if n < modulus then Some(n) else None
  {
    MagnitudeOfPrint(n);
    assert 48 <= Print(n)[0] <= 57;
  }

  /** Every integer of a signed width survives printing and parsing; nothing outside it does. */
  lemma SignedRoundTrip(n: int, lo: int, hi: int)
    ensures ParseSigned(PrintInt(n), lo, hi) == if lo <= n <= hi then Some(n) else None
  {
    var s := PrintInt(n);
    if n < 0 {
      MagnitudeOfPrint(-n);
      assert s[0] == 45 && s[1..] == Print(-n);
    } else {
      MagnitudeOfPrint(n);
      assert 48 <= s[0] <= 57;
    }
  }

  lemma {:induction false} PrintShort(n: nat)
    ensures |Print(n)| <= 1 + n / 2
  {
    if n >= 10 {
      PrintShort(n / 10);
    }
  }

  lemma PrintAscii(n: int)
    ensures forall i :: 0 <= i < |PrintInt(n)| ==> 45 <= PrintInt(n)[i] <= 57
  {
  }

  /** A numeral: a non-empty run of digits behind one of the allowed signs. */
  predicate Numeral(s: Bytes, sign: Bytes, digits: Bytes) {
    s == sign + digits && digits != [] && AllDigits(digits)
  }

  /** The digits `d` and an optional plus read as `n`. */
  predicate ReadsAs(s: Bytes, d: Bytes, n: int) {
    (Numeral(s, [], d) || Numeral(s, [43], d)) && Value(d) == n
  }

  /** The digits `d` behind a minus read as `n`. */
  predicate ReadsAsNegative(s: Bytes, d: Bytes, n: int) {
    Numeral(s, [45], d) && 0 - Value(d) == n
  }

  /** What unsigned parsing accepts. */
  lemma UnsignedAccepts(s: Bytes, modulus: int, n: nat)
    ensures ParseUnsigned(s, modulus) == Some(n) <==> n < modulus && exists d :: ReadsAs(s, d, n)
  {
    var body := if s != [] && s[0] == 43 then s[1..] else s;
    if ParseUnsigned(s, modulus) == Some(n) {
      assert s == [] + body || s == [43] + body;
      assert ReadsAs(s, body, n);
    }
    if n < modulus {
      forall d | ReadsAs(s, d, n) ensures ParseUnsigned(s, modulus) == Some(n) {
        assert d[0] != 43 && d == body;
      }
    }
  }

  /** What signed parsing accepts. */
  lemma SignedAccepts(s: Bytes, lo: int, hi: int, n: int)
    ensures ParseSigned(s, lo, hi) == Some(n) <==>
      lo <= n <= hi && exists d :: ReadsAs(s, d, n) || ReadsAsNegative(s, d, n)
  {
    var body := if s != [] && (s[0] == 43 || s[0] == 45) then s[1..] else s;
    if ParseSigned(s, lo, hi) == Some(n) {
      assert s == [] + body || s == [43] + body || s == [45] + body;
      assert ReadsAs(s, body, n) || ReadsAsNegative(s, body, n);
    }
    if lo <= n <= hi {
      forall d | ReadsAs(s, d, n) || ReadsAsNegative(s, d, n) ensures ParseSigned(s, lo, hi) == Some(n) {
        assert 48 <= d[0] && d == body;
      }
    }
  }

  /** Leading zeros do not change a number. */
  lemma {:induction false} LeadingZero(d: Bytes)
    requires AllDigits(d)
    ensures Value([48] + d) == Value(d)
    decreases |d|
  {
    var s := [48] + d;
    if d == [] {
      assert s[..0] == [];
    } else {
      assert s[..|s| - 1] == [48] + d[..|d| - 1];
      LeadingZero(d[..|d| - 1]);
    }
  }
}
