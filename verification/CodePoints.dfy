/** The UTF-8 tables against the definition by code points: section 3 of RFC 3629. */
module CodePoints {
  import opened ByteStrings
  import opened Utf8

  /** A Unicode scalar value: a code point that is not a surrogate. */
  predicate Scalar(cp: int) {
    0 <= cp < 0xD800 || 0xE000 <= cp < 0x11_0000
  }

  function Tail(cp: nat): byte {
    (0x80 + cp % 64) as byte
  }

  function Encode(cp: nat): (r: Bytes)
    requires Scalar(cp)
    ensures 1 <= |r| <= 4
  {
    if cp < 0x80 then [cp as byte]
    else if cp < 0x800 then [(0xC0 + cp / 64) as byte, Tail(cp)]
    else if cp < 0x1_0000 then [(0xE0 + cp / 4096) as byte, Tail(cp / 64), Tail(cp)]
    else [(0xF0 + cp / 0x4_0000) as byte, Tail(cp / 4096), Tail(cp / 64), Tail(cp)]
  }

  function EncodeAll(cps: seq<nat>): Bytes
    requires forall i :: 0 <= i < |cps| ==> Scalar(cps[i])
  {
    if cps == [] then [] else Encode(cps[0]) + EncodeAll(cps[1..])
  }

  /** The encoding of a scalar value is one well-formed character. */
  lemma EncodedIsCharacter(cp: nat)
    requires Scalar(cp)
    ensures CharLen(Encode(cp)) == |Encode(cp)|
  {
    if cp < 0x800 {
    } else if cp < 0x1_0000 {
      assert cp / 4096 == cp / 64 / 64;
    } else {
      assert cp / 0x4_0000 == cp / 4096 / 64;
    }
  }

  /** Every well-formed character is the encoding of a scalar value. */
  lemma CharacterIsEncoded(s: Bytes) returns (cp: nat)
    requires CharLen(s) > 0
    ensures Scalar(cp) && Encode(cp) == s[..CharLen(s)]
  {
    var n := CharLen(s);
    if n == 1 {
      cp := s[0] as int;
    } else if n == 2 {
      cp := (s[0] as int - 0xC0) * 64 + (s[1] as int - 0x80);
    } else if n == 3 {
      cp := ThreeBytes(s);
    } else {
      cp := FourBytes(s);
    }
  }

  lemma ThreeBytes(s: Bytes) returns (cp: nat)
    requires CharLen(s) == 3
    ensures Scalar(cp) && Encode(cp) == s[..3]
  {
    var a, b, c := s[0] as int - 0xE0, s[1] as int - 0x80, s[2] as int - 0x80;
    cp := a * 4096 + b * 64 + c;
    assert 0x80 <= s[2] <= 0xBF;
    assert cp / 64 == a * 64 + b && cp / 4096 == a;
  }

  lemma FourBytes(s: Bytes) returns (cp: nat)
    requires CharLen(s) == 4
    ensures Scalar(cp) && Encode(cp) == s[..4]
  {
    var a, b, c, d := s[0] as int - 0xF0, s[1] as int - 0x80, s[2] as int - 0x80, s[3] as int - 0x80;
    cp := a * 0x4_0000 + b * 4096 + c * 64 + d;
    assert 0x80 <= s[2] <= 0xBF && 0x80 <= s[3] <= 0xBF;
    assert cp / 64 == a * 4096 + b * 64 + c && cp / 4096 == a * 64 + b && cp / 0x4_0000 == a;
  }

  lemma {:induction false} EncodedIsValid(cps: seq<nat>)
    requires forall i :: 0 <= i < |cps| ==> Scalar(cps[i])
    ensures Valid(EncodeAll(cps))
    decreases |cps|
  {
    hide CharLen, Encode;
    if cps != [] {
      EncodedIsCharacter(cps[0]);
      EncodedIsValid(cps[1..]);
      HeadStable(Encode(cps[0]), EncodeAll(cps[1..]));
      assert Encode(cps[0])[|Encode(cps[0])|..] == [];
    }
  }

  lemma {:induction false} ValidIsEncoded(s: Bytes) returns (cps: seq<nat>)
    requires Valid(s)
    ensures forall i :: 0 <= i < |cps| ==> Scalar(cps[i])
    ensures EncodeAll(cps) == s
    decreases |s|
  {
    hide CharLen, Encode;
    if s == [] {
      cps := [];
    } else {
      var cp := CharacterIsEncoded(s);
      var more := ValidIsEncoded(s[CharLen(s)..]);
      cps := [cp] + more;
      assert cps[1..] == more;
      assert s[..CharLen(s)] + s[CharLen(s)..] == s;
    }
  }

  ghost predicate AllScalar(cps: seq<nat>) {
    forall i :: 0 <= i < |cps| ==> Scalar(cps[i])
  }

  /** A byte string is valid exactly when it encodes some scalar values. */
  lemma ValidExactly(s: Bytes)
    ensures Valid(s) <==> exists cps :: AllScalar(cps) && EncodeAll(cps) == s
  {
    hide Valid, EncodeAll;
    if Valid(s) {
      var cps := ValidIsEncoded(s);
      assert AllScalar(cps);
    }
    forall cps | AllScalar(cps) && EncodeAll(cps) == s ensures Valid(s) {
      EncodedIsValid(cps);
    }
  }

  /** The code points with the property White_Space. */
  predicate WhiteSpace(cp: int) {
    || 9 <= cp <= 13 || cp == 0x20 || cp == 0x85 || cp == 0xA0 || cp == 0x1680
    || 0x2000 <= cp <= 0x200A || cp == 0x2028 || cp == 0x2029 || cp == 0x202F || cp == 0x205F || cp == 0x3000
  }

  lemma SpaceExactly(cp: nat)
    requires Scalar(cp)
    ensures IsSpace(Encode(cp)) <==> WhiteSpace(cp)
  {
    if 0x800 <= cp < 0x1_0000 {
      var a, b, c := cp / 4096, cp / 64 % 64, cp % 64;
      assert cp / 4096 == cp / 64 / 64;
      assert cp == a * 4096 + b * 64 + c;
    }
  }

  lemma ReplacementValid()
    ensures CharLen(REPLACEMENT) == 3 && Valid(REPLACEMENT)
  {
    assert REPLACEMENT[3..] == [];
  }

  /** Lossy decoding always yields a valid string, and valid strings are its fixed points. */
  lemma {:induction false} LossyValid(s: Bytes)
    ensures Valid(Lossy(s))
    decreases |s|
  {
    hide CharLen, BadLen;
    if s != [] {
      if CharLen(s) > 0 {
        HeadValid(s);
        LossyValid(s[CharLen(s)..]);
        ValidConcat(s[..CharLen(s)], Lossy(s[CharLen(s)..]));
      } else {
        ReplacementValid();
        LossyValid(s[BadLen(s)..]);
        ValidConcat(REPLACEMENT, Lossy(s[BadLen(s)..]));
      }
    }
  }

  // ---- Ill-formed bytes ----

  /** Some bytes behind `p` make it the beginning of a longer character. */
  ghost predicate Begins(p: Bytes) {
    exists t :: CharLen(p + t) > |p|
  }

  lemma BeginsAt(p: Bytes, t: Bytes)
    requires CharLen(p + t) > |p|
    ensures Begins(p)
  {
  }

  /** The second byte decides for all bytes behind it, up to the length announced. */
  lemma LongerNot(s: Bytes, k: nat, t: Bytes)
    requires s != [] && CharLen(s) == 0 && BadLen(s) < k <= |s|
    ensures CharLen(s[..k] + t) <= k
  {
    var w := s[..k] + t;
    assert w[0] == s[0] && w[1] == s[1] && (k > 2 ==> w[2] == s[2]) && (k > 3 ==> w[3] == s[3]);
  }

  lemma SomeContinuation(s: Bytes) returns (t: Bytes)
    requires s != [] && CharLen(s) == 0 && BadLen(s) > 1
    ensures CharLen(s[..BadLen(s)] + t) > BadLen(s)
  {
    var n := BadLen(s);
    t := [0x80, 0x80];
    var w := s[..n] + t;
    assert w[0] == s[0] && w[1] == s[1] && (n > 2 ==> w[2] == s[2]) && w[n] == 0x80;
    assert n == 2 ==> w[3] == 0x80;
  }

  /**
   One replacement character stands for the longest beginning of a character, or for one byte that begins
   none: nothing longer begins a character.
   */
  lemma BadLenExactly(s: Bytes, k: nat)
    requires s != [] && CharLen(s) == 0
    ensures BadLen(s) == 1 || Begins(s[..BadLen(s)])
    ensures BadLen(s) < k <= |s| ==> !Begins(s[..k])
  {
    hide CharLen, BadLen;
    if BadLen(s) > 1 {
      var t := SomeContinuation(s);
      BeginsAt(s[..BadLen(s)], t);
    }
    if BadLen(s) < k <= |s| {
      forall t ensures CharLen(s[..k] + t) <= |s[..k]| {
        LongerNot(s, k, t);
      }
    }
  }
}
