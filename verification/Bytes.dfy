/** Bytes, byte strings and the machine-integer bounds the server runs under (64-bit target). */
module ByteStrings {

  newtype byte = x: int | 0 <= x < 256

  type Bytes = seq<byte>

  const CR: byte := 13
  const LF: byte := 10
  const CRLF: Bytes := [13, 10]

  const ISIZE_MAX: int := 0x7FFF_FFFF_FFFF_FFFF
  const USIZE_MODULUS: int := 0x1_0000_0000_0000_0000
  const I64_MIN: int := -0x8000_0000_0000_0000
  const I64_MAX: int := 0x7FFF_FFFF_FFFF_FFFF
  const U32_MODULUS: int := 0x1_0000_0000
  const I32_MIN: int := -0x8000_0000
  const I32_MAX: int := 0x7FFF_FFFF

  /** `usize` arithmetic wraps around in a release build. */
  function WrapUsize(x: nat): (r: nat)
    ensures r < USIZE_MODULUS
    ensures x < USIZE_MODULUS ==> r == x
  {
    x % USIZE_MODULUS
  }

  datatype Option<+T> = None | Some(value: T)

  datatype Result<+T> = Success(value: T) | Failure(error: Bytes)

  /** Printable ASCII: one line of text. */
  predicate Printable(s: Bytes) {
    forall i :: 0 <= i < |s| ==> 32 <= s[i] < 127
  }

  /** The bytes of a printable string literal. */
  function Ascii(s: string): (r: Bytes)
    ensures |r| == |s| && Printable(r)
  {
    seq(|s|, i requires 0 <= i < |s| => if ' ' <= s[i] <= '~' then s[i] as int as byte else 63)
  }

  /** `to_ascii_uppercase` on one byte. */
  function UpperByte(b: byte): byte {
    if 97 <= b <= 122 then b - 32 else b
  }

  /** `to_ascii_uppercase`. */
  function Upper(s: Bytes): (r: Bytes)
    ensures |r| == |s|
  {
    seq(|s|, i requires 0 <= i < |s| => UpperByte(s[i]))
  }

  /** Concatenation of a list of byte strings. */
  function Concat(parts: seq<Bytes>): Bytes {
    if parts == [] then [] else parts[0] + Concat(parts[1..])
  }

  lemma {:induction false} ConcatAppend(a: seq<Bytes>, b: seq<Bytes>)
    ensures Concat(a + b) == Concat(a) + Concat(b)
  {
    if a == [] {
      assert a + b == b;
    } else {
      assert (a + b)[1..] == a[1..] + b;
      ConcatAppend(a[1..], b);
    }
  }

  /** `a` and `b` are the same letter, one of them small and one capital. */
  predicate CasePair(a: byte, b: byte) {
    97 <= a <= 122 && b == a - 32
  }

  /** Upper-casing identifies the two forms of each letter and nothing else, and leaves capitals as they are. */
  lemma UpperExactly(a: byte, b: byte)
    ensures UpperByte(a) == UpperByte(b) <==> a == b || CasePair(a, b) || CasePair(b, a)
    ensures CasePair(a, b) ==> UpperByte(a) == b
  {
  }
}
