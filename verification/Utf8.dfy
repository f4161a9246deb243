/** UTF-8 (RFC 3629): the encoder both parsers contain, and an independent decoder to check it against. */
module Utf8 {
  import opened Bytes

  predicate IsScalar(cp: int) { 0 <= cp < 0xD800 || 0xDFFF < cp < 0x110000 }

  /** A Unicode scalar value: a code point that is no surrogate. */
  type scalar = cp: int | 0 <= cp < 0xD800 || 0xDFFF < cp < 0x110000

  function EncodedLength(cp: nat): (n: nat)
    ensures 1 <= n <= 4
  {
    if cp < 0x80 then 1 else if cp < 0x800 then 2 else if cp < 0x10000 then 3 else 4
  }

  /** `(c | 0x80) & 0xBF` truncated to a byte. */
  function Continuation(c: nat): byte { 0x80 + c % 64 }

  /** The bytes written for a code point (a lone surrogate is encoded like any other three-byte value). */
  function Encode(cp: nat): (t: Text)
    requires cp < 0x110000
    ensures |t| == EncodedLength(cp)
  {
    if cp < 0x80 then [cp]
    else if cp < 0x800 then [0xC0 + cp / 64, Continuation(cp)]
    else if cp < 0x10000 then [0xE0 + cp / 64 / 64, Continuation(cp / 64), Continuation(cp)]
    else [0xF0 + cp / 64 / 64 / 64, Continuation(cp / 64 / 64), Continuation(cp / 64), Continuation(cp)]
  }

  function EncodeAll(cps: seq<scalar>): Text {
    if cps == [] then [] else Encode(cps[0]) + EncodeAll(cps[1..])
  }

  predicate IsTail(b: byte) { 0x80 <= b <= 0xBF }

  /** One well-formed sequence at the front of `t`, by the grammar of RFC 3629 section 4, and its length. */
  function DecodeFirst(t: Text): (r: Option<(scalar, nat)>)
    ensures r.Some? ==> 0 < r.value.1 <= |t|
  {
    var b0: int := if |t| > 0 then t[0] else 0;
    var b1: int := if |t| > 1 then t[1] else 0;
    var b2: int := if |t| > 2 then t[2] else 0;
    var b3: int := if |t| > 3 then t[3] else 0;
    if |t| >= 1 && b0 <= 0x7F then Some((b0, 1))
    else if |t| >= 2 && 0xC2 <= b0 <= 0xDF && IsTail(b1) then
      Some(((b0 - 0xC0) * 64 + (b1 - 0x80), 2))
    else if |t| >= 3 && 0xE0 <= b0 <= 0xEF && IsTail(b1) && IsTail(b2)
            && (b0 == 0xE0 ==> b1 >= 0xA0) && (b0 == 0xED ==> b1 <= 0x9F) then
      Some((((b0 - 0xE0) * 64 + (b1 - 0x80)) * 64 + (b2 - 0x80), 3))
    else if |t| >= 4 && 0xF0 <= b0 <= 0xF4 && IsTail(b1) && IsTail(b2) && IsTail(b3)
            && (b0 == 0xF0 ==> b1 >= 0x90) && (b0 == 0xF4 ==> b1 <= 0x8F) then
      Some(((((b0 - 0xF0) * 64 + (b1 - 0x80)) * 64 + (b2 - 0x80)) * 64 + (b3 - 0x80), 4))
    else None
  }

  /** The code points of a well-formed UTF-8 string; None when it is not well formed. */
  function Decode(t: Text): Option<seq<scalar>> {
    if t == [] then Some([])
    else
      match DecodeFirst(t)
      case None => None
      case Some((cp, n)) =>
        match Decode(t[n..])
        case None => None
        case Some(rest) => Some([cp] + rest)
  }

  lemma DecodeFirstEncoded(cp: scalar, rest: Text)
    ensures DecodeFirst(Encode(cp) + rest) == Some((cp, EncodedLength(cp)))
  {
    var a, b := cp / 64, cp / 64 / 64;
    assert cp == a * 64 + cp % 64;
    assert a == b * 64 + a % 64;
    assert b == b / 64 * 64 + b % 64;
  }

  /** Encoding gives well-formed UTF-8 that decodes to the code points it was made from. */
  lemma {:induction false} DecodeEncodedAll(cps: seq<scalar>)
    ensures Decode(EncodeAll(cps)) == Some(cps)
  {
    if cps != [] {
      var first, rest := Encode(cps[0]), EncodeAll(cps[1..]);
      DecodeFirstEncoded(cps[0], rest);
      DecodeEncodedAll(cps[1..]);
      assert (first + rest)[|first|..] == rest;
      assert [cps[0]] + cps[1..] == cps;
    }
  }

  /** The masks the C code uses are the remainder the model writes. */
  lemma ContinuationMask(c: bv32)
    ensures (c | 0x80) & 0xBF == 0x80 + c % 64
  {
  }
}
