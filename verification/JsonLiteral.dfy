/**
 * How RFC 8259 section 7 writes a code point inside a string, in the terms of the standard, and what the tables and
 * the arithmetic of `parse_string` have to agree with.
 */
module JsonLiteral {
  import opened Bytes
  import opened Utf8
  import opened JsonString

  // ----- from the code point to its spellings -----

  /** The byte is the hexadecimal digit `d`, in either case. */
  predicate DigitIs(b: byte, d: nat) {
    (d < 10 && b == 48 + d) || (10 <= d < 16 && (b == 65 + (d - 10) || b == 97 + (d - 10)))
  }

  /** A \u escape of the 16-bit number `u`. */
  predicate UnitIs(t: Text, u: nat) {
    && |t| == 6 && t[0] == 92 && t[1] == 117 && u < 65536
    && DigitIs(t[2], u / 4096) && DigitIs(t[3], u / 256 % 16) && DigitIs(t[4], u / 16 % 16) && DigitIs(t[5], u % 16)
  }

  /** The escapes of one letter: quote, backslash, slash, b, f, n, r and t. */
  predicate LetterIs(t: Text, cp: nat) {
    || (t == [92, 34] && cp == 34) || (t == [92, 92] && cp == 92) || (t == [92, 47] && cp == 47)
    || (t == [92, 98] && cp == 8) || (t == [92, 102] && cp == 12) || (t == [92, 110] && cp == 10)
    || (t == [92, 114] && cp == 13) || (t == [92, 116] && cp == 9)
  }

  /** `t` is a way to write the code point: as it is, as a letter, as one \u escape, or as the two of its halves. */
  predicate Writes(t: Text, cp: scalar) {
    || (t == Encode(cp) && cp >= 32 && cp != 34 && cp != 92)
    || LetterIs(t, cp)
    || (cp < 65536 && UnitIs(t, cp))
    || (cp >= 65536 && |t| == 12 && UnitIs(t[..6], 0xD800 + (cp - 65536) / 1024)
        && UnitIs(t[6..], 0xDC00 + (cp - 65536) % 1024))
  }

  // ----- from the spellings back -----

  /** The value of a hexadecimal digit. */
  function DigitOf(b: byte): Option<nat> {
    if 97 <= b < 103 then Some(10 + (b - 97)) else if 65 <= b < 71 then Some(10 + (b - 65))
    else if 48 <= b < 58 then Some(b - 48) else None
  }

  /** The number four bytes spell in hexadecimal; 0 when one of them is no digit. */
  function FourOf(t: Text): nat
    requires |t| == 4
  {
    var a, b, c, d := DigitOf(t[0]), DigitOf(t[1]), DigitOf(t[2]), DigitOf(t[3]);
    if a.Some? && b.Some? && c.Some? && d.Some? then a.value * 4096 + b.value * 256 + c.value * 16 + d.value else 0
  }

  function LetterOf(e: byte): Option<scalar> {
    match e
    case 34 => Some(34)
    case 47 => Some(47)
    case 92 => Some(92)
    case 98 => Some(8)
    case 102 => Some(12)
    case 110 => Some(10)
    case 114 => Some(13)
    case 116 => Some(9)
    case _ => None
  }

  predicate HighHalf(u: nat) { 0xD800 <= u < 0xDC00 }

  predicate LowHalf(u: nat) { 0xDC00 <= u < 0xE000 }

  /** The code point whose two halves these are. */
  function WholeOf(u: nat, v: nat): scalar
    requires HighHalf(u) && LowHalf(v)
  {
    0x10000 + (u - 0xD800) * 1024 + (v - 0xDC00)
  }

  lemma FourIs(t: Text, u: nat)
    requires UnitIs(t, u)
    ensures FourOf(t[2..]) == u && forall k :: 2 <= k < 6 ==> DigitOf(t[k]).Some?
  {
    DigitBack(t[2], u / 4096);
    DigitBack(t[3], u / 256 % 16);
    DigitBack(t[4], u / 16 % 16);
    DigitBack(t[5], u % 16);
    assert t[2..][0] == t[2] && t[2..][1] == t[3] && t[2..][2] == t[4] && t[2..][3] == t[5];
    hide DigitOf, DigitIs;
    Positions(u);
  }

  lemma Positions(u: nat)
    requires u < 65536
    ensures u == u / 4096 * 4096 + u / 256 % 16 * 256 + u / 16 % 16 * 16 + u % 16
  {
    var a := u / 16;
    var b := a / 16;
    assert u == a * 16 + u % 16 && a == b * 16 + a % 16 && b == b / 16 * 16 + b % 16;
    assert u / 256 == b && u / 4096 == b / 16;
  }

  lemma DigitBack(b: byte, d: nat)
    requires DigitIs(b, d)
    ensures DigitOf(b) == Some(d)
  {
  }

  lemma WholeIs(cp: scalar)
    requires cp >= 65536
    ensures var u, v := 0xD800 + (cp - 65536) / 1024, 0xDC00 + (cp - 65536) % 1024;
            HighHalf(u) && LowHalf(v) && WholeOf(u, v) == cp
  {
  }

  // ----- parse_string's tables and arithmetic -----

  /** The tables and the arithmetic of the code say the same. */
  lemma TablesAgree(b: byte)
    ensures HexValue(b) == DigitOf(b)
    ensures SimpleEscape(b).Some? <==> LetterOf(b).Some?
    ensures SimpleEscape(b).Some? ==> SimpleEscape(b).value == LetterOf(b).value
  {
  }

  lemma HexAgrees(c: Text, i: nat)
    requires i + 4 <= |c|
    ensures Hex4(c, i) == FourOf(c[i..i + 4])
  {
    TablesAgree(c[i]);
    TablesAgree(c[i + 1]);
    TablesAgree(c[i + 2]);
    TablesAgree(c[i + 3]);
  }

  lemma HalvesAgree(u: nat, v: nat)
    ensures IsHigh(u) == HighHalf(u) && IsLow(v) == LowHalf(v)
    ensures IsHigh(u) && IsLow(v) ==> Combine(u, v) == WholeOf(u, v)
  {
  }
}
