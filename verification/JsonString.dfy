/** String literals: `print_string_ptr`'s text, and the two passes of `parse_string`. */
module JsonString {
  import opened Bytes
  import opened JsonTree
  import opened Utf8

  // ----- printing -----

  function HexDigit(n: nat): byte
    requires n < 16
  {
    if n < 10 then 48 + n else 87 + n
  }

  function EscapeByte(b: byte): (t: Text)
    ensures 1 <= |t| <= 6
  {
    if b == QUOTE || b == BACKSLASH then [BACKSLASH, b]
    else if b == BS then [BACKSLASH, 98]
    else if b == FF then [BACKSLASH, 102]
    else if b == LF then [BACKSLASH, 110]
    else if b == CR then [BACKSLASH, 114]
    else if b == TAB then [BACKSLASH, 116]
    else if b < 32 then [BACKSLASH, 117, 48, 48, HexDigit(b / 16), HexDigit(b % 16)]
    else [b]
  }

  function Escape(s: Text): Text {
    if s == [] then [] else EscapeByte(s[0]) + Escape(s[1..])
  }

  function Quoted(s: Text): Text { [QUOTE] + Escape(s) + [QUOTE] }

  // ----- first pass: find the closing quote, count escapes -----

  datatype Scan = Closed(end: nat, skipped: nat) | Unterminated

  /** A read at the buffer's length counts as a byte that is no quote. */
  function ScanFrom(c: Text, i: nat, skipped: nat): (r: Scan)
    requires i <= |c|
    ensures r.Closed? ==> i <= r.end < |c| && c[r.end] == QUOTE && r.skipped >= skipped
    decreases |c| - i
  {
    if i >= |c| then Unterminated
    else if c[i] == QUOTE then Closed(i, skipped)
    else if c[i] == BACKSLASH then
      if i + 1 >= |c| then Unterminated else ScanFrom(c, i + 2, skipped + 1)
    else ScanFrom(c, i + 1, skipped)
  }

  // ----- second pass -----

  function HexValue(b: byte): (r: Option<nat>)
    ensures r.Some? ==> r.value < 16
  {
    if 48 <= b <= 57 then Some(b - 48)
    else if 65 <= b <= 70 then Some(b - 55)
    else if 97 <= b <= 102 then Some(b - 87)
    else None
  }

  /** parse_hex4: a bad digit anywhere makes the whole number 0. */
  function Hex4(c: Text, i: nat): (h: nat)
    requires i + 4 <= |c|
    ensures h < 0x10000
  {
    var d0, d1, d2, d3 := HexValue(c[i]), HexValue(c[i + 1]), HexValue(c[i + 2]), HexValue(c[i + 3]);
    if d0.None? || d1.None? || d2.None? || d3.None? then 0
    else ((d0.value * 16 + d1.value) * 16 + d2.value) * 16 + d3.value
  }

  predicate IsHigh(u: nat) { 0xD800 <= u <= 0xDBFF }
  predicate IsLow(u: nat) { 0xDC00 <= u <= 0xDFFF }

  function Combine(high: nat, low: nat): (cp: nat)
    requires IsHigh(high) && IsLow(low)
    ensures 0x10000 <= cp < 0x110000
  {
    0x10000 + (high % 0x400) * 0x400 + low % 0x400
  }

  /** utf16_literal_to_utf8: how many input bytes the literal at `p` takes and its code point. */
  datatype Utf16 = BadLiteral | Utf16(length: nat, cp: nat)

  function ReadUtf16(c: Text, p: nat, end: nat): (r: Utf16)
    requires p <= end <= |c|
    ensures r.Utf16? ==> p + r.length <= end && IsScalar(r.cp)
    ensures r.Utf16? ==> (r.length == 6 && r.cp < 0x10000) || (r.length == 12 && r.cp >= 0x10000)
  {
    if end - p < 6 then BadLiteral
    else
      var first := Hex4(c, p + 2);
      if IsLow(first) then BadLiteral
      else if IsHigh(first) then
        if end - (p + 6) < 6 then BadLiteral
        else if c[p + 6] != BACKSLASH || c[p + 7] != 117 then BadLiteral
        else
          var second := Hex4(c, p + 8);
          if !IsLow(second) then BadLiteral else Utf16(12, Combine(first, second))
      else Utf16(6, first)
  }

  datatype Unescaped = Done(text: Text) | Bad(at: nat)

  function Prepend(t: Text, r: Unescaped): Unescaped {
    if r.Done? then Done(t + r.text) else r
  }

  lemma PrependTwice(a: Text, b: Text, r: Unescaped)
    ensures Prepend(a, Prepend(b, r)) == Prepend(a + b, r) && Prepend([], r) == r
  {
    if r.Done? {
      assert a + (b + r.text) == a + b + r.text;
      assert [] + r.text == r.text;
    }
  }

  /** The one-byte escapes: the byte each stands for. */
  function SimpleEscape(e: byte): Option<byte> {
    if e == 98 then Some(BS)
    else if e == 102 then Some(FF)
    else if e == 110 then Some(LF)
    else if e == 114 then Some(CR)
    else if e == 116 then Some(TAB)
    else if e == QUOTE || e == BACKSLASH || e == SLASH then Some(e)
    else None
  }

  function Unescape(c: Text, p: nat, end: nat): (r: Unescaped)
    requires end < |c|
    ensures r.Bad? ==> p <= r.at < end
    decreases if p <= end then end + 1 - p else 0
  {
    if p >= end then Done([])
    else if c[p] != BACKSLASH then Prepend([c[p]], Unescape(c, p + 1, end))
    else if c[p + 1] == 117 then
      match ReadUtf16(c, p, end)
      case BadLiteral => Bad(p)
      case Utf16(n, cp) => Prepend(Encode(cp), Unescape(c, p + n, end))
    else
      match SimpleEscape(c[p + 1])
      case None => Bad(p)
      case Some(b) => Prepend([b], Unescape(c, p + 2, end))
  }

  /** The second pass, at a byte that is no backslash. */
  lemma UnescapePlain(c: Text, p: nat, end: nat)
    requires p < end < |c| && c[p] != BACKSLASH
    ensures Unescape(c, p, end) == Prepend([c[p]], Unescape(c, p + 1, end))
  {
  }

  /** And at a \u escape. */
  lemma UnescapeReads(c: Text, p: nat, end: nat)
    requires p < end < |c| && c[p] == BACKSLASH && c[p + 1] == 117
    ensures Unescape(c, p, end) ==
            match ReadUtf16(c, p, end)
            case BadLiteral => Bad(p)
            case Utf16(n, cp) => Prepend(Encode(cp), Unescape(c, p + n, end))
  {
  }

  /** parse_string: on failure the offset is left where the second pass stopped. */
  function ParseString(c: Text, o: nat): (r: ParseResult<Text>)
    requires o < |c|
    ensures r.Parsed? ==> o < r.next <= |c| && c[r.next - 1] == QUOTE
    ensures r.Failed? ==> o < r.at <= |c|
  {
    if c[o] != QUOTE then Failed(o + 1)
    else
      match ScanFrom(c, o + 1, 0)
      case Unterminated => Failed(o + 1)
      case Closed(end, _) =>
        match Unescape(c, o + 1, end)
        case Bad(at) => Failed(at)
        case Done(text) => Parsed(text, end + 1)
  }

  // ----- the printed literal reads back -----

  predicate Clean(t: Text) { forall k :: 0 <= k < |t| ==> t[k] != QUOTE && t[k] != BACKSLASH }

  /** The first pass walks over bytes that are neither quote nor backslash. */
  lemma {:induction false} ScanClean(c: Text, i: nat, t: Text, skipped: nat)
    requires At(c, i, t) && Clean(t)
    ensures ScanFrom(c, i, skipped) == ScanFrom(c, i + |t|, skipped)
    decreases |t|
  {
    hide At;
    if t != [] {
      AtHead(c, i, t);
      ScanClean(c, i + 1, t[1..], skipped);
    }
  }

  lemma ScanOne(c: Text, i: nat, b: byte, skipped: nat) returns (k: nat)
    requires At(c, i, EscapeByte(b)) && i + |EscapeByte(b)| < |c|
    ensures ScanFrom(c, i, skipped) == ScanFrom(c, i + |EscapeByte(b)|, k)
  {
    hide At;
    var e := EscapeByte(b);
    AtIndex(c, i, e, 0);
    k := if |e| == 1 then skipped else skipped + 1;
    if |e| > 1 {
      assert ScanFrom(c, i, skipped) == ScanFrom(c, i + 2, skipped + 1);
      assert e == e[..2] + e[2..];
      AtConcat(c, i, e[..2], e[2..]);
      ScanClean(c, i + 2, e[2..], skipped + 1);
    }
  }

  lemma {:induction false} ScanEscaped(c: Text, i: nat, s: Text, skipped: nat)
    requires At(c, i, Escape(s) + [QUOTE])
    ensures ScanFrom(c, i, skipped).Closed? && ScanFrom(c, i, skipped).end == i + |Escape(s)|
    decreases |s|
  {
    hide At, EscapeByte;
    if s == [] {
      AtIndex(c, i, Escape(s) + [QUOTE], 0);
    } else {
      var e, rest := EscapeByte(s[0]), Escape(s[1..]) + [QUOTE];
      assert Escape(s) + [QUOTE] == e + rest;
      AtConcat(c, i, e, rest);
      var k := ScanOne(c, i, s[0], skipped);
      ScanEscaped(c, i + |e|, s[1..], k);
    }
  }

  lemma UnescapeDone(c: Text, p: nat)
    requires p < |c|
    ensures Unescape(c, p, p) == Done([])
  {
  }

  lemma QuotedShape(s: Text)
    ensures |Quoted(s)| >= 2 && Quoted(s)[0] == QUOTE
  {
  }

  lemma {:induction false} UnescapeEscaped(c: Text, p: nat, s: Text, end: nat)
    requires NulFree(s) && At(c, p, Escape(s)) && end == p + |Escape(s)| < |c|
    ensures Unescape(c, p, end) == Done(s)
    decreases |s|
  {
    hide At, EscapeByte, Unescape;
    if s == [] {
      UnescapeDone(c, p);
    } else {
      var e := EscapeByte(s[0]);
      AtConcat(c, p, e, Escape(s[1..]));
      UnescapeEscaped(c, p + |e|, s[1..], end);
      UnescapeOne(c, p, s[0], end);
      assert [s[0]] + s[1..] == s;
    }
  }

  lemma UnescapeOne(c: Text, p: nat, b: byte, end: nat)
    requires b != NUL && At(c, p, EscapeByte(b)) && p + |EscapeByte(b)| <= end < |c|
    ensures Unescape(c, p, end) == Prepend([b], Unescape(c, p + |EscapeByte(b)|, end))
  {
    hide At;
    var e := EscapeByte(b);
    AtIndex(c, p, e, 0);
    if |e| > 1 {
      AtIndex(c, p, e, 1);
      if |e| == 6 { ControlReads(c, p, b, end); }
    }
  }

  /** The \u00xx escape of a control byte reads back as its code. */
  lemma ControlReads(c: Text, p: nat, b: byte, end: nat)
    requires At(c, p, EscapeByte(b)) && |EscapeByte(b)| == 6 && p + 6 <= end < |c|
    ensures ReadUtf16(c, p, end) == Utf16(6, b) && Encode(b) == [b]
  {
    hide At;
    var e := EscapeByte(b);
    AtIndex(c, p, e, 2);
    AtIndex(c, p, e, 3);
    AtIndex(c, p, e, 4);
    AtIndex(c, p, e, 5);
    HexDigitReads(b / 16);
    HexDigitReads(b % 16);
    assert Hex4(c, p + 2) == b / 16 * 16 + b % 16;
  }

  lemma HexDigitReads(n: nat)
    requires n < 16
    ensures HexValue(HexDigit(n)) == Some(n)
  {
  }

  /** For every NUL-free byte string, parse_string undoes print_string_ptr and stops after the quote. */
  lemma ParseQuoted(c: Text, o: nat, s: Text)
    requires NulFree(s) && At(c, o, Quoted(s))
    ensures ParseString(c, o) == Parsed(s, o + |Quoted(s)|)
  {
    hide At, Escape, Unescape, ScanFrom, NulFree;
    var t := Escape(s);
    assert Quoted(s) == [QUOTE] + (t + [QUOTE]);
    AtConcat(c, o, [QUOTE], t + [QUOTE]);
    AtConcat(c, o + 1, t, [QUOTE]);
    AtIndex(c, o, [QUOTE], 0);
    ScanEscaped(c, o + 1, s, 0);
    UnescapeEscaped(c, o + 1, s, o + 1 + |t|);
  }
}
