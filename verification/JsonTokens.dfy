/** The numbers and strings of JSON texts, wherever they stand. */
module JsonTokens {
  import opened Bytes
  import opened JsonTree
  import opened JsonNumber
  import opened JsonString
  import opened JsonUnicode
  import JsonNumeral
  import JsonParse
  import opened JsonRoundTrip
  import opened Utf8

  // ----- numbers -----

  /** A number as parse_value takes it, of any length: it begins with a minus or a digit. */
  ghost predicate NumberText(t: Text, d: Decimal) {
    && t != [] && (t[0] == 45 || 48 <= t[0] <= 57)
    && exists n :: JsonNumeral.Loose(n) && JsonNumeral.Spell(n) == t && JsonNumeral.Denoted(n) == d
  }

  /** A number of RFC 8259 section 6. */
  ghost predicate StandardNumber(t: Text, d: Decimal) {
    exists n :: JsonNumeral.Standard(n) && JsonNumeral.Spell(n) == t && JsonNumeral.Denoted(n) == d
  }

  lemma StandardNumberFine(t: Text, d: Decimal)
    requires StandardNumber(t, d)
    ensures NumberText(t, d)
  {
    var n :| JsonNumeral.Standard(n) && JsonNumeral.Spell(n) == t && JsonNumeral.Denoted(n) == d;
    JsonNumeral.Parts(n);
    if n.sign == [] { assert t[0] == t[..|n.whole|][0]; } else { assert t[0] == t[..1][0]; }
  }

  lemma NumberFirst(t: Text, d: Decimal)
    requires NumberText(t, d)
    ensures t != [] && (t[0] == 45 || IsDigit(t[0]))
  {
  }

  lemma NumeralBytes(n: JsonNumeral.Numeral)
    requires JsonNumeral.Loose(n)
    ensures forall k :: 0 <= k < |JsonNumeral.Spell(n)| ==> IsNumberByte(JsonNumeral.Spell(n)[k])
  {
    assert forall k :: 0 <= k < |n.whole| ==> IsNumberByte(n.whole[k]);
    assert forall k :: 0 <= k < |n.fraction| ==> IsNumberByte(n.fraction[k]);
    assert forall k :: 0 <= k < |n.exp| ==> IsNumberByte(n.exp[k]);
    assert forall k :: 0 <= k < |n.sign| ==> IsNumberByte(n.sign[k]);
    assert forall k :: 0 <= k < |n.expSign| ==> IsNumberByte(n.expSign[k]);
  }

  lemma {:induction false} CopyLengthIs(c: Text, o: nat, k: nat, i: nat)
    requires i <= k <= NUMBER_BUFFER - 1 && o + k < |c| && forall j :: o <= j < o + k ==> IsNumberByte(c[j])
    requires k < NUMBER_BUFFER - 1 ==> !IsNumberByte(c[o + k])
    ensures CopyLength(c, o, i) == k
    decreases k - i
  {
    if i < k { CopyLengthIs(c, o, k, i + 1); }
  }

  /**
   * A number with no number byte behind it is read to its end if it fits the code's buffer; if not, the parser stops,
   * at the latest in front of one of its bytes.
   */
  lemma NumberRead(c: Text, o: nat, t: Text, d: Decimal)
    requires NumberText(t, d) && At(c, o, t) && Follows(c, o + |t|)
    ensures |t| <= 63 ==> ParseNumber(c, o) == Parsed(d, o + |t|)
    ensures |t| > 63 && ParseNumber(c, o).Parsed? ==>
              ParseNumber(c, o).next < o + |t| && IsNumberByte(c[ParseNumber(c, o).next])
  {
    var n :| JsonNumeral.Loose(n) && JsonNumeral.Spell(n) == t && JsonNumeral.Denoted(n) == d;
    NumeralBytes(n);
    BytesAt(c, o, t);
    JsonNumeral.NumeralReads(n);
    AtText(c, o, t);
    hide StrToD, JsonNumeral.Loose, JsonNumeral.Spell, JsonNumeral.Denoted, IsNumberByte, At, ParseNumber;
    if |t| <= 63 { ShortRead(c, o, t, d); } else { LongRead(c, o, |t|); }
  }

  lemma ShortRead(c: Text, o: nat, t: Text, d: Decimal)
    requires |t| <= 63 && o + |t| < |c| && c[o..o + |t|] == t && StrToD(t) == Some((d, |t|))
    requires (forall j :: o <= j < o + |t| ==> IsNumberByte(c[j])) && !IsNumberByte(c[o + |t|])
    ensures ParseNumber(c, o) == Parsed(d, o + |t|)
  {
    hide StrToD, CopyLength, IsNumberByte;
    CopyLengthIs(c, o, |t|, 0);
  }

  lemma LongRead(c: Text, o: nat, n: nat)
    requires n > 63 && o + n < |c| && forall j :: o <= j < o + n ==> IsNumberByte(c[j])
    ensures ParseNumber(c, o).Parsed? ==>
              ParseNumber(c, o).next < o + n && IsNumberByte(c[ParseNumber(c, o).next])
  {
    hide StrToD, CopyLength, IsNumberByte;
    CopyLengthIs(c, o, 63, 0);
  }

  lemma BytesAt(c: Text, o: nat, t: Text)
    requires At(c, o, t) && forall k :: 0 <= k < |t| ==> IsNumberByte(t[k])
    ensures o + |t| <= |c| && forall j :: o <= j < o + |t| ==> IsNumberByte(c[j])
  {
    hide IsNumberByte;
    forall j | o <= j < o + |t| ensures IsNumberByte(c[j]) { AtIndex(c, o, t, j - o); }
  }

  /** Whatever is read as a number is one, and fits the buffer. */
  lemma NumberHas(c: Text, o: nat)
    requires o < |c| && (c[o] == 45 || IsDigit(c[o])) && ParseNumber(c, o).Parsed?
    ensures var r := ParseNumber(c, o);
            o < r.next <= |c| && r.next - o <= 63 && NumberText(c[o..r.next], r.value)
  {
    hide StrToD, CopyLength, JsonNumeral.Loose, JsonNumeral.Spell, JsonNumeral.Denoted;
    var k := CopyLength(c, o, 0);
    var t := c[o..o + k];
    var n := JsonNumeral.ReadIsNumeral(t);
    Prefix(c, o, k, JsonNumeral.Spell(n));
    var r := ParseNumber(c, o);
    assert r == Parsed(JsonNumeral.Denoted(n), o + |JsonNumeral.Spell(n)|);
    assert c[o..r.next][0] == c[o];
  }

  lemma Prefix(c: Text, o: nat, k: nat, t: Text)
    requires o + k <= |c| && t <= c[o..o + k]
    ensures |t| <= k && c[o..o + |t|] == t
  {
    assert c[o..o + k][..|t|] == c[o..o + |t|];
  }

  // ----- strings -----

  /** A string literal parse_string takes as a whole. */
  predicate StringText(t: Text, v: Text) {
    t != [] && ParseString(t, 0) == Parsed(v, |t|)
  }

  /** A string of RFC 8259 section 7, every character written in one of the ways it allows; `v` is its UTF-8. */
  ghost predicate StandardString(t: Text, v: Text) {
    exists xs :: AreWritten(xs) && t == [34] + TextOf(xs) + [34] && v == EncodeAll(CodePoints(xs))
  }

  lemma StandardStringFine(t: Text, v: Text)
    requires StandardString(t, v)
    ensures StringText(t, v)
  {
    hide ParseString, AreWritten, TextOf, EncodeAll, CodePoints;
    var xs :| AreWritten(xs) && t == [34] + TextOf(xs) + [34] && v == EncodeAll(CodePoints(xs));
    assert t[0..|t|] == t;
    WrittenIsRead(t, 0, xs);
  }

  lemma StringFirst(t: Text, v: Text)
    requires StringText(t, v)
    ensures |t| >= 2 && t[0] == 34
  {
  }

  /** The first pass sees the literal alike alone and inside a text. */
  lemma {:induction false} ScanShift(c: Text, o: nat, t: Text, i: nat, skipped: nat)
    requires At(c, o, t) && i <= |t|
    ensures ScanFrom(t, i, skipped).Closed? ==>
              ScanFrom(c, o + i, skipped) == Closed(o + ScanFrom(t, i, skipped).end, ScanFrom(t, i, skipped).skipped)
    ensures ScanFrom(c, o + i, skipped).Closed? && ScanFrom(c, o + i, skipped).end < o + |t| ==>
              ScanFrom(t, i, skipped).Closed?
    decreases |t| - i
  {
    if i < |t| {
      AtIndex(c, o, t, i);
      if t[i] == BACKSLASH {
        if i + 2 <= |t| { ScanShift(c, o, t, i + 2, skipped + 1); }
      } else if t[i] != QUOTE {
        ScanShift(c, o, t, i + 1, skipped);
      }
    }
  }

  function Moved(r: Unescaped, o: nat): Unescaped {
    match r
    case Done(_) => r
    case Bad(at) => Bad(at + o)
  }

  lemma ReadShift(c: Text, o: nat, t: Text, p: nat, end: nat)
    requires At(c, o, t) && p <= end < |t|
    ensures ReadUtf16(c, o + p, o + end) == ReadUtf16(t, p, end)
  {
    forall k | p <= k < |t| ensures o + k < |c| && c[o + k] == t[k] { AtIndex(c, o, t, k); }
  }

  /** And so does the second. */
  lemma {:induction false} UnescapeShift(c: Text, o: nat, t: Text, p: nat, end: nat)
    requires At(c, o, t) && end < |t|
    ensures o + end < |c| && Unescape(c, o + p, o + end) == Moved(Unescape(t, p, end), o)
    decreases if p <= end then end + 1 - p else 0
  {
    hide ReadUtf16, SimpleEscape, Encode, At;
    AtIndex(c, o, t, end);
    if p < end {
      AtIndex(c, o, t, p);
      AtIndex(c, o, t, p + 1);
      if t[p] != BACKSLASH {
        UnescapeShift(c, o, t, p + 1, end);
      } else if t[p + 1] == 117 {
        ReadShift(c, o, t, p, end);
        if ReadUtf16(t, p, end).Utf16? { UnescapeShift(c, o, t, p + ReadUtf16(t, p, end).length, end); }
      } else if SimpleEscape(t[p + 1]).Some? {
        UnescapeShift(c, o, t, p + 2, end);
      }
    }
  }

  lemma StringRead(c: Text, o: nat, t: Text, v: Text)
    requires StringText(t, v) && At(c, o, t)
    ensures o < |c| && ParseString(c, o) == Parsed(v, o + |t|)
  {
    AtIndex(c, o, t, 0);
    ScanShift(c, o, t, 1, 0);
    hide At, ScanFrom, Unescape;
    UnescapeShift(c, o, t, 1, |t| - 1);
  }

  lemma StringHas(c: Text, o: nat)
    requires o < |c| && ParseString(c, o).Parsed?
    ensures var r := ParseString(c, o);
            o < r.next <= |c| && StringText(c[o..r.next], r.value)
  {
    var r := ParseString(c, o);
    var t := c[o..r.next];
    AtIndex(c, o, t, 0);
    ScanShift(c, o, t, 1, 0);
    UnescapeShift(c, o, t, 1, |t| - 1);
  }
}
