/**
 * The printer's escaping against the parser's expansion: what is printed is read back. The numeric
 * references against XML 1.0 section 4.1.
 */
module XmlEscape {
  import opened Bytes
  import opened Utf8
  import opened XmlExpand

  // ----- printing -----

  function EscapedByte(b: byte, noexpand: byte): (t: Text)
    ensures t != []
  {
    if b == noexpand then [b]
    else if b == LT then LT_REF
    else if b == GT then GT_REF
    else if b == APOS then APOS_REF
    else if b == QUOTE then QUOT_REF
    else if b == AMP then AMP_REF
    else [b]
  }

  function Escaped(v: Text, noexpand: byte): Text {
    if v == [] then [] else EscapedByte(v[0], noexpand) + Escaped(v[1..], noexpand)
  }

  lemma {:induction false} EscapedSnoc(v: Text, b: byte, noexpand: byte)
    ensures Escaped(v + [b], noexpand) == Escaped(v, noexpand) + EscapedByte(b, noexpand)
  {
    if v == [] {
      assert [b][1..] == [];
      assert EscapedByte(b, noexpand) + [] == EscapedByte(b, noexpand);
    } else {
      EscapedSnoc(v[1..], b, noexpand);
      assert (v + [b])[1..] == v[1..] + [b];
    }
  }

  /** copy_and_expand_chars: the output iterator is what has been put out so far. */
  method CopyAndExpand(v: Text, noexpand: byte, before: Text) returns (out: Text)
    ensures out == before + Escaped(v, noexpand)
  {
    hide Escaped;
    out := before;
    NothingEscaped(before, noexpand);
    for k := 0 to |v|
      invariant out == before + Escaped(v[..k], noexpand)
    {
      var piece := [v[k]];
      if v[k] != noexpand {
        match v[k] {
          case 60 => piece := LT_REF;
          case 62 => piece := GT_REF;
          case 39 => piece := APOS_REF;
          case 34 => piece := QUOT_REF;
          case 38 => piece := AMP_REF;
          case _ =>
        }
      }
      EscapedSnoc(v[..k], v[k], noexpand);
      assert v[..k + 1] == v[..k] + [v[k]];
      assert out + piece == before + (Escaped(v[..k], noexpand) + piece);
      out := out + piece;
    }
    assert v[..|v|] == v;
  }

  lemma NothingEscaped(before: Text, noexpand: byte)
    ensures before == before + Escaped([], noexpand)
  {
  }

  /** The quote an attribute value is printed in. */
  function QuoteFor(v: Text): byte { if QUOTE in v then APOS else QUOTE }

  /** The quote left alone inside it. */
  function OtherQuote(q: byte): byte { if q == APOS then QUOTE else APOS }

  function PrintedValue(v: Text): Text {
    var q := QuoteFor(v);
    [q] + Escaped(v, OtherQuote(q)) + [q]
  }

  /** Double quotes unless the value has one, and then single ones; the other kind stands in the value unescaped. */
  lemma PrintedQuotes(v: Text)
    ensures PrintedValue(v) == if 34 in v then [39] + Escaped(v, 34) + [39] else [34] + Escaped(v, 39) + [34]
  {
    hide Escaped;
  }

  // ----- reading back -----

  /** The value can be printed in the region: only bytes that may stand there are left alone. */
  predicate Suits(v: Text, noexpand: byte, r: Region, f: Flags) {
    && (r.Quoted? ==> r.quote == APOS || r.quote == QUOTE)
    && (noexpand == NUL || ((noexpand == APOS || noexpand == QUOTE) && Inside(r, noexpand)))
    && (forall k :: 0 <= k < |v| ==> v[k] != NUL && (Condenses(r, f) ==> !IsWhitespace(v[k])))
  }

  /** Each printed byte is one turn of the expansion. */
  lemma EscapedTurn(c: Text, i: nat, b: byte, noexpand: byte, r: Region, f: Flags)
    requires Terminated(c) && At(c, i, EscapedByte(b, noexpand)) && i + |EscapedByte(b, noexpand)| < |c|
    requires Suits([b], noexpand, r, f) && !f.noEntities
    ensures Inside(r, c[i]) && Turn(c, i, r, f) == Replaced([b], i + |EscapedByte(b, noexpand)|)
  {
    hide NumericReference;
    assert [b][0] == b;
    var word := EscapedByte(b, noexpand);
    AtHead(c, i, word);
    if b == noexpand || |word| == 1 {
      assert c[i] == b;
    } else {
      if |word| > 2 {
        AtIndex(c, i, word, 1);
        AtIndex(c, i, word, 2);
        Second(c, i, AMP_REF);
        Second(c, i, APOS_REF);
        Second(c, i, QUOT_REF);
        Second(c, i, GT_REF);
        Third(c, i, AMP_REF);
      }
    }
  }

  lemma Third(c: Text, i: nat, word: Text)
    requires i + 2 < |c| && |word| >= 3
    ensures At(c, i, word) ==> c[i + 2] == word[2]
  {
    if At(c, i, word) { assert c[i..i + |word|][2] == word[2]; }
  }

  lemma SuitsSplit(v: Text, noexpand: byte, r: Region, f: Flags)
    requires Suits(v, noexpand, r, f) && v != []
    ensures Suits([v[0]], noexpand, r, f) && Suits(v[1..], noexpand, r, f)
  {
    assert [v[0]][0] == v[0];
  }

  /** The escaped text, with anything that ends the region behind it, expands to the value. */
  lemma {:induction false} EscapedExpands(c: Text, i: nat, d: nat, v: Text, noexpand: byte, r: Region, f: Flags)
    requires Terminated(c) && At(c, i, Escaped(v, noexpand)) && i + |Escaped(v, noexpand)| < |c|
    requires Suits(v, noexpand, r, f) && !f.noEntities && !Inside(r, c[i + |Escaped(v, noexpand)|])
    ensures Expand(c, i, d, r, f) == Expanded(v, i + |Escaped(v, noexpand)|)
    decreases |v|
  {
    hide Expand, Turn, Inside, At, Suits, EscapedByte, Terminated;
    if v == [] {
      ExpandEnd(c, i, d, r, f);
    } else {
      var first, rest := EscapedByte(v[0], noexpand), Escaped(v[1..], noexpand);
      AtConcat(c, i, first, rest);
      SuitsSplit(v, noexpand, r, f);
      EscapedTurn(c, i, v[0], noexpand, r, f);
      ExpandTurn(c, i, d, r, f);
      EscapedExpands(c, i + |first|, d + 1, v[1..], noexpand, r, f);
      assert [v[0]] + v[1..] == v;
    }
  }

  /** Character data: any NUL-free value, escaped and followed by '<' or the end, is read back as it was. */
  lemma DataRoundTrip(c: Text, i: nat, v: Text, f: Flags)
    requires Terminated(c) && At(c, i, Escaped(v, NUL)) && i + |Escaped(v, NUL)| < |c|
    requires c[i + |Escaped(v, NUL)|] == LT || c[i + |Escaped(v, NUL)|] == NUL
    requires NulFree(v) && !f.noEntities && (f.normalize ==> forall k :: 0 <= k < |v| ==> !IsWhitespace(v[k]))
    ensures Expand(c, i, i, Data, f) == Expanded(v, i + |Escaped(v, NUL)|)
  {
    EscapedExpands(c, i, i, v, NUL, Data, f);
  }

  /** Attribute values: whichever quote is chosen, the value is read back and the closing quote is next. */
  lemma AttributeRoundTrip(c: Text, o: nat, v: Text, f: Flags)
    requires Terminated(c) && At(c, o, PrintedValue(v)) && NulFree(v) && !f.noEntities
    ensures o + |PrintedValue(v)| <= |c| && (c[o] == QUOTE || c[o] == APOS)
    ensures var close := o + |PrintedValue(v)| - 1;
            c[close] == c[o] && Expand(c, o + 1, o + 1, Quoted(c[o]), f) == Expanded(v, close)
  {
    hide At, Expand;
    var q := QuoteFor(v);
    var text := Escaped(v, OtherQuote(q));
    AtConcat(c, o, [q] + text, [q]);
    AtConcat(c, o, [q], text);
    AtIndex(c, o, [q], 0);
    AtIndex(c, o + 1 + |text|, [q], 0);
    EscapedExpands(c, o + 1, o + 1, v, OtherQuote(q), Quoted(q), f);
  }

  // ----- numeric references -----

  /** A hexadecimal digit of XML 1.0 section 4.1. */
  function XmlDigit(b: byte): Option<nat> {
    if 97 <= b < 103 then Some(10 + (b - 97)) else if 65 <= b < 71 then Some(10 + (b - 65))
    else if 48 <= b < 58 then Some(b - 48) else None
  }

  /** The lookup table has just these digits, with these values. */
  lemma DigitTable()
    ensures forall b: byte :: DigitValue(b) == XmlDigit(b)
  {
  }

  /** The digits as the number they denote, without wrap-around. */
  function Denoted(c: Text, i: nat, e: nat, base: nat, code: nat): nat
    requires i <= e <= |c| && forall k :: i <= k < e ==> XmlDigit(c[k]).Some?
    decreases e - i
  {
    if i == e then code else Denoted(c, i + 1, e, base, code * base + XmlDigit(c[i]).value)
  }

  lemma ModStep(code: nat, base: nat, d: nat)
    ensures (code % WORD * base + d) % WORD == (code * base + d) % WORD
  {
    var q, m := code / WORD, code % WORD;
    assert code * base + d == (m * base + d) + WORD * (q * base) by {
      assert code == WORD * q + m;
      assert (WORD * q + m) * base == WORD * (q * base) + m * base;
    }
    Multiple(m * base + d, q * base);
  }

  lemma {:induction false} Multiple(x: nat, k: nat)
    ensures (x + WORD * k) % WORD == x % WORD
    decreases k
  {
    if k > 0 {
      Multiple(x, k - 1);
      assert x + WORD * k == x + WORD * (k - 1) + WORD;
    }
  }

  /** The digit loop computes the number denoted, modulo the word, by all hexadecimal digits there are. */
  lemma {:induction false} ReadCodeDenotes(c: Text, i: nat, base: nat, code: nat)
    requires Terminated(c) && i < |c|
    ensures var e := ReadCode(c, i, base, code % WORD).1;
            && (forall k :: i <= k < e ==> XmlDigit(c[k]).Some?) && XmlDigit(c[e]).None?
            && ReadCode(c, i, base, code % WORD).0 == Denoted(c, i, e, base, code) % WORD
    decreases |c| - i
  {
    DigitTable();
    if XmlDigit(c[i]).Some? {
      DigitIsNotLast(c, i);
      var d := XmlDigit(c[i]).value;
      ModStep(code, base, d);
      ReadCodeDenotes(c, i + 1, base, code * base + d);
    }
  }

  /** Where the decimal digits from `i` on end. */
  function DigitsEnd(c: Text, i: nat): (e: nat)
    requires i <= |c|
    ensures i <= e <= |c| && (forall k :: i <= k < e ==> IsDigit(c[k])) && (e < |c| ==> !IsDigit(c[e]))
    decreases |c| - i
  {
    if i < |c| && IsDigit(c[i]) then DigitsEnd(c, i + 1) else i
  }

  /** Char of XML 1.0 section 2.2, which section 4.1 demands of a referenced character. */
  predicate IsXmlChar(cp: nat) {
    cp == 9 || cp == 10 || cp == 13 || 0x20 <= cp <= 0xD7FF || 0xE000 <= cp <= 0xFFFD || 0x10000 <= cp <= 0x10FFFF
  }

  /** The decimal CharRef of XML 1.0 section 4.1: its code point and its end. */
  function XmlDecimal(c: Text, i: nat): Option<(nat, nat)>
    requires At(c, i, [AMP, HASH])
  {
    var e := DigitsEnd(c, i + 2);
    if i + 2 < e < |c| && c[e] == SEMICOLON && IsXmlChar(Denoted(c, i + 2, e, 10, 0)) then
      Some((Denoted(c, i + 2, e, 10, 0), e + 1))
    else None
  }

  /** Where the hexadecimal digits from `i` on end. */
  function HexEnd(c: Text, i: nat): (e: nat)
    requires i <= |c|
    ensures i <= e <= |c| && (forall k :: i <= k < e ==> XmlDigit(c[k]).Some?) && (e < |c| ==> XmlDigit(c[e]).None?)
    decreases |c| - i
  {
    if i < |c| && XmlDigit(c[i]).Some? then HexEnd(c, i + 1) else i
  }

  /** The hexadecimal CharRef. */
  function XmlHex(c: Text, i: nat): Option<(nat, nat)>
    requires At(c, i, [AMP, HASH, 120])
  {
    var e := HexEnd(c, i + 3);
    if i + 3 < e < |c| && c[e] == SEMICOLON && IsXmlChar(Denoted(c, i + 3, e, 16, 0)) then
      Some((Denoted(c, i + 3, e, 16, 0), e + 1))
    else None
  }

  /** The end of the decimal digits is the end of all digits exactly when none of those is a letter. */
  lemma SameEnd(c: Text, i: nat, e: nat)
    requires i <= e < |c| && (forall k :: i <= k < e ==> XmlDigit(c[k]).Some?) && XmlDigit(c[e]).None?
    ensures DigitsEnd(c, i) <= e
    ensures DigitsEnd(c, i) == e <==> forall k :: i <= k < e ==> IsDigit(c[k])
    ensures DigitsEnd(c, i) < e ==> c[DigitsEnd(c, i)] != SEMICOLON
  {
    var decimal := DigitsEnd(c, i);
    assert !IsDigit(c[e]);
    if decimal < e { assert XmlDigit(c[decimal]).Some?; }
  }

  /**
   * Every decimal reference of XML is read as XML says. What is read beyond that is exactly this: digits that
   * are missing, that include A-F or a-f, that denote a number the 64-bit word cannot hold, or that denote no
   * character of XML.
   */
  lemma DecimalReferences(c: Text, i: nat)
    requires Terminated(c) && At(c, i, [AMP, HASH]) && i + 2 < |c| && c[i + 2] != 120
    ensures var (code, e) := ReadCode(c, i + 2, 10, 0);
            && (forall k :: i + 2 <= k < e ==> XmlDigit(c[k]).Some?)
            && match XmlDecimal(c, i)
               case Some((cp, next)) => cp < 0x110000 && NumericReference(c, i, false) == Replaced(Encode(cp), next)
               case None =>
                 NumericReference(c, i, false).Replaced? <==>
                 c[e] == SEMICOLON && code < 0x110000
                 && (e == i + 2 || (exists k :: i + 2 <= k < e && !IsDigit(c[k]))
                     || Denoted(c, i + 2, e, 10, 0) != code || !IsXmlChar(code))
  {
    hide Encode, At, XmlDigit, ReadCode;
    ReadCodeDenotes(c, i + 2, 10, 0);
    var (code, e) := ReadCode(c, i + 2, 10, 0);
    SameEnd(c, i + 2, e);
    if DigitsEnd(c, i + 2) == e && Denoted(c, i + 2, e, 10, 0) < WORD {
      assert Denoted(c, i + 2, e, 10, 0) == code;
    }
  }

  lemma HexHash(c: Text, i: nat)
    requires At(c, i, [AMP, HASH, 120])
    ensures i + 3 <= |c| && At(c, i, [AMP, HASH]) && c[i + 2] == 120
  {
    assert [AMP, HASH, 120] == [AMP, HASH] + [120];
    AtConcat(c, i, [AMP, HASH], [120]);
    AtIndex(c, i, [AMP, HASH, 120], 2);
  }

  lemma {:induction false} HexEndIs(c: Text, i: nat, e: nat)
    requires i <= e < |c| && (forall k :: i <= k < e ==> XmlDigit(c[k]).Some?) && XmlDigit(c[e]).None?
    ensures HexEnd(c, i) == e
    decreases e - i
  {
    if i < e { HexEndIs(c, i + 1, e); }
  }

  /** The same for hexadecimal references, where letters are digits. */
  lemma HexReferences(c: Text, i: nat)
    requires Terminated(c) && At(c, i, [AMP, HASH, 120]) && i + 3 < |c|
    ensures At(c, i, [AMP, HASH])
    ensures var (code, e) := ReadCode(c, i + 3, 16, 0);
            && (forall k :: i + 3 <= k < e ==> XmlDigit(c[k]).Some?)
            && match XmlHex(c, i)
               case Some((cp, next)) => cp < 0x110000 && NumericReference(c, i, false) == Replaced(Encode(cp), next)
               case None =>
                 NumericReference(c, i, false).Replaced? <==>
                 c[e] == SEMICOLON && code < 0x110000
                 && (e == i + 3 || Denoted(c, i + 3, e, 16, 0) != code || !IsXmlChar(code))
  {
    HexHash(c, i);
    hide Encode, At;
    ReadCodeDenotes(c, i + 3, 16, 0);
    var (code, e) := ReadCode(c, i + 3, 16, 0);
    HexEndIs(c, i + 3, e);
    if Denoted(c, i + 3, e, 16, 0) < WORD {
      assert Denoted(c, i + 3, e, 16, 0) == code;
    }
  }

  /** "&#A;": not a reference of XML, yet read as the code 10. */
  lemma LettersAreDecimalDigits()
    ensures var c := [AMP, HASH, 65, SEMICOLON, NUL];
            XmlDecimal(c, 0) == None && NumericReference(c, 0, false) == Replaced([10], 4)
  {
    var c := [AMP, HASH, 65, SEMICOLON, NUL];
    assert XmlDigit(c[2]) == Some(10) && XmlDigit(c[3]) == None;
    assert ReadCode(c, 3, 10, 10) == (10, 3);
    assert ReadCode(c, 2, 10, 0) == ReadCode(c, 3, 10, 10);
    assert Encode(10) == [10];
  }

  /** "&#0;": denotes no character, and is read as a NUL. */
  lemma NulReference()
    ensures var c := [AMP, HASH, 48, SEMICOLON, NUL];
            XmlDecimal(c, 0) == None && NumericReference(c, 0, false) == Replaced([0], 4)
  {
    var c := [AMP, HASH, 48, SEMICOLON, NUL];
    assert ReadCode(c, 2, 10, 0) == ReadCode(c, 3, 10, 0) == (0, 3);
    assert DigitsEnd(c, 2) == DigitsEnd(c, 3) == 3;
    assert Denoted(c, 2, 3, 10, 0) == Denoted(c, 3, 3, 10, 0) == 0;
  }

  /** "&#55296;": denotes no character either, and its bytes are no UTF-8. */
  lemma SurrogateReference()
    ensures var c := [AMP, HASH, 53, 53, 50, 57, 54, SEMICOLON, NUL];
            && XmlDecimal(c, 0) == None && NumericReference(c, 0, false) == Replaced([0xED, 0xA0, 0x80], 8)
            && Decode([0xED, 0xA0, 0x80]) == None
  {
    var c := [AMP, HASH, 53, 53, 50, 57, 54, SEMICOLON, NUL];
    SurrogateCode(c);
    SurrogateDenoted(c);
    hide ReadCode, Denoted, DigitsEnd, DigitValue, XmlDigit;
    assert Encode(55296) == [0xED, 0xA0, 0x80];
  }

  lemma SurrogateCode(c: Text)
    requires c == [AMP, HASH, 53, 53, 50, 57, 54, SEMICOLON, NUL]
    ensures ReadCode(c, 2, 10, 0) == (55296, 7)
  {
    assert ReadCode(c, 7, 10, 55296) == (55296, 7);
    assert ReadCode(c, 6, 10, 5529) == ReadCode(c, 7, 10, 55296);
    assert ReadCode(c, 5, 10, 552) == ReadCode(c, 6, 10, 5529);
    assert ReadCode(c, 4, 10, 55) == ReadCode(c, 5, 10, 552);
    assert ReadCode(c, 3, 10, 5) == ReadCode(c, 4, 10, 55);
    assert ReadCode(c, 2, 10, 0) == ReadCode(c, 3, 10, 5);
  }

  lemma SurrogateDenoted(c: Text)
    requires c == [AMP, HASH, 53, 53, 50, 57, 54, SEMICOLON, NUL]
    ensures DigitsEnd(c, 2) == 7 && forall k :: 2 <= k < 7 ==> XmlDigit(c[k]).Some?
    ensures Denoted(c, 2, 7, 10, 0) == 55296
  {
    assert DigitsEnd(c, 7) == 7;
    assert DigitsEnd(c, 6) == DigitsEnd(c, 5) == 7;
    assert DigitsEnd(c, 4) == DigitsEnd(c, 3) == DigitsEnd(c, 2) == 7;
    assert Denoted(c, 6, 7, 10, 5529) == 55296;
    assert Denoted(c, 4, 7, 10, 55) == Denoted(c, 5, 7, 10, 552) == 55296;
    assert Denoted(c, 2, 7, 10, 0) == Denoted(c, 3, 7, 10, 5) == 55296;
  }

  // ----- text that is no reference -----

  /** The ampersand at `k` begins neither one of the five named references nor a numeric one. */
  predicate LoneAmpersand(c: Text, k: nat) {
    && k + 1 < |c| && c[k] == 38 && c[k + 1] != 35
    && !At(c, k, [38, 97, 109, 112, 59]) && !At(c, k, [38, 97, 112, 111, 115, 59])
    && !At(c, k, [38, 113, 117, 111, 116, 59]) && !At(c, k, [38, 103, 116, 59]) && !At(c, k, [38, 108, 116, 59])
  }

  /**
   * What is no reference is copied as it stands: with translation on, any text whose ampersands begin no reference;
   * with translation off, any text at all.
   */
  lemma {:induction false} VerbatimExpands(c: Text, i: nat, e: nat, d: nat, r: Region, f: Flags)
    requires Terminated(c) && i <= e < |c| && !Condenses(r, f)
    requires forall k :: i <= k < e ==> Inside(r, c[k]) && (c[k] == 38 ==> f.noEntities || LoneAmpersand(c, k))
    ensures Expand(c, i, d, r, f) == Glue(c[i..e], Expand(c, e, d + (e - i), r, f))
    decreases e - i
  {
    hide Expand;
    GlueTwice([], [], Expand(c, e, d + (e - i), r, f));
    if i < e {
      assert Turn(c, i, r, f) == Replaced([c[i]], i + 1);
      ExpandTurn(c, i, d, r, f);
      VerbatimExpands(c, i + 1, e, d + 1, r, f);
      GlueTwice([c[i]], c[i + 1..e], Expand(c, e, d + (e - i), r, f));
      assert [c[i]] + c[i + 1..e] == c[i..e];
    } else {
      assert c[i..e] == [];
    }
  }
}
