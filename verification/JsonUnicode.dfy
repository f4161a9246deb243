/**
 * What a JSON string literal denotes (RFC 8259 section 7), and that `parse_string` yields exactly
 * its UTF-8: it succeeds if and only if every surrogate escape is half of a pair.
 */
module JsonUnicode {
  import opened Bytes
  import opened JsonTree
  import opened Utf8
  import opened JsonString
  import opened JsonLiteral

  /** One `char` of the grammar: unescaped, a one-letter escape, or \u with four hex digits. */
  datatype Piece = Plain(cp: scalar) | Letter(e: byte) | Unit(hex: Text)

  predicate IsPiece(x: Piece) {
    match x
    case Plain(cp) => cp >= 0x20 && cp != QUOTE && cp != BACKSLASH
    case Letter(e) => LetterOf(e).Some?
    case Unit(hex) => |hex| == 4 && forall k :: 0 <= k < 4 ==> DigitOf(hex[k]).Some?
  }

  predicate IsLiteral(ps: seq<Piece>) {
    forall k :: 0 <= k < |ps| ==> IsPiece(ps[k])
  }

  function Spell(x: Piece): Text {
    match x
    case Plain(cp) => Encode(cp)
    case Letter(e) => [BACKSLASH, e]
    case Unit(hex) => [BACKSLASH, 117] + hex
  }

  function SpellAll(ps: seq<Piece>): Text {
    if ps == [] then [] else Spell(ps[0]) + SpellAll(ps[1..])
  }

  /** The UTF-16 code unit a \u escape names. */
  function UnitValue(x: Piece): nat
    requires x.Unit? && IsPiece(x)
  {
    FourOf(x.hex)
  }

  /** The code points denoted: surrogate halves combine in pairs; a lone half denotes nothing. */
  function Denote(ps: seq<Piece>): Option<seq<scalar>>
    requires IsLiteral(ps)
  {
    if ps == [] then Some([])
    else
      match ps[0]
      case Plain(cp) => Then(cp, Denote(ps[1..]))
      case Letter(e) => Then(LetterOf(e).value, Denote(ps[1..]))
      case Unit(_) =>
        var u := UnitValue(ps[0]);
        if LowHalf(u) then None
        else if !HighHalf(u) then Then(u, Denote(ps[1..]))
        else if |ps| >= 2 && ps[1].Unit? && LowHalf(UnitValue(ps[1])) then
          Then(WholeOf(u, UnitValue(ps[1])), Denote(ps[2..]))
        else None
  }

  function Then(cp: scalar, rest: Option<seq<scalar>>): Option<seq<scalar>> {
    if rest.Some? then Some([cp] + rest.value) else None
  }

  // ----- first pass -----

  lemma EncodedClean(cp: scalar)
    requires cp >= 0x20 && cp != QUOTE && cp != BACKSLASH
    ensures Clean(Encode(cp))
  {
  }

  lemma ScanPiece(c: Text, i: nat, x: Piece, skipped: nat) returns (k: nat)
    requires IsPiece(x) && At(c, i, Spell(x)) && i + |Spell(x)| < |c|
    ensures ScanFrom(c, i, skipped) == ScanFrom(c, i + |Spell(x)|, k)
  {
    hide At;
    k := if x.Plain? then skipped else skipped + 1;
    if x.Plain? {
      EncodedClean(x.cp);
      ScanClean(c, i, Spell(x), skipped);
    } else {
      AtIndex(c, i, Spell(x), 0);
      assert ScanFrom(c, i, skipped) == ScanFrom(c, i + 2, skipped + 1);
      if x.Unit? {
        AtConcat(c, i, [BACKSLASH, 117], x.hex);
        ScanClean(c, i + 2, x.hex, skipped + 1);
      }
    }
  }

  lemma {:induction false} ScanLiteral(c: Text, i: nat, ps: seq<Piece>, skipped: nat)
    requires IsLiteral(ps) && At(c, i, SpellAll(ps) + [QUOTE])
    ensures ScanFrom(c, i, skipped).Closed? && ScanFrom(c, i, skipped).end == i + |SpellAll(ps)|
    decreases |ps|
  {
    hide At, Spell;
    if ps == [] {
      AtIndex(c, i, SpellAll(ps) + [QUOTE], 0);
    } else {
      var rest := SpellAll(ps[1..]) + [QUOTE];
      assert SpellAll(ps) + [QUOTE] == Spell(ps[0]) + rest;
      AtConcat(c, i, Spell(ps[0]), rest);
      var k := ScanPiece(c, i, ps[0], skipped);
      ScanLiteral(c, i + |Spell(ps[0])|, ps[1..], k);
    }
  }

  // ----- second pass -----

  lemma {:induction false} UnescapeClean(c: Text, p: nat, t: Text, end: nat)
    requires At(c, p, t) && Clean(t) && p + |t| <= end < |c|
    ensures Unescape(c, p, end) == Prepend(t, Unescape(c, p + |t|, end))
    decreases |t|
  {
    hide At, Unescape;
    if t == [] {
      PrependTwice([], [], Unescape(c, p, end));
    } else {
      AtHead(c, p, t);
      UnescapePlain(c, p, end);
      UnescapeClean(c, p + 1, t[1..], end);
      PrependTwice([t[0]], t[1..], Unescape(c, p + |t|, end));
      assert [t[0]] + t[1..] == t;
    }
  }

  lemma ReadsUnit(c: Text, p: nat, x: Piece)
    requires IsPiece(x) && x.Unit? && At(c, p, Spell(x))
    ensures c[p] == BACKSLASH && c[p + 1] == 117 && Hex4(c, p + 2) == UnitValue(x)
  {
    forall k: nat | k < 6 ensures c[p + k] == Spell(x)[k] { AtIndex(c, p, Spell(x), k); }
    assert c[p + 0] == BACKSLASH && c[p + 1] == 117;
    assert c[p + 2] == x.hex[0] && c[p + 3] == x.hex[1] && c[p + 4] == x.hex[2] && c[p + 5] == x.hex[3];
    assert c[p + 2..p + 6] == x.hex;
    HexAgrees(c, p + 2);
  }

  /** After a high surrogate, only a second \u escape for a low one makes the literal good. */
  lemma ReadsHigh(c: Text, p: nat, ps: seq<Piece>, end: nat)
    requires IsLiteral(ps) && ps != [] && ps[0].Unit? && HighHalf(UnitValue(ps[0]))
    requires At(c, p, SpellAll(ps)) && p + |SpellAll(ps)| == end < |c|
    ensures ReadUtf16(c, p, end) ==
            if |ps| >= 2 && ps[1].Unit? && LowHalf(UnitValue(ps[1]))
            then Utf16(12, WholeOf(UnitValue(ps[0]), UnitValue(ps[1]))) else BadLiteral
  {
    hide At;
    AtConcat(c, p, Spell(ps[0]), SpellAll(ps[1..]));
    ReadsUnit(c, p, ps[0]);
    HalvesAgree(UnitValue(ps[0]), 0);
    if |ps| >= 2 {
      var x := ps[1];
      if x.Unit? { HalvesAgree(UnitValue(ps[0]), UnitValue(x)); }
      assert SpellAll(ps[1..]) == Spell(x) + SpellAll(ps[1..][1..]);
      AtConcat(c, p + 6, Spell(x), SpellAll(ps[1..][1..]));
      AtIndex(c, p + 6, Spell(x), 0);
      if x.Plain? {
        EncodedClean(x.cp);
      } else {
        AtIndex(c, p + 6, Spell(x), 1);
        if x.Unit? { ReadsUnit(c, p + 6, x); } else { TablesAgree(x.e); }
      }
    }
  }

  /** What the second pass must return for a literal. */
  predicate Agrees(r: Unescaped, d: Option<seq<scalar>>) {
    match d
    case None => r.Bad?
    case Some(cps) => r == Done(EncodeAll(cps))
  }

  lemma AgreesThen(cp: scalar, r: Unescaped, d: Option<seq<scalar>>)
    requires Agrees(r, d)
    ensures Agrees(Prepend(Encode(cp), r), Then(cp, d))
  {
    if d.Some? { assert ([cp] + d.value)[1..] == d.value; }
  }

  lemma {:induction false} UnescapeLiteral(c: Text, p: nat, ps: seq<Piece>, end: nat)
    requires IsLiteral(ps) && At(c, p, SpellAll(ps)) && p + |SpellAll(ps)| == end < |c|
    ensures Agrees(Unescape(c, p, end), Denote(ps))
    decreases |ps|
  {
    if ps != [] {
      hide At, Agrees;
      var x, rest := ps[0], ps[1..];
      AtConcat(c, p, Spell(x), SpellAll(rest));
      UnescapeLiteral(c, p + |Spell(x)|, rest, end);
      if x.Unit? {
        ReadsUnit(c, p, x);
        UnescapeUnit(c, p, ps, end);
      } else {
        UnescapeOther(c, p, x, end);
        var cp := if x.Plain? then x.cp else LetterOf(x.e).value;
        AgreesThen(cp, Unescape(c, p + |Spell(x)|, end), Denote(rest));
      }
    }
  }

  /** A piece that is no \u escape adds the encoding of the one code point it stands for. */
  lemma UnescapeOther(c: Text, p: nat, x: Piece, end: nat)
    requires IsPiece(x) && !x.Unit? && At(c, p, Spell(x)) && p + |Spell(x)| <= end < |c|
    ensures Unescape(c, p, end) ==
            Prepend(Encode(if x.Plain? then x.cp else LetterOf(x.e).value), Unescape(c, p + |Spell(x)|, end))
  {
    hide At;
    if x.Plain? {
      EncodedClean(x.cp);
      UnescapeClean(c, p, Spell(x), end);
    } else {
      AtIndex(c, p, Spell(x), 0);
      AtIndex(c, p, Spell(x), 1);
      TablesAgree(x.e);
    }
  }

  lemma SpellAllSplit(ps: seq<Piece>)
    requires ps != [] && ps[0].Unit? && IsLiteral(ps)
    ensures |SpellAll(ps)| >= 6
  {
    assert IsPiece(ps[0]);
  }

  lemma AgreesNot(r: Unescaped)
    requires r.Bad?
    ensures Agrees(r, None)
  {
  }

  lemma {:induction false} UnescapeUnit(c: Text, p: nat, ps: seq<Piece>, end: nat)
    requires IsLiteral(ps) && At(c, p, SpellAll(ps)) && p + |SpellAll(ps)| == end < |c|
    requires ps != [] && ps[0].Unit? && c[p] == BACKSLASH && c[p + 1] == 117
    requires Hex4(c, p + 2) == UnitValue(ps[0])
    requires Agrees(Unescape(c, p + 6, end), Denote(ps[1..]))
    ensures Agrees(Unescape(c, p, end), Denote(ps))
    decreases |ps|, 0
  {
    hide Unescape, FourOf, Hex4, Agrees, Encode;
    var u := UnitValue(ps[0]);
    HalvesAgree(u, u);
    SpellAllSplit(ps);
    UnescapeReads(c, p, end);
    if HighHalf(u) {
      ReadsHigh(c, p, ps, end);
      if |ps| >= 2 && ps[1].Unit? && LowHalf(UnitValue(ps[1])) {
        assert ps[2..] == ps[1..][1..];
        assert SpellAll(ps) == Spell(ps[0]) + (Spell(ps[1]) + SpellAll(ps[2..]));
        AtConcat(c, p, Spell(ps[0]), Spell(ps[1]) + SpellAll(ps[2..]));
        AtConcat(c, p + 6, Spell(ps[1]), SpellAll(ps[2..]));
        UnescapeLiteral(c, p + 12, ps[2..], end);
        AgreesThen(WholeOf(u, UnitValue(ps[1])), Unescape(c, p + 12, end), Denote(ps[2..]));
      } else {
        AgreesNot(Unescape(c, p, end));
      }
    } else if LowHalf(u) {
      AgreesNot(Unescape(c, p, end));
    } else {
      AgreesThen(u, Unescape(c, p + 6, end), Denote(ps[1..]));
    }
  }

  /**
   * For every literal of the RFC 8259 grammar, of any length: parse_string succeeds exactly when the
   * literal denotes code points, and then its output is well-formed UTF-8 for those code points.
   */
  lemma ParsedLiteralIsUtf8(c: Text, o: nat, ps: seq<Piece>)
    requires IsLiteral(ps) && At(c, o, [QUOTE] + SpellAll(ps) + [QUOTE])
    ensures ParseString(c, o).Parsed? <==> Denote(ps).Some?
    ensures ParseString(c, o).Parsed? ==>
              && ParseString(c, o).next == o + |SpellAll(ps)| + 2
              && Decode(ParseString(c, o).value) == Denote(ps)
  {
    hide At, SpellAll, Unescape, ScanFrom, Denote, Decode;
    var t := SpellAll(ps);
    assert [QUOTE] + t + [QUOTE] == [QUOTE] + (t + [QUOTE]);
    AtConcat(c, o, [QUOTE], t + [QUOTE]);
    AtConcat(c, o + 1, t, [QUOTE]);
    AtIndex(c, o, [QUOTE], 0);
    ScanLiteral(c, o + 1, ps, 0);
    UnescapeLiteral(c, o + 1, ps, o + 1 + |t|);
    if Denote(ps).Some? { DecodeEncodedAll(Denote(ps).value); }
  }

  // ----- from code points -----

  /** A code point and how it is written. */
  datatype Char = Char(cp: scalar, t: Text)

  predicate AreWritten(xs: seq<Char>) { forall k :: 0 <= k < |xs| ==> Writes(xs[k].t, xs[k].cp) }

  function TextOf(xs: seq<Char>): Text { if xs == [] then [] else xs[0].t + TextOf(xs[1..]) }

  function CodePoints(xs: seq<Char>): (cps: seq<scalar>) { if xs == [] then [] else [xs[0].cp] + CodePoints(xs[1..]) }

  /** The pieces of one character. */
  function PiecesOf(x: Char): seq<Piece> {
    if x.t == Encode(x.cp) && x.cp >= 32 && x.cp != 34 && x.cp != 92 then [Plain(x.cp)]
    else if |x.t| == 2 then [Letter(x.t[1])]
    else if |x.t| == 6 then [Unit(x.t[2..])]
    else if |x.t| == 12 then [Unit(x.t[2..6]), Unit(x.t[8..])]
    else []
  }

  lemma PiecesMean(x: Char, ps: seq<Piece>)
    requires Writes(x.t, x.cp) && IsLiteral(ps)
    ensures IsLiteral(PiecesOf(x) + ps) && SpellAll(PiecesOf(x) + ps) == x.t + SpellAll(ps)
    ensures Denote(PiecesOf(x) + ps) == Then(x.cp, Denote(ps))
  {
    if |x.t| == 12 && x.cp >= 65536 && PiecesOf(x) != [Plain(x.cp)] {
      hide FourOf;
      FourIs(x.t[..6], 0xD800 + (x.cp - 65536) / 1024);
      FourIs(x.t[6..], 0xDC00 + (x.cp - 65536) % 1024);
      PairMeans(x, ps);
    } else {
      OnePiece(x);
      hide FourOf, PiecesOf, Writes, Encode;
      var p := PiecesOf(x)[0];
      var qs := [p] + ps;
      assert PiecesOf(x) == [p] && qs[1..] == ps;
    }
  }

  /** What one piece denotes in front of any others. */
  predicate Stands(p: Piece, cp: scalar) {
    IsPiece(p) &&
    match p
    case Plain(b) => b == cp
    case Letter(e) => LetterOf(e) == Some(cp)
    case Unit(_) => UnitValue(p) == cp && !LowHalf(cp) && !HighHalf(cp)
  }

  lemma OnePiece(x: Char)
    requires Writes(x.t, x.cp) && !(|x.t| == 12 && x.cp >= 65536 && PiecesOf(x) != [Plain(x.cp)])
    ensures |PiecesOf(x)| == 1 && Stands(PiecesOf(x)[0], x.cp) && Spell(PiecesOf(x)[0]) == x.t
  {
    if |x.t| == 6 && x.cp < 65536 && UnitIs(x.t, x.cp) {
      hide FourOf;
      FourIs(x.t, x.cp);
    }
  }

  lemma PairMeans(x: Char, ps: seq<Piece>)
    requires |x.t| == 12 && x.cp >= 65536 && Writes(x.t, x.cp) && IsLiteral(ps) && |PiecesOf(x)| == 2
    requires FourOf(x.t[..6][2..]) == 0xD800 + (x.cp - 65536) / 1024
    requires FourOf(x.t[6..][2..]) == 0xDC00 + (x.cp - 65536) % 1024
    requires forall k :: 2 <= k < 6 ==> DigitOf(x.t[..6][k]).Some? && DigitOf(x.t[6..][k]).Some?
    ensures IsLiteral(PiecesOf(x) + ps) && SpellAll(PiecesOf(x) + ps) == x.t + SpellAll(ps)
    ensures Denote(PiecesOf(x) + ps) == Then(x.cp, Denote(ps))
  {
    hide FourOf, Denote, SpellAll, DigitOf;
    var a, b := x.t[2..6], x.t[8..];
    assert x.t[..6][2..] == a && x.t[6..][2..] == b;
    forall k | 0 <= k < 4 ensures DigitOf(a[k]).Some? && DigitOf(b[k]).Some? {
      assert a[k] == x.t[..6][k + 2] && b[k] == x.t[6..][k + 2];
    }
    assert x.t == [92, 117] + a + ([92, 117] + b);
    hide UnitIs, LetterIs, Encode;
    TwoUnits(a, b, x.cp, ps);
    assert [92, 117] + a + ([92, 117] + b) + SpellAll(ps) == [92, 117] + a + ([92, 117] + b + SpellAll(ps));
  }

  lemma TwoUnits(a: Text, b: Text, cp: scalar, ps: seq<Piece>)
    requires |a| == |b| == 4 && cp >= 65536 && IsLiteral(ps)
    requires FourOf(a) == 0xD800 + (cp - 65536) / 1024 && FourOf(b) == 0xDC00 + (cp - 65536) % 1024
    requires forall k :: 0 <= k < 4 ==> DigitOf(a[k]).Some? && DigitOf(b[k]).Some?
    ensures IsLiteral([Unit(a), Unit(b)] + ps)
    ensures SpellAll([Unit(a), Unit(b)] + ps) == [92, 117] + a + ([92, 117] + b + SpellAll(ps))
    ensures Denote([Unit(a), Unit(b)] + ps) == Then(cp, Denote(ps))
  {
    hide FourOf, DigitOf;
    var qs := [Unit(a), Unit(b)] + ps;
    assert qs[2..] == ps && qs[1..] == [qs[1]] + ps && qs[1..][1..] == ps;
    WholeIs(cp);
  }

  lemma {:induction false} AllPieces(xs: seq<Char>) returns (ps: seq<Piece>)
    requires AreWritten(xs)
    ensures IsLiteral(ps) && SpellAll(ps) == TextOf(xs) && Denote(ps) == Some(CodePoints(xs))
  {
    if xs == [] {
      ps := [];
    } else {
      var more := AllPieces(xs[1..]);
      PiecesMean(xs[0], more);
      ps := PiecesOf(xs[0]) + more;
    }
  }

  /**
   * Every string of code points, each written in any of the ways RFC 8259 allows, is read back as the UTF-8 of exactly
   * these code points, pairs of surrogate escapes and digits in either case included.
   */
  lemma WrittenIsRead(c: Text, o: nat, xs: seq<Char>)
    requires AreWritten(xs) && At(c, o, [34] + TextOf(xs) + [34])
    ensures ParseString(c, o) == Parsed(EncodeAll(CodePoints(xs)), o + |TextOf(xs)| + 2)
    ensures Decode(EncodeAll(CodePoints(xs))) == Some(CodePoints(xs))
  {
    hide At, SpellAll, Unescape, ScanFrom, Denote, Decode, TextOf, CodePoints, AreWritten;
    var ps := AllPieces(xs);
    var t := SpellAll(ps);
    assert [QUOTE] + t + [QUOTE] == [QUOTE] + (t + [QUOTE]);
    AtConcat(c, o, [QUOTE], t + [QUOTE]);
    AtConcat(c, o + 1, t, [QUOTE]);
    AtIndex(c, o, [QUOTE], 0);
    ScanLiteral(c, o + 1, ps, 0);
    UnescapeLiteral(c, o + 1, ps, o + 1 + |t|);
    DecodeEncodedAll(CodePoints(xs));
  }
}
