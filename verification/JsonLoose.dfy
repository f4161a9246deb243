/**
 * What `parse_string` accepts, well-formed or not: the bytes up to the quote the first pass stopped at, cut into
 * bytes that are no backslash, one-letter escapes, and \u with any four bytes behind it.
 */
module JsonLoose {
  import opened Bytes
  import opened JsonTree
  import opened Utf8
  import opened JsonString
  import opened JsonLiteral

  datatype Chunk = Raw(b: byte) | Letter(e: byte) | Unit(four: Text)

  predicate IsChunk(x: Chunk) {
    match x
    case Raw(b) => b != BACKSLASH
    case Letter(e) => LetterOf(e).Some?
    case Unit(four) => |four| == 4
  }

  predicate AreChunks(xs: seq<Chunk>) { forall k :: 0 <= k < |xs| ==> IsChunk(xs[k]) }

  function Spell(x: Chunk): Text {
    match x
    case Raw(b) => [b]
    case Letter(e) => [BACKSLASH, e]
    case Unit(four) => [BACKSLASH, 117] + four
  }

  function SpellAll(xs: seq<Chunk>): Text {
    if xs == [] then [] else Spell(xs[0]) + SpellAll(xs[1..])
  }

  /** The number behind \u: 0 unless all four bytes are hex digits. */
  function UnitValue(x: Chunk): nat
    requires x.Unit? && IsChunk(x)
  {
    FourOf(x.four)
  }

  /** The bytes denoted, if every surrogate is half of a pair. */
  function Denoted(xs: seq<Chunk>): Option<Text>
    requires AreChunks(xs)
  {
    if xs == [] then Some([])
    else
      match xs[0]
      case Raw(b) => Before([b], Denoted(xs[1..]))
      case Letter(e) => Before([LetterOf(e).value], Denoted(xs[1..]))
      case Unit(_) =>
        var u := UnitValue(xs[0]);
        if LowHalf(u) then None
        else if !HighHalf(u) then Before(Encode(u), Denoted(xs[1..]))
        else if |xs| >= 2 && xs[1].Unit? && LowHalf(UnitValue(xs[1])) then
          Before(Encode(WholeOf(u, UnitValue(xs[1]))), Denoted(xs[2..]))
        else None
  }

  function Before(t: Text, rest: Option<Text>): Option<Text> {
    if rest.Some? then Some(t + rest.value) else None
  }

  /** The chunks stand between `p` and `end`; a last one-letter escape may take the quote at `end` as its letter. */
  predicate Covers(c: Text, p: nat, xs: seq<Chunk>, end: nat) {
    && AreChunks(xs) && At(c, p, SpellAll(xs))
    && var stop := p + |SpellAll(xs)|;
       stop == end || (stop == end + 1 && xs != [] && xs[|xs| - 1].Letter?)
  }

  predicate Agrees(r: Unescaped, d: Option<Text>) {
    match d
    case None => r.Bad?
    case Some(t) => r == Done(t)
  }

  lemma AgreesBefore(t: Text, r: Unescaped, d: Option<Text>)
    ensures Agrees(r, d) ==> Agrees(Prepend(t, r), Before(t, d))
  {
  }

  lemma UnitAt(c: Text, p: nat, x: Chunk)
    requires IsChunk(x) && x.Unit? && At(c, p, Spell(x))
    ensures |Spell(x)| == 6 && p + 6 <= |c|
    ensures c[p] == BACKSLASH && c[p + 1] == 117 && Hex4(c, p + 2) == UnitValue(x)
  {
    forall k: nat | k < 6 ensures c[p + k] == Spell(x)[k] { AtIndex(c, p, Spell(x), k); }
    assert c[p + 0] == BACKSLASH && c[p + 1] == 117;
    assert c[p + 2] == x.four[0] && c[p + 3] == x.four[1] && c[p + 4] == x.four[2] && c[p + 5] == x.four[3];
    assert c[p + 2..p + 6] == x.four;
    HexAgrees(c, p + 2);
  }

  lemma CoversTail(c: Text, p: nat, xs: seq<Chunk>, end: nat)
    requires Covers(c, p, xs, end) && xs != []
    ensures At(c, p, Spell(xs[0]))
    ensures |xs| > 1 || p + |Spell(xs[0])| == end ==> Covers(c, p + |Spell(xs[0])|, xs[1..], end)
    ensures p < end && p + |Spell(xs[0])| <= if xs[0].Letter? then end + 1 else end
    ensures p + |Spell(xs[0])| == end + 1 ==> xs[1..] == []
  {
    hide At;
    AtConcat(c, p, Spell(xs[0]), SpellAll(xs[1..]));
    assert forall k :: 0 <= k < |xs| - 1 ==> xs[1..][k] == xs[k + 1];
    SpellLength(xs[1..]);
    if |xs| > 1 { assert xs[1..][|xs| - 2] == xs[|xs| - 1]; }
  }

  lemma SpellLength(xs: seq<Chunk>)
    requires AreChunks(xs)
    ensures xs != [] ==> |SpellAll(xs)| > 0
    ensures xs != [] && xs[|xs| - 1].Letter? ==> |SpellAll(xs)| >= 2
  {
    if |xs| > 1 { SpellLength(xs[1..]); }
  }

  /** The second pass on chunks that cover what it reads. */
  lemma {:induction false} UnescapeChunks(c: Text, p: nat, xs: seq<Chunk>, end: nat)
    requires Covers(c, p, xs, end) && end < |c|
    ensures Agrees(Unescape(c, p, end), Denoted(xs))
    decreases |xs|, 1
  {
    if xs != [] {
      hide At, Agrees, Covers, FourOf, Encode, Unescape;
      var x, rest, next := xs[0], xs[1..], p + |Spell(xs[0])|;
      CoversTail(c, p, xs, end);
      assert AreChunks(xs) by { CoveredChunks(c, p, xs, end); }
      if |xs| > 1 || next == end { UnescapeChunks(c, next, rest, end); } else { DoneBehind(c, next, end); }
      assert Agrees(Unescape(c, next, end), Denoted(rest));
      if x.Unit? {
        UnescapeUnit(c, p, xs, end);
      } else {
        UnescapeShort(c, p, x, end);
        var b := if x.Raw? then x.b else LetterOf(x.e).value;
        AgreesBefore([b], Unescape(c, next, end), Denoted(rest));
      }
    }
  }

  lemma CoveredChunks(c: Text, p: nat, xs: seq<Chunk>, end: nat)
    requires Covers(c, p, xs, end)
    ensures AreChunks(xs)
  {
  }

  lemma DoneBehind(c: Text, p: nat, end: nat)
    requires end <= p && end < |c|
    ensures Agrees(Unescape(c, p, end), Some([]))
  {
  }

  lemma UnescapeShort(c: Text, p: nat, x: Chunk, end: nat)
    requires IsChunk(x) && !x.Unit? && At(c, p, Spell(x)) && p < end < |c|
    ensures Unescape(c, p, end) ==
            Prepend([if x.Raw? then x.b else LetterOf(x.e).value], Unescape(c, p + |Spell(x)|, end))
  {
    hide At;
    AtIndex(c, p, Spell(x), 0);
    if x.Letter? {
      AtIndex(c, p, Spell(x), 1);
      TablesAgree(x.e);
    }
  }

  /** Behind a high surrogate only a second \u with a low one will do. */
  lemma ReadsHigh(c: Text, p: nat, xs: seq<Chunk>, end: nat)
    requires Covers(c, p, xs, end) && end < |c| && xs != [] && xs[0].Unit? && HighHalf(UnitValue(xs[0]))
    ensures ReadUtf16(c, p, end) ==
            if |xs| >= 2 && xs[1].Unit? && LowHalf(UnitValue(xs[1]))
            then Utf16(12, WholeOf(UnitValue(xs[0]), UnitValue(xs[1]))) else BadLiteral
  {
    hide At, Covers;
    CoversTail(c, p, xs, end);
    CoveredChunks(c, p, xs, end);
    UnitAt(c, p, xs[0]);
    HalvesAgree(UnitValue(xs[0]), 0);
    if |xs| >= 2 {
      CoversTail(c, p + 6, xs[1..], end);
      if xs[1].Unit? {
        UnitAt(c, p + 6, xs[1]);
        HalvesAgree(UnitValue(xs[0]), UnitValue(xs[1]));
      } else {
        AtIndex(c, p + 6, Spell(xs[1]), 0);
        if xs[1].Letter? {
          AtIndex(c, p + 6, Spell(xs[1]), 1);
          TablesAgree(xs[1].e);
        }
      }
    } else {
      assert Covers(c, p, xs, end) ==> SpellAll(xs) == Spell(xs[0]);
      CoversAlone(c, p, xs, end);
    }
  }

  lemma CoversAlone(c: Text, p: nat, xs: seq<Chunk>, end: nat)
    requires Covers(c, p, xs, end) && |xs| == 1 && xs[0].Unit?
    ensures p + 6 == end
  {
    assert SpellAll(xs) == Spell(xs[0]) + SpellAll(xs[1..]);
  }

  lemma {:induction false} UnescapeUnit(c: Text, p: nat, xs: seq<Chunk>, end: nat)
    requires Covers(c, p, xs, end) && end < |c| && xs != [] && xs[0].Unit? && AreChunks(xs)
    requires Agrees(Unescape(c, p + 6, end), Denoted(xs[1..]))
    ensures Agrees(Unescape(c, p, end), Denoted(xs))
    decreases |xs|, 0
  {
    hide At, Covers, Unescape, FourOf, Hex4, Encode;
    CoversTail(c, p, xs, end);
    UnitAt(c, p, xs[0]);
    var u := UnitValue(xs[0]);
    HalvesAgree(u, u);
    UnescapeReads(c, p, end);
    if HighHalf(u) {
      ReadsHigh(c, p, xs, end);
      if |xs| >= 2 && xs[1].Unit? && LowHalf(UnitValue(xs[1])) {
        hide Agrees;
        CoversTail(c, p + 6, xs[1..], end);
        assert xs[1..][1..] == xs[2..];
        if |xs| > 2 || p + 12 == end { UnescapeChunks(c, p + 12, xs[2..], end); } else { CoversPair(c, p, xs, end); }
        AgreesBefore(Encode(WholeOf(u, UnitValue(xs[1]))), Unescape(c, p + 12, end), Denoted(xs[2..]));
      }
    } else if !LowHalf(u) {
      AgreesBefore(Encode(u), Unescape(c, p + 6, end), Denoted(xs[1..]));
    }
  }

  lemma CoversPair(c: Text, p: nat, xs: seq<Chunk>, end: nat)
    requires Covers(c, p, xs, end) && |xs| == 2 && xs[0].Unit? && xs[1].Unit?
    ensures p + 12 == end
  {
    assert SpellAll(xs) == Spell(xs[0]) + (Spell(xs[1]) + SpellAll(xs[1..][1..]));
  }

  // ----- every text accepted is such chunks -----

  /** What stands at `p`. */
  function ChunkAt(c: Text, p: nat): (x: Chunk)
    requires p < |c| && (c[p] == BACKSLASH ==> p + 1 < |c| && (c[p + 1] == 117 ==> p + 6 <= |c|))
    ensures At(c, p, Spell(x))
  {
    if c[p] != BACKSLASH then Raw(c[p])
    else if c[p + 1] != 117 then Letter(c[p + 1])
    else
      assert c[p..p + 6] == [BACKSLASH, 117] + c[p + 2..p + 6];
      Unit(c[p + 2..p + 6])
  }

  lemma CoversMore(c: Text, p: nat, x: Chunk, xs: seq<Chunk>, end: nat)
    requires IsChunk(x) && At(c, p, Spell(x)) && Covers(c, p + |Spell(x)|, xs, end)
    ensures Covers(c, p, [x] + xs, end)
  {
    var all := [x] + xs;
    assert all[1..] == xs;
    assert c[p..p + |SpellAll(all)|] == c[p..p + |Spell(x)|] + c[p + |Spell(x)|..p + |SpellAll(all)|];
  }

  lemma {:induction false} ChunksOf(c: Text, p: nat, end: nat) returns (xs: seq<Chunk>)
    requires p <= end < |c| && Unescape(c, p, end).Done?
    ensures Covers(c, p, xs, end)
    decreases end - p
  {
    hide At;
    if p == end {
      AtNothing(c, p);
      xs := [];
    } else {
      var x := ChunkAt(c, p);
      if c[p] == BACKSLASH { TablesAgree(c[p + 1]); }
      if c[p] == BACKSLASH && c[p + 1] == 117 {
        xs := UnitsOf(c, p, end);
      } else if p + |Spell(x)| <= end {
        xs := ChunksOf(c, p + |Spell(x)|, end);
        CoversMore(c, p, x, xs, end);
        xs := [x] + xs;
      } else {
        xs := [x];
        assert SpellAll(xs) == Spell(x) + SpellAll(xs[1..]) == Spell(x);
      }
    }
  }

  lemma {:induction false} UnitsOf(c: Text, p: nat, end: nat) returns (xs: seq<Chunk>)
    requires p < end < |c| && c[p] == BACKSLASH && c[p + 1] == 117 && Unescape(c, p, end).Done?
    ensures Covers(c, p, xs, end)
    decreases end - p, 0
  {
    hide At;
    var n := ReadUtf16(c, p, end).length;
    var x := ChunkAt(c, p);
    xs := ChunksOf(c, p + n, end);
    if n == 12 {
      var y := ChunkAt(c, p + 6);
      CoversMore(c, p + 6, y, xs, end);
      xs := [y] + xs;
    }
    CoversMore(c, p, x, xs, end);
    xs := [x] + xs;
  }

  /** The text up to the quote at `end` is chunks that denote `t`. */
  ghost predicate Spells(c: Text, p: nat, end: nat, t: Text) {
    exists xs :: Covers(c, p, xs, end) && Denoted(xs) == Some(t)
  }

  /**
   * parse_string accepts exactly the texts that are such chunks with every surrogate in a pair, and returns what
   * they denote: no digit of a \u escape need be one, and its four bytes may be quotes and backslashes.
   */
  lemma AcceptedIffSpelled(c: Text, o: nat, t: Text, next: nat)
    requires o < |c|
    ensures ParseString(c, o) == Parsed(t, next) <==>
            && c[o] == QUOTE && next > 0 && ScanFrom(c, o + 1, 0).Closed?
            && ScanFrom(c, o + 1, 0).end == next - 1 && Spells(c, o + 1, next - 1, t)
  {
    hide Covers, Unescape, ScanFrom;
    if c[o] == QUOTE && ScanFrom(c, o + 1, 0).Closed? {
      var end := ScanFrom(c, o + 1, 0).end;
      if Unescape(c, o + 1, end).Done? {
        var xs := ChunksOf(c, o + 1, end);
        CoveredChunks(c, o + 1, xs, end);
        UnescapeChunks(c, o + 1, xs, end);
        assert Denoted(xs) == Some(Unescape(c, o + 1, end).text);
      }
      forall xs | Covers(c, o + 1, xs, end) ensures AreChunks(xs) && Agrees(Unescape(c, o + 1, end), Denoted(xs)) {
        CoveredChunks(c, o + 1, xs, end);
        UnescapeChunks(c, o + 1, xs, end);
      }
    }
  }

  /** "\u12\"4": the escaped quote is taken for digits. */
  lemma QuoteAsDigits()
    ensures ParseString([QUOTE, BACKSLASH, 117, 49, 50, BACKSLASH, QUOTE, 52, QUOTE], 0) == Parsed([0, 52], 9)
  {
    var c := [QUOTE, BACKSLASH, 117, 49, 50, BACKSLASH, QUOTE, 52, QUOTE];
    assert ScanFrom(c, 7, 2) == Closed(8, 2);
    assert ScanFrom(c, 5, 1) == Closed(8, 2);
    assert ScanFrom(c, 1, 0) == ScanFrom(c, 3, 1) == ScanFrom(c, 4, 1) == Closed(8, 2);
    UnescapeDone(c, 8);
    assert Unescape(c, 7, 8) == Done([52]);
    assert HexValue(BACKSLASH).None? && Hex4(c, 3) == 0 && ReadUtf16(c, 1, 8) == Utf16(6, 0) && Encode(0) == [0];
    assert Unescape(c, 1, 8) == Prepend(Encode(0), Unescape(c, 7, 8)) == Done([0, 52]);
  }

  /** "\u123\\": one backslash is taken for a digit, and the other makes the closing quote part of the text. */
  lemma ClosingQuoteEscaped()
    ensures ParseString([QUOTE, BACKSLASH, 117, 49, 50, 51, BACKSLASH, BACKSLASH, QUOTE], 0) == Parsed([0, QUOTE], 9)
  {
    var c := [QUOTE, BACKSLASH, 117, 49, 50, 51, BACKSLASH, BACKSLASH, QUOTE];
    assert ScanFrom(c, 6, 1) == Closed(8, 2);
    assert ScanFrom(c, 1, 0) == ScanFrom(c, 3, 1) == ScanFrom(c, 4, 1) == ScanFrom(c, 5, 1) == Closed(8, 2);
    assert Unescape(c, 9, 8) == Done([]);
    assert Unescape(c, 7, 8) == Done([QUOTE]);
    assert HexValue(BACKSLASH).None? && Hex4(c, 3) == 0 && ReadUtf16(c, 1, 8) == Utf16(6, 0) && Encode(0) == [0];
    assert Unescape(c, 1, 8) == Prepend(Encode(0), Unescape(c, 7, 8)) == Done([0, QUOTE]);
  }
}
