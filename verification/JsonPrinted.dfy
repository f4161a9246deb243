/** What is printed, in terms of the standard and of its lines: JSON by RFC 8259, laid out one member to a line. */
module JsonPrinted {
  import opened Bytes
  import opened JsonTree
  import opened JsonNumber
  import opened JsonString
  import opened JsonPrint
  import opened JsonLiteral
  import opened JsonUnicode
  import JsonNumeral
  import opened JsonTokens
  import JsonSyntax
  import opened Utf8

  // ----- the layout -----

  function Joined(sep: Text, ts: seq<Text>): Text {
    if ts == [] then [] else if |ts| == 1 then ts[0] else ts[0] + sep + Joined(sep, ts[1..])
  }

  function ItemTexts(items: seq<Json>, depth: nat, format: bool): seq<Text>
    requires PrintableItems(items)
  {
    if items == [] then [] else [Print(items[0], depth, format)] + ItemTexts(items[1..], depth, format)
  }

  /** An array is its elements with commas between them, a space behind each comma in the formatted style. */
  lemma {:induction false} ArrayLayout(items: seq<Json>, depth: nat, format: bool)
    requires PrintableItems(items)
    ensures Print(Array(items), depth, format) ==
            [91] + Joined(if format then [44, 32] else [44], ItemTexts(items, depth + 1, format)) + [93]
  {
    ItemsLayout(items, depth, format);
  }

  lemma {:induction false} ItemsLayout(items: seq<Json>, depth: nat, format: bool)
    requires PrintableItems(items)
    ensures PrintItems(items, depth, format) ==
            Joined(if format then [44, 32] else [44], ItemTexts(items, depth + 1, format))
    decreases |items|
  {
    hide Print, Printable;
    if |items| > 1 {
      ItemsLayout(items[1..], depth, format);
      assert ItemTexts(items, depth + 1, format)[1..] == ItemTexts(items[1..], depth + 1, format);
    } else if |items| == 1 {
      assert ItemTexts(items, depth + 1, format) == [Print(items[0], depth + 1, format)];
    }
  }

  function Line(m: Member, depth: nat, format: bool): Text
    requires Printable(m.value)
  {
    if format then seq(depth, _ => 9) + Quoted(m.key) + [58, 9] + Print(m.value, depth, format)
    else Quoted(m.key) + [58] + Print(m.value, depth, format)
  }

  function Lines(members: seq<Member>, depth: nat, format: bool): seq<Text>
    requires PrintableMembers(members)
  {
    if members == [] then [] else [Line(members[0], depth, format)] + Lines(members[1..], depth, format)
  }

  /**
   * An object is its members with commas between them; in the formatted style each stands on a line of its own, one tab
   * further in than the closing brace, with a tab behind its colon.
   */
  lemma {:induction false} ObjectLayout(members: seq<Member>, depth: nat, format: bool)
    requires PrintableMembers(members)
    ensures Print(Object(members), depth, format) ==
            if !format then [123] + Joined([44], Lines(members, depth + 1, false)) + [125]
            else if members == [] then [123, 10] + seq(depth, _ => 9) + [125]
            else [123, 10] + Joined([44, 10], Lines(members, depth + 1, true)) + [10] + seq(depth, _ => 9) + [125]
  {
    hide Printable;
    assert Tabs(depth) == seq(depth, _ => 9);
    if members != [] {
      MembersLayout(members, depth, format);
      hide PrintMembers, Lines, Joined;
    }
  }

  lemma {:induction false} MembersLayout(members: seq<Member>, depth: nat, format: bool)
    requires PrintableMembers(members) && members != []
    ensures PrintMembers(members, depth, format) ==
            Joined(if format then [44, 10] else [44], Lines(members, depth + 1, format)) + (if format then [10] else [])
    decreases |members|
  {
    hide Print, Quoted, Printable, NulFree, Lines, PrintMembers, Line, Joined;
    LineFirst(members, depth, format);
    if |members| > 1 {
      MembersLayout(members[1..], depth, format);
      JoinedMore(if format then [44, 10] else [44], Line(members[0], depth + 1, format),
                 Lines(members[1..], depth + 1, format));
    } else {
      JoinedOne(if format then [44, 10] else [44], Line(members[0], depth + 1, format));
      assert Lines(members, depth + 1, format) == [Line(members[0], depth + 1, format)];
      var none, end: Text := [], if format then [10] else [];
      assert none + end == end;
    }
  }

  lemma JoinedOne(sep: Text, t: Text)
    ensures Joined(sep, [t]) == t
  {
  }

  lemma JoinedMore(sep: Text, t: Text, ts: seq<Text>)
    requires ts != []
    ensures Joined(sep, [t] + ts) == t + sep + Joined(sep, ts)
  {
    assert ([t] + ts)[1..] == ts;
  }

  /** The first line, what ends it, and the lines behind it. */
  lemma LineFirst(members: seq<Member>, depth: nat, format: bool)
    requires PrintableMembers(members) && members != []
    ensures PrintMembers(members, depth, format) ==
            Line(members[0], depth + 1, format)
            + ((if |members| == 1 then [] else [44]) + (if format then [10] else []))
            + PrintMembers(members[1..], depth, format)
    ensures Lines(members, depth + 1, format) ==
            [Line(members[0], depth + 1, format)] + Lines(members[1..], depth + 1, format)
    ensures |members| == 1 ==>
              Lines(members[1..], depth + 1, format) == [] && PrintMembers(members[1..], depth, format) == []
    ensures |members| > 1 ==> Lines(members[1..], depth + 1, format) != []
  {
    hide Print, Quoted, Printable, NulFree;
    assert Tabs(depth + 1) == seq(depth + 1, _ => 9);
  }

  // ----- strings and numbers by the standard -----

  /** A character as the printer writes it. */
  function CharOf(cp: scalar): Char { Char(cp, if cp < 128 then EscapeByte(cp) else Encode(cp)) }

  function CharsOf(cps: seq<scalar>): seq<Char> {
    if cps == [] then [] else [CharOf(cps[0])] + CharsOf(cps[1..])
  }

  lemma CharIsWritten(cp: scalar)
    ensures Writes(CharOf(cp).t, cp)
  {
    if cp < 32 && !LetterIs(EscapeByte(cp), cp) {
      assert EscapeByte(cp) == [92, 117, 48, 48, HexDigit(cp / 16), HexDigit(cp % 16)];
      assert cp / 4096 == 0 && cp / 256 % 16 == 0 && cp / 16 % 16 == cp / 16;
    }
  }

  lemma {:induction false} EscapeJoin(a: Text, b: Text)
    ensures Escape(a + b) == Escape(a) + Escape(b)
  {
    hide EscapeByte;
    if a == [] {
      assert a + b == b;
    } else {
      EscapeJoin(a[1..], b);
      assert (a + b)[1..] == a[1..] + b;
    }
  }

  lemma {:induction false} EscapeHigh(t: Text)
    requires forall k :: 0 <= k < |t| ==> t[k] >= 128
    ensures Escape(t) == t
  {
    if t != [] { EscapeHigh(t[1..]); }
  }

  lemma EscapeEncoded(cp: scalar)
    ensures Escape(Encode(cp)) == CharOf(cp).t
  {
    if cp < 128 {
      assert Encode(cp) == [cp] && [cp][1..] == [];
      assert Escape([cp]) == EscapeByte(cp) + Escape([]);
    } else {
      EscapeHigh(Encode(cp));
    }
  }

  lemma {:induction false} EscapeAllEncoded(cps: seq<scalar>)
    ensures Escape(EncodeAll(cps)) == TextOf(CharsOf(cps)) && AreWritten(CharsOf(cps))
    ensures CodePoints(CharsOf(cps)) == cps
  {
    hide Writes, EscapeByte;
    if cps != [] {
      EscapeAllEncoded(cps[1..]);
      EscapeEncoded(cps[0]);
      CharIsWritten(cps[0]);
      EscapeJoin(Encode(cps[0]), EncodeAll(cps[1..]));
      var xs := CharsOf(cps);
      assert xs[1..] == CharsOf(cps[1..]);
      forall k | 0 <= k < |xs| ensures Writes(xs[k].t, xs[k].cp) { if k > 0 { assert xs[k] == xs[1..][k - 1]; } }
      assert [cps[0]] + cps[1..] == cps;
    }
  }

  /** The text is well-formed UTF-8. */
  ghost predicate IsUtf8(t: Text) { exists cps :: t == EncodeAll(cps) }

  /** A printed string is a string of the standard, for the same UTF-8. */
  lemma QuotedIsStandard(t: Text)
    requires IsUtf8(t)
    ensures StandardString(Quoted(t), t)
  {
    var cps :| t == EncodeAll(cps);
    EscapeAllEncoded(cps);
    hide Escape, EncodeAll, TextOf, CodePoints, AreWritten;
    assert Quoted(t) == [34] + TextOf(CharsOf(cps)) + [34];
  }

  lemma {:induction false} DigitsBegin(n: nat)
    ensures JsonNumeral.AllDigits(Digits(n)) && (Digits(n)[0] == 48 ==> n == 0)
  {
    if n >= 10 { DigitsBegin(n / 10); }
  }

  /** A printed integer is a number of the standard, for the same value. */
  lemma IntegerIsStandard(n: int)
    ensures StandardNumber(IntegerText(n), Decimal(n, 0))
  {
    var m := if n < 0 then -n else n;
    var x := JsonNumeral.Numeral(if n < 0 then [45] else [], Digits(m), false, [], [], [], []);
    DigitsBegin(m);
    DigitsValueInverse(m);
    JsonNumeral.ValueIs(Digits(m));
    assert Digits(m) + [] == Digits(m);
    assert m == 0 ==> Digits(m) == [48];
    assert JsonNumeral.Spell(x) == IntegerText(n);
    assert JsonNumeral.Value([]) == 0;
    assert JsonNumeral.Denoted(x) == Decimal(n, 0);
    assert JsonNumeral.Standard(x);
  }

  // ----- whole texts -----

  ghost predicate Utf8Strings(j: Json)
    decreases j, 1
  {
    match j
    case String(t) => IsUtf8(t)
    case Array(items) => Utf8Items(items)
    case Object(members) => Utf8Members(members)
    case _ => true
  }

  ghost predicate Utf8Items(items: seq<Json>)
    decreases items, 0
  {
    items == [] || (Utf8Strings(items[0]) && Utf8Items(items[1..]))
  }

  ghost predicate Utf8Members(members: seq<Member>)
    decreases members, 0
  {
    members == [] || (IsUtf8(members[0].key) && Utf8Strings(members[0].value) && Utf8Members(members[1..]))
  }

  /** The text printed for a tree, by its parts. */
  function SourceOf(j: Json, depth: nat, format: bool): JsonSyntax.Source
    decreases j, 1
  {
    match j
    case Number(d) => JsonSyntax.Num(IntegerText(d.mantissa), d)
    case String(t) => JsonSyntax.Str(Quoted(t), t)
    case Array(items) => JsonSyntax.Arr([], ElementsOf(items, [], depth, format))
    case Object(members) =>
      JsonSyntax.Obj((if format then [10] else []) + Indent(depth, format), PairsOf(members, depth, format))
    case _ => JsonSyntax.Word(j)
  }

  function ElementsOf(items: seq<Json>, before: Text, depth: nat, format: bool): seq<JsonSyntax.Element>
    decreases items, 0
  {
    if items == [] then []
    else
      [JsonSyntax.Element(before, SourceOf(items[0], depth + 1, format), [])]
      + ElementsOf(items[1..], if format then [32] else [], depth, format)
  }

  function PairsOf(members: seq<Member>, depth: nat, format: bool): seq<JsonSyntax.Pair>
    decreases members, 0
  {
    if members == [] then []
    else
      var m, newline := members[0], if format then [10] else [];
      [JsonSyntax.Pair(newline + Indent(depth + 1, format), Quoted(m.key), m.key, [], if format then [9] else [],
                       SourceOf(m.value, depth + 1, format),
                       if |members| == 1 then newline + Indent(depth, format) else [])]
      + PairsOf(members[1..], depth, format)
  }

  lemma {:induction false} SourceSpells(j: Json, depth: nat, format: bool)
    requires Printable(j)
    ensures JsonSyntax.Spell(SourceOf(j, depth, format)) == Print(j, depth, format)
    decreases j, 1
  {
    match j
    case Array(items) =>
      if items != [] { ElementsSpell(items, [], depth, format); }
      hide ElementsOf, PrintItems, JsonSyntax.FromElement;
      if items == [] { NoParts(depth, format); }
    case Object(members) => ObjectSpells(members, depth, format);
    case _ =>
  }

  lemma NoParts(depth: nat, format: bool)
    ensures ElementsOf([], [], depth, format) == [] && PairsOf([], depth, format) == []
    ensures PrintItems([], depth, format) == [] && PrintMembers([], depth, format) == []
  {
  }

  lemma {:induction false} ElementsSpell(items: seq<Json>, before: Text, depth: nat, format: bool)
    requires PrintableItems(items) && items != []
    ensures var xs := ElementsOf(items, before, depth, format);
            xs != [] && xs[0].before == before && JsonSyntax.FromElement(xs) == PrintItems(items, depth, format) + [93]
    decreases items, 0
  {
    hide Print, Printable, SourceOf, JsonSyntax.Spell, PrintItems, ElementsOf, JsonSyntax.FromElement;
    SourceSpells(items[0], depth + 1, format);
    var blank: Text := if format then [32] else [];
    ElementsSplit(items, before, depth, format);
    if |items| > 1 {
      ElementsSpell(items[1..], blank, depth, format);
      assert [44] + blank == Comma(format);
    }
  }

  /** The first element, and the others. */
  lemma ElementsSplit(items: seq<Json>, before: Text, depth: nat, format: bool)
    requires PrintableItems(items) && items != []
    ensures var xs := ElementsOf(items, before, depth, format);
            var more := ElementsOf(items[1..], if format then [32] else [], depth, format);
            var first := JsonSyntax.Spell(SourceOf(items[0], depth + 1, format));
            && xs != [] && xs[0].before == before
            && (|items| == 1 ==> JsonSyntax.FromElement(xs) == first + [93])
            && (|items| > 1 && more != [] ==>
                JsonSyntax.FromElement(xs) == first + ([44] + (more[0].before + JsonSyntax.FromElement(more))))
    ensures |items| == 1 ==> PrintItems(items, depth, format) == Print(items[0], depth + 1, format)
    ensures |items| > 1 ==>
              PrintItems(items, depth, format) ==
              Print(items[0], depth + 1, format) + (Comma(format) + PrintItems(items[1..], depth, format))
  {
    hide Print, Printable, SourceOf, JsonSyntax.Spell, Comma;
    var xs := ElementsOf(items, before, depth, format);
    var blank: Text := if format then [32] else [];
    assert xs[1..] == ElementsOf(items[1..], blank, depth, format);
    if |items| == 1 {
      assert ElementsOf(items[1..], blank, depth, format) == [];
    } else if |xs| > 1 {
      assert xs[1] == xs[1..][0];
    }
  }

  lemma {:induction false} ObjectSpells(members: seq<Member>, depth: nat, format: bool)
    requires PrintableMembers(members)
    ensures JsonSyntax.Spell(SourceOf(Object(members), depth, format)) == Print(Object(members), depth, format)
    decreases members, 2
  {
    if members == [] {
      NoParts(depth, format);
      hide Indent;
    } else {
      PairsSpell(members, depth, format);
      MembersBegin(members, depth, format);
      hide PairsOf, PrintMembers, JsonSyntax.FromPair, FromKey, Indent, Printable;
      FullSpells(if format then [10] else [], Indent(depth + 1, format), FromKey(members, depth, format),
                 Indent(depth, format) + [125]);
    }
  }

  lemma FullSpells(newline: Text, indent: Text, body: Text, close: Text)
    ensures [123] + (newline + indent + (body + close)) == [123] + newline + (indent + body + close)
  {
  }

  lemma MembersBegin(members: seq<Member>, depth: nat, format: bool)
    requires PrintableMembers(members) && members != []
    ensures PrintMembers(members, depth, format) == Indent(depth + 1, format) + FromKey(members, depth, format)
  {
    hide FromKey, Indent;
  }

  lemma {:induction false} PairsSpell(members: seq<Member>, depth: nat, format: bool)
    requires PrintableMembers(members) && members != []
    ensures var ms := PairsOf(members, depth, format);
            && ms != [] && ms[0].before == (if format then [10] else []) + Indent(depth + 1, format)
            && JsonSyntax.FromPair(ms) == FromKey(members, depth, format) + (Indent(depth, format) + [125])
    decreases members, 1
  {
    hide Print, Printable, SourceOf, JsonSyntax.Spell, Quoted, Indent, NulFree;
    var m, newline: Text := members[0], if format then [10] else [];
    SourceSpells(m.value, depth + 1, format);
    var ms, value := PairsOf(members, depth, format), Print(m.value, depth + 1, format);
    assert ms[1..] == PairsOf(members[1..], depth, format);
    assert Colon(format) == [58] + ms[0].afterColon;
    var close := Indent(depth, format) + [125];
    if |members| > 1 {
      PairsSpell(members[1..], depth, format);
      MembersBegin(members[1..], depth, format);
      assert |ms| > 1 && ms[1] == ms[1..][0];
      assert MemberEnd(false, format) == [44] + newline;
      MoreSpells(Quoted(m.key), ms[0].afterColon, value, newline, Indent(depth + 1, format),
                 FromKey(members[1..], depth, format), close);
    } else {
      assert members[1..] == [] && PrintMembers(members[1..], depth, format) == [];
      assert MemberEnd(true, format) == newline;
      LastSpells(Quoted(m.key), ms[0].afterColon, value, newline, Indent(depth, format));
    }
  }

  lemma MoreSpells(key: Text, tab: Text, value: Text, newline: Text, indent: Text, rest: Text, close: Text)
    ensures key + ([] + ([58] + (tab + (value + ([] + ([44] + (newline + indent + (rest + close)))))))) ==
            key + ([58] + tab + (value + ([44] + newline + (indent + rest)))) + close
  {
  }

  lemma LastSpells(key: Text, tab: Text, value: Text, newline: Text, indent: Text)
    ensures key + ([] + ([58] + (tab + (value + (newline + indent + [125]))))) ==
            key + ([58] + tab + (value + (newline + []))) + (indent + [125])
  {
  }

  lemma BlankPieces(depth: nat, format: bool)
    ensures JsonSyntax.IsBlank((if format then [10] else []) + Indent(depth, format), true)
    ensures JsonSyntax.IsBlank([], true) && JsonSyntax.IsBlank(if format then [9] else [], true)
    ensures JsonSyntax.IsBlank(if format then [32] else [], true)
  {
  }

  lemma {:induction false} SourceIsStandard(j: Json, depth: nat, format: bool)
    requires Printable(j) && Utf8Strings(j)
    ensures JsonSyntax.Fine(SourceOf(j, depth, format), true) && JsonSyntax.Tree(SourceOf(j, depth, format)) == j
    ensures JsonSyntax.Short(SourceOf(j, depth, format))
    decreases j, 1
  {
    hide StandardString, StandardNumber, Quoted, IntegerText, Indent, JsonSyntax.IsBlank, IsUtf8, NulFree, IsPrintable;
    BlankPieces(depth, format);
    match j
    case Number(d) => NumberIsStandard(d);
    case String(t) => QuotedIsStandard(t);
    case Array(items) => ElementsAreStandard(items, [], depth, format);
    case Object(members) => PairsAreStandard(members, depth, format);
    case _ =>
  }

  lemma NumberIsStandard(d: Decimal)
    requires IsPrintable(d)
    ensures StandardNumber(IntegerText(d.mantissa), d) && |IntegerText(d.mantissa)| <= 63
  {
    hide IntegerText, StandardNumber;
    IntegerIsStandard(d.mantissa);
    IntegerTextLength(d);
    assert d == Decimal(d.mantissa, 0);
  }

  lemma {:induction false} ElementsAreStandard(items: seq<Json>, before: Text, depth: nat, format: bool)
    requires PrintableItems(items) && Utf8Items(items) && JsonSyntax.IsBlank(before, true)
    ensures var xs := ElementsOf(items, before, depth, format);
            JsonSyntax.FineElements(xs, true) && JsonSyntax.Trees(xs) == items && JsonSyntax.ShortElements(xs)
    decreases items, 0
  {
    hide SourceOf, JsonSyntax.Fine, JsonSyntax.Tree, JsonSyntax.Short, Printable, Utf8Strings;
    if items != [] {
      BlankPieces(depth, format);
      SourceIsStandard(items[0], depth + 1, format);
      ElementsAreStandard(items[1..], if format then [32] else [], depth, format);
      assert ElementsOf(items, before, depth, format)[1..] ==
             ElementsOf(items[1..], if format then [32] else [], depth, format);
      assert items == [items[0]] + items[1..];
    }
  }

  lemma {:induction false} PairsAreStandard(members: seq<Member>, depth: nat, format: bool)
    requires PrintableMembers(members) && Utf8Members(members)
    ensures var ms := PairsOf(members, depth, format);
            JsonSyntax.FinePairs(ms, true) && JsonSyntax.MemberTrees(ms) == members && JsonSyntax.ShortPairs(ms)
    decreases members, 0
  {
    hide SourceOf, JsonSyntax.Fine, JsonSyntax.Tree, JsonSyntax.Short, Printable, Utf8Strings;
    hide StandardString, Quoted, IsUtf8, JsonSyntax.IsBlank, Indent, NulFree;
    if members != [] {
      var m := members[0];
      BlankPieces(depth, format);
      BlankPieces(depth + 1, format);
      QuotedIsStandard(m.key);
      SourceIsStandard(m.value, depth + 1, format);
      PairsAreStandard(members[1..], depth, format);
      assert PairsOf(members, depth, format)[1..] == PairsOf(members[1..], depth, format);
      assert members == [m] + members[1..] && m == Member(m.key, m.value);
    }
  }

  /**
   * What is printed for a tree whose strings are UTF-8, in either format, is a JSON text of RFC 8259 that stands for
   * the tree.
   */
  lemma PrintedIsJson(j: Json, format: bool)
    requires Printable(j) && Utf8Strings(j)
    ensures exists s ::
              JsonSyntax.Fine(s, true) && JsonSyntax.Spell(s) == Print(j, 0, format) && JsonSyntax.Tree(s) == j
  {
    hide SourceOf, Print, JsonSyntax.Fine, JsonSyntax.Spell, JsonSyntax.Tree;
    SourceSpells(j, 0, format);
    SourceIsStandard(j, 0, format);
  }
}
