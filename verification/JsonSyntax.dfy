/**
 * JSON texts, written by anybody: their grammar, and that `parse_value` accepts exactly these texts, each as the tree
 * it stands for.
 */
module JsonSyntax {
  import opened Bytes
  import opened JsonTree
  import opened JsonNumber
  import opened JsonString
  import opened JsonParse
  import opened JsonRoundTrip
  import opened JsonTokens

  // ----- texts -----

  /** A value as it is written; numbers and strings with their texts and what these stand for. */
  datatype Source =
    | Word(tree: Json)
    | Num(t: Text, d: Decimal)
    | Str(t: Text, v: Text)
    | Arr(inner: Text, items: seq<Element>)
    | Obj(inner: Text, members: seq<Pair>)

  /** An element or a member with the blanks around its parts; `inner` above is what stands in empty brackets. */
  datatype Element = Element(before: Text, value: Source, after: Text)

  datatype Pair = Pair(before: Text, key: Text, name: Text, beforeColon: Text, afterColon: Text,
                       value: Source, after: Text)

  function Spell(s: Source): Text
    decreases s, 1
  {
    match s
    case Word(Null) => [110, 117, 108, 108]
    case Word(False) => [102, 97, 108, 115, 101]
    case Word(_) => [116, 114, 117, 101]
    case Num(t, _) => t
    case Str(t, _) => t
    case Arr(inner, items) => [91] + (if items == [] then inner + [93] else items[0].before + FromElement(items))
    case Obj(inner, members) => [123] + (if members == [] then inner + [125] else members[0].before + FromPair(members))
  }

  /** The elements from the first one's value on, with the closing bracket. */
  function FromElement(items: seq<Element>): Text
    requires items != []
    decreases items, 0
  {
    Spell(items[0].value) + (items[0].after
    + (if |items| == 1 then [93] else [44] + (items[1].before + FromElement(items[1..]))))
  }

  function FromPair(members: seq<Pair>): Text
    requires members != []
    decreases members, 0
  {
    members[0].key + (members[0].beforeColon + ([58] + (members[0].afterColon + (Spell(members[0].value)
    + (members[0].after + (if |members| == 1 then [125] else [44] + (members[1].before + FromPair(members[1..]))))))))
  }

  /** The value a text stands for. */
  function Tree(s: Source): Json
    decreases s, 1
  {
    match s
    case Word(j) => j
    case Num(_, d) => Number(d)
    case Str(_, v) => String(v)
    case Arr(_, items) => Array(Trees(items))
    case Obj(_, members) => Object(MemberTrees(members))
  }

  function Trees(items: seq<Element>): seq<Json>
    decreases items, 0
  {
    if items == [] then [] else [Tree(items[0].value)] + Trees(items[1..])
  }

  function MemberTrees(members: seq<Pair>): seq<Member>
    decreases members, 0
  {
    if members == [] then [] else [Member(members[0].name, Tree(members[0].value))] + MemberTrees(members[1..])
  }

  /** The parts are words, numbers, strings and blanks, of the standard or of the code. */
  ghost predicate Fine(s: Source, standard: bool)
    decreases s, 1
  {
    match s
    case Word(j) => j.Null? || j.False? || j.True?
    case Num(t, d) => if standard then StandardNumber(t, d) else NumberText(t, d)
    case Str(t, v) => if standard then StandardString(t, v) else StringText(t, v)
    case Arr(inner, items) => IsBlank(inner, standard) && FineElements(items, standard)
    case Obj(inner, members) => IsBlank(inner, standard) && FinePairs(members, standard)
  }

  ghost predicate FineElements(items: seq<Element>, standard: bool)
    decreases items, 0
  {
    items == [] || (IsBlank(items[0].before, standard) && Fine(items[0].value, standard)
                    && IsBlank(items[0].after, standard) && FineElements(items[1..], standard))
  }

  ghost predicate FinePairs(members: seq<Pair>, standard: bool)
    decreases members, 0
  {
    members == [] || (
      && IsBlank(members[0].before, standard)
      && (if standard then StandardString(members[0].key, members[0].name)
          else StringText(members[0].key, members[0].name))
      && IsBlank(members[0].beforeColon, standard) && IsBlank(members[0].afterColon, standard)
      && Fine(members[0].value, standard) && IsBlank(members[0].after, standard) && FinePairs(members[1..], standard))
  }

  /** Whitespace of RFC 8259 section 2; to the code every byte up to the space is blank. */
  predicate IsBlank(t: Text, standard: bool) {
    if standard then forall k :: 0 <= k < |t| ==> t[k] in {9, 10, 13, 32} else Blank(t)
  }

  /** No number is longer than the code's buffer. */
  predicate Short(s: Source)
    decreases s, 1
  {
    match s
    case Word(_) => true
    case Num(t, _) => |t| <= 63
    case Str(_, _) => true
    case Arr(_, items) => ShortElements(items)
    case Obj(_, members) => ShortPairs(members)
  }

  predicate ShortElements(items: seq<Element>)
    decreases items, 0
  {
    items == [] || (Short(items[0].value) && ShortElements(items[1..]))
  }

  predicate ShortPairs(members: seq<Pair>)
    decreases members, 0
  {
    members == [] || (Short(members[0].value) && ShortPairs(members[1..]))
  }

  // ----- what is written by the standard is written by the code's rules -----

  lemma {:induction false} StandardIsFine(s: Source)
    requires Fine(s, true)
    ensures Fine(s, false)
    decreases s, 1
  {
    match s
    case Word(_) =>
    case Num(t, d) => StandardNumberFine(t, d);
    case Str(t, v) => StandardStringFine(t, v);
    case Arr(_, items) => StandardElementsFine(items);
    case Obj(_, members) => StandardPairsFine(members);
  }

  lemma {:induction false} StandardElementsFine(items: seq<Element>)
    requires FineElements(items, true)
    ensures FineElements(items, false)
    decreases items, 0
  {
    if items != [] {
      StandardIsFine(items[0].value);
      StandardElementsFine(items[1..]);
    }
  }

  lemma {:induction false} StandardPairsFine(members: seq<Pair>)
    requires FinePairs(members, true)
    ensures FinePairs(members, false)
    decreases members, 0
  {
    hide StandardString, StringText;
    if members != [] {
      StandardStringFine(members[0].key, members[0].name);
      StandardIsFine(members[0].value);
      StandardPairsFine(members[1..]);
    }
  }

  // ----- every such text is parsed -----

  lemma SpellFirst(s: Source)
    requires Fine(s, false)
    ensures Spell(s) != [] && Spell(s)[0] > 32 && Spell(s)[0] !in {44, 58, 93, 125}
    ensures !s.Word? ==> Spell(s)[0] !in {102, 110, 116}
    ensures s.Str? ==> Spell(s)[0] == 34
    ensures s.Num? ==> Spell(s)[0] == 45 || IsDigit(Spell(s)[0])
    ensures s.Arr? ==> Spell(s)[0] == 91
    ensures s.Obj? ==> Spell(s)[0] == 123
  {
    match s
    case Num(t, d) => NumberFirst(t, d);
    case Str(t, v) => StringFirst(t, v);
    case _ =>
  }

  /** The parser stopped, or stands in front of a byte of a number, where nothing can go on. */
  predicate Stuck<T>(c: Text, r: ParseResult<T>) {
    r.Failed? || (r.next < |c| && IsNumberByte(c[r.next]))
  }

  /** A value with anything behind it that is no part of a number. */
  lemma {:induction false} ValueRead(c: Text, o: nat, s: Source)
    requires Terminated(c) && Fine(s, false) && At(c, o, Spell(s)) && Follows(c, o + |Spell(s)|)
    ensures o < |c|
    ensures Short(s) ==> ParseValue(c, o) == Parsed(Tree(s), o + |Spell(s)|)
    ensures !Short(s) ==> Stuck(c, ParseValue(c, o)) && (!s.Num? ==> ParseValue(c, o).Failed?)
    decreases s, 1
  {
    SpellFirst(s);
    AtIndex(c, o, Spell(s), 0);
    match s {
      case Word(j) => WordRead(c, o, j);
      case Num(t, d) => NoWord(c, o); NumberRead(c, o, t, d);
      case Str(t, v) => NoWord(c, o); StringRead(c, o, t, v);
      case Arr(inner, items) => NoWord(c, o); ArrayRead(c, o, inner, items);
      case Obj(inner, members) => NoWord(c, o); ObjectRead(c, o, inner, members);
    }
  }

  lemma WordRead(c: Text, o: nat, j: Json)
    requires Terminated(c) && o < |c| && Fine(Word(j), false) && At(c, o, Spell(Word(j)))
    ensures ParseValue(c, o) == Parsed(j, o + |Spell(Word(j))|)
  {
    match j {
      case Null =>
      case False => AtIndex(c, o, Spell(Word(j)), 0);
      case True => NotFalse(c, o);
    }
  }

  /** The byte behind a value, its blank and the closing bracket or comma. */
  lemma AfterValue(c: Text, end: nat, after: Text, rest: Text)
    requires Terminated(c) && At(c, end, after + rest) && Blank(after) && rest != [] && rest[0] in {44, 58, 93, 125}
    ensures Follows(c, end) && SkipWhitespace(c, end) == end + |after| && c[end + |after|] == rest[0]
    ensures At(c, end + |after|, rest)
  {
    hide At;
    AtConcat(c, end, after, rest);
    AtIndex(c, end + |after|, rest, 0);
    SkipOver(c, end, after);
    if after != [] { AtIndex(c, end, after, 0); }
  }

  /** The blank in front of a value. */
  lemma BeforeValue(c: Text, o: nat, before: Text, rest: Text)
    requires Terminated(c) && At(c, o, before + rest) && Blank(before) && rest != [] && rest[0] > 32
    ensures SkipWhitespace(c, o) == o + |before| < |c| && At(c, o + |before|, rest) && c[o + |before|] == rest[0]
  {
    hide At;
    AtConcat(c, o, before, rest);
    AtIndex(c, o + |before|, rest, 0);
    SkipOver(c, o, before);
  }

  lemma {:induction false} ArrayRead(c: Text, o: nat, inner: Text, items: seq<Element>)
    requires Terminated(c) && o < |c| && Fine(Arr(inner, items), false) && At(c, o, Spell(Arr(inner, items)))
    ensures c[o] == LBRACKET
    ensures ShortElements(items) ==> ParseArray(c, o) == Parsed(Trees(items), o + |Spell(Arr(inner, items))|)
    ensures !ShortElements(items) ==> ParseArray(c, o).Failed?
    decreases items, 2
  {
    hide At, SkipWhitespace, ParseItems, Fine, FromElement;
    FineArr(inner, items);
    var rest := if items == [] then inner + [93] else items[0].before + FromElement(items);
    AtConcat(c, o, [91], rest);
    AtIndex(c, o, [91], 0);
    if items == [] {
      BeforeValue(c, o + 1, inner, [93]);
    } else {
      ElementFirst(items);
      BeforeValue(c, o + 1, items[0].before, FromElement(items));
      var first := o + 1 + |items[0].before|;
      SkipNothing(c, first);
      ElementsRead(c, first - 1, first, items);
    }
  }

  lemma FineArr(inner: Text, items: seq<Element>)
    requires Fine(Arr(inner, items), false)
    ensures Blank(inner) && FineElements(items, false)
  {
  }

  lemma FineItems(items: seq<Element>)
    requires FineElements(items, false) && items != []
    ensures Blank(items[0].before) && Fine(items[0].value, false) && Blank(items[0].after)
    ensures FineElements(items[1..], false)
  {
  }

  lemma ElementFirst(items: seq<Element>)
    requires FineElements(items, false) && items != []
    ensures FromElement(items) != [] && FromElement(items)[0] > 32 && FromElement(items)[0] != RBRACKET
    ensures Blank(items[0].before)
  {
    SpellFirst(items[0].value);
  }

  lemma {:induction false} ElementsRead(c: Text, o: nat, first: nat, items: seq<Element>)
    requires Terminated(c) && o + 1 < |c| && items != [] && FineElements(items, false)
    requires SkipWhitespace(c, o + 1) == first && At(c, first, FromElement(items))
    ensures ShortElements(items) ==> ParseItems(c, o) == Parsed(Trees(items), first + |FromElement(items)|)
    ensures !ShortElements(items) ==> ParseItems(c, o).Failed?
    decreases items, 1
  {
    hide At, SkipWhitespace, ParseValue, Fine, FineElements, Spell, Blank, Follows, Terminated, Short;
    FineItems(items);
    var s, after, end := items[0].value, items[0].after, first + |Spell(items[0].value)|;
    var tail := if |items| == 1 then [93] else [44] + (items[1].before + FromElement(items[1..]));
    AtConcat(c, first, Spell(s), after + tail);
    AfterValue(c, end, after, tail);
    ValueRead(c, first, s);
    if Short(s) {
      var sep := end + |after|;
      if |items| == 1 {
        assert items[1..] == [] && ShortElements(items[1..]) && Trees(items[1..]) == [];
        assert Trees(items) == [Tree(s)];
      } else {
        AtConcat(c, sep, [44], items[1].before + FromElement(items[1..]));
        ElementFirst(items[1..]);
        assert items[1] == items[1..][0];
        BeforeValue(c, sep + 1, items[1].before, FromElement(items[1..]));
        ElementsRead(c, sep, sep + 1 + |items[1].before|, items[1..]);
      }
    } else if ParseValue(c, first).Parsed? {
      SkipNothing(c, ParseValue(c, first).next);
    }
  }

  lemma {:induction false} ObjectRead(c: Text, o: nat, inner: Text, members: seq<Pair>)
    requires Terminated(c) && o < |c| && Fine(Obj(inner, members), false) && At(c, o, Spell(Obj(inner, members)))
    ensures c[o] == LBRACE
    ensures ShortPairs(members) ==> ParseObject(c, o) == Parsed(MemberTrees(members), o + |Spell(Obj(inner, members))|)
    ensures !ShortPairs(members) ==> ParseObject(c, o).Failed?
    decreases members, 2
  {
    hide At, SkipWhitespace, ParseMembers, Fine, FromPair;
    FineObj(inner, members);
    var rest := if members == [] then inner + [125] else members[0].before + FromPair(members);
    AtConcat(c, o, [123], rest);
    AtIndex(c, o, [123], 0);
    if members == [] {
      BeforeValue(c, o + 1, inner, [125]);
    } else {
      KeyBegins(members);
      BeforeValue(c, o + 1, members[0].before, FromPair(members));
      var first := o + 1 + |members[0].before|;
      SkipNothing(c, first);
      PairsRead(c, first - 1, first, members);
    }
  }

  lemma FineObj(inner: Text, members: seq<Pair>)
    requires Fine(Obj(inner, members), false)
    ensures Blank(inner) && FinePairs(members, false)
  {
  }

  lemma FineMembers(members: seq<Pair>)
    requires FinePairs(members, false) && members != []
    ensures var m := members[0];
            && Blank(m.before) && StringText(m.key, m.name) && Blank(m.beforeColon) && Blank(m.afterColon)
            && Fine(m.value, false) && Blank(m.after)
    ensures FinePairs(members[1..], false)
  {
    hide StringText, Fine;
  }

  lemma KeyBegins(members: seq<Pair>)
    requires FinePairs(members, false) && members != []
    ensures FromPair(members) != [] && FromPair(members)[0] == 34 && Blank(members[0].before)
  {
    StringFirst(members[0].key, members[0].name);
  }

  /** One member, up to the end of its value; `rest` is the comma or brace behind it and all that follows. */
  lemma {:induction false} PairRead(c: Text, o: nat, first: nat, m: Pair, rest: Text)
    requires Terminated(c) && o + 1 < |c| && SkipWhitespace(c, o + 1) == first && rest != [] && rest[0] in {44, 125}
    requires StringText(m.key, m.name) && Blank(m.beforeColon) && Blank(m.afterColon) && Fine(m.value, false)
    requires Blank(m.after)
    requires At(c, first, m.key + (m.beforeColon + ([58] + (m.afterColon + (Spell(m.value) + (m.after + rest))))))
    ensures var end := first + |m.key| + |m.beforeColon| + 1 + |m.afterColon| + |Spell(m.value)|;
            && At(c, end, m.after + rest)
            && (Short(m.value) ==> ParseMember(c, o) == Parsed(Member(m.name, Tree(m.value)), end))
            && (!Short(m.value) ==> Stuck(c, ParseMember(c, o)))
    decreases m.value, 2
  {
    hide At, SkipWhitespace, ParseValue, ParseString, Fine, Spell, Blank, Follows, StringText, Short, Tree, Terminated;
    var behind := Spell(m.value) + (m.after + rest);
    var fromColon := [58] + (m.afterColon + behind);
    var afterKey := first + |m.key|;
    var colon := afterKey + |m.beforeColon|;
    AtConcat(c, first, m.key, m.beforeColon + fromColon);
    StringRead(c, first, m.key, m.name);
    AfterValue(c, afterKey, m.beforeColon, fromColon);
    AtConcat(c, colon, [58], m.afterColon + behind);
    SpellFirst(m.value);
    BeforeValue(c, colon + 1, m.afterColon, behind);
    var v := colon + 1 + |m.afterColon|;
    AtConcat(c, v, Spell(m.value), m.after + rest);
    AfterValue(c, v + |Spell(m.value)|, m.after, rest);
    ValueRead(c, v, m.value);
    MemberGoes(c, o, m.name, first, afterKey, colon, v);
  }

  /** The steps of parse_object for one member, from what each call leaves. */
  lemma MemberGoes(c: Text, o: nat, name: Text, first: nat, afterKey: nat, colon: nat, v: nat)
    requires Terminated(c) && o + 1 < |c| && first < afterKey <= colon < v < |c|
    requires SkipWhitespace(c, o + 1) == first && ParseString(c, first) == Parsed(name, afterKey)
    requires SkipWhitespace(c, afterKey) == colon && c[colon] == COLON && SkipWhitespace(c, colon + 1) == v
    ensures ParseMember(c, o) ==
            match ParseValue(c, v)
            case Failed(at) => Failed(at)
            case Parsed(value, next) => Parsed(Member(name, value), next)
  {
  }

  lemma {:induction false} PairsRead(c: Text, o: nat, first: nat, members: seq<Pair>)
    requires Terminated(c) && o + 1 < |c| && members != [] && FinePairs(members, false)
    requires SkipWhitespace(c, o + 1) == first && At(c, first, FromPair(members))
    ensures ShortPairs(members) ==> ParseMembers(c, o) == Parsed(MemberTrees(members), first + |FromPair(members)|)
    ensures !ShortPairs(members) ==> ParseMembers(c, o).Failed?
    decreases members, 1
  {
    hide At, SkipWhitespace, ParseMember, Fine, FinePairs, Spell, Blank, Follows, Terminated, Short, StringText, Tree;
    FineMembers(members);
    var m := members[0];
    var rest := if |members| == 1 then [125] else [44] + (members[1].before + FromPair(members[1..]));
    PairRead(c, o, first, m, rest);
    var end := first + |m.key| + |m.beforeColon| + 1 + |m.afterColon| + |Spell(m.value)|;
    AfterValue(c, end, m.after, rest);
    if Short(m.value) {
      var sep := end + |m.after|;
      if |members| == 1 {
        assert members[1..] == [] && ShortPairs(members[1..]) && MemberTrees(members[1..]) == [];
        assert MemberTrees(members) == [Member(m.name, Tree(m.value))];
      } else {
        AtConcat(c, sep, [44], members[1].before + FromPair(members[1..]));
        KeyBegins(members[1..]);
        assert members[1] == members[1..][0];
        BeforeValue(c, sep + 1, members[1].before, FromPair(members[1..]));
        PairsRead(c, sep, sep + 1 + |members[1].before|, members[1..]);
      }
    } else if ParseMember(c, o).Parsed? {
      SkipNothing(c, ParseMember(c, o).next);
    }
  }
}
