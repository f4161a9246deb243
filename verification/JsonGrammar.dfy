/** The other direction: only JSON texts are parsed. Together, exactly which documents are, and as what. */
module JsonGrammar {
  import opened Bytes
  import opened JsonTree
  import opened JsonNumber
  import JsonNumeral
  import opened JsonString
  import opened JsonPrint
  import opened JsonParse
  import opened JsonRoundTrip
  import opened JsonTokens
  import opened JsonSyntax
  import opened JsonParseBuffer

  // ----- whatever is parsed is a text of the grammar -----

  lemma {:induction false} SkippedIsBlank(c: Text, o: nat)
    requires o <= |c|
    ensures Blank(c[o..SkipBlanks(c, o)])
    decreases |c| - o
  {
    if o < |c| && c[o] <= 32 {
      SkippedIsBlank(c, o + 1);
      var e := SkipBlanks(c, o);
      assert c[o..e] == [c[o]] + c[o + 1..e];
    }
  }

  /** What is skipped is blank. */
  lemma Skipped(c: Text, o: nat)
    requires Terminated(c) && o < |c|
    ensures o <= SkipWhitespace(c, o) < |c| && Blank(c[o..SkipWhitespace(c, o)])
  {
    SkippedIsBlank(c, o);
    var e := SkipBlanks(c, o);
    if e == |c| { assert c[o..e - 1] == c[o..e][..e - 1 - o]; }
  }

  lemma Standing(c: Text, o: nat, e: nat)
    requires o <= e <= |c|
    ensures At(c, o, c[o..e])
  {
  }

  lemma OneByte(c: Text, o: nat)
    requires o < |c|
    ensures At(c, o, [c[o]])
  {
  }

  lemma Beside(c: Text, o: nat, a: Text, b: Text)
    requires At(c, o, a) && At(c, o + |a|, b)
    ensures At(c, o, a + b)
  {
    assert c[o..o + |a| + |b|] == c[o..o + |a|] + c[o + |a|..o + |a| + |b|];
  }

  lemma {:induction false} ValueHas(c: Text, o: nat) returns (s: Source)
    requires Terminated(c) && o < |c| && ParseValue(c, o).Parsed?
    ensures Fine(s, false) && Short(s) && At(c, o, Spell(s)) && ParseValue(c, o) == Parsed(Tree(s), o + |Spell(s)|)
    decreases |c| - o, 3
  {
    hide At, ParseString, ParseNumber, ParseArray, ParseObject, Terminated;
    var r := ParseValue(c, o);
    if At(c, o, NULL_TEXT) {
      s := Word(Null);
    } else if At(c, o, FALSE_TEXT) {
      s := Word(False);
    } else if At(c, o, TRUE_TEXT) {
      s := Word(True);
    } else if c[o] == QUOTE {
      StringHas(c, o);
      s := Str(c[o..r.next], ParseString(c, o).value);
      Standing(c, o, r.next);
    } else if c[o] == 45 || IsDigit(c[o]) {
      NumberHas(c, o);
      s := Num(c[o..r.next], ParseNumber(c, o).value);
      Standing(c, o, r.next);
    } else if c[o] == LBRACKET {
      s := ArrayHas(c, o);
    } else {
      s := ObjectHas(c, o);
    }
  }

  lemma {:induction false} ArrayHas(c: Text, o: nat) returns (s: Source)
    requires Terminated(c) && o < |c| && c[o] == LBRACKET && ParseArray(c, o).Parsed?
    ensures s.Arr? && Fine(s, false) && Short(s) && At(c, o, Spell(s))
    ensures ParseArray(c, o) == Parsed(Trees(s.items), o + |Spell(s)|)
    decreases |c| - o, 1
  {
    hide At, ParseItems, SkipWhitespace, Blank;
    assert o + 1 < |c| by { NotLast(c, o); }
    var first := SkipWhitespace(c, o + 1);
    Skipped(c, o + 1);
    OneByte(c, o);
    Standing(c, o + 1, first);
    if c[first] == RBRACKET {
      s := Arr(c[o + 1..first], []);
      EmptyOnes(s.inner);
      hide Fine, Short, Spell, Trees;
      OneByte(c, first);
      Beside(c, o + 1, s.inner, [93]);
      Beside(c, o, [91], s.inner + [93]);
    } else {
      hide FineElements, ShortElements, FromElement, Trees, Fine, Short, Spell;
      SkipAgain(c, o + 1);
      var items := ElementsHas(c, first - 1);
      var others := [items[0].(before := c[o + 1..first])] + items[1..];
      OtherBlank(items, c[o + 1..first]);
      Beside(c, o + 1, c[o + 1..first], FromElement(items));
      Beside(c, o, [91], c[o + 1..first] + FromElement(items));
      s := Arr([], others);
      WholeArray(others);
    }
  }

  lemma EmptyOnes(inner: Text)
    requires Blank(inner)
    ensures Fine(Arr(inner, []), false) && Short(Arr(inner, [])) && Trees([]) == []
    ensures Spell(Arr(inner, [])) == [91] + (inner + [93])
    ensures Fine(Obj(inner, []), false) && Short(Obj(inner, [])) && MemberTrees([]) == []
    ensures Spell(Obj(inner, [])) == [123] + (inner + [125])
  {
  }

  lemma WholeArray(items: seq<Element>)
    requires items != [] && FineElements(items, false) && ShortElements(items)
    ensures Fine(Arr([], items), false) && Short(Arr([], items))
    ensures Spell(Arr([], items)) == [91] + (items[0].before + FromElement(items))
  {
    hide FineElements, ShortElements, FromElement;
  }

  lemma BlankNothing()
    ensures Blank([])
  {
  }

  lemma NotLast(c: Text, o: nat)
    requires Terminated(c) && o < |c| && c[o] != NUL
    ensures o + 1 < |c|
  {
  }

  lemma SkipAgain(c: Text, o: nat)
    requires Terminated(c) && o < |c|
    ensures SkipWhitespace(c, SkipWhitespace(c, o)) == SkipWhitespace(c, o)
  {
    SkipEnds(c, o);
  }

  lemma {:induction false} SkipEnds(c: Text, o: nat)
    requires o <= |c|
    ensures SkipBlanks(c, o) == |c| || c[SkipBlanks(c, o)] > 32
    decreases |c| - o
  {
    if o < |c| && c[o] <= 32 { SkipEnds(c, o + 1); }
  }

  /** The blank in front of the first element is not part of what `FromElement` spells. */
  lemma OtherBlank(items: seq<Element>, before: Text)
    requires items != [] && FineElements(items, false) && Blank(before)
    ensures var others := [items[0].(before := before)] + items[1..];
            && FineElements(others, false) && FromElement(others) == FromElement(items)
            && Trees(others) == Trees(items) && (ShortElements(others) <==> ShortElements(items))
            && others[0].before == before && others != []
  {
    var others := [items[0].(before := before)] + items[1..];
    assert others[1..] == items[1..];
  }

  /** From the byte in front of an element to the closing bracket. */
  lemma {:induction false} ElementsHas(c: Text, o: nat) returns (items: seq<Element>)
    requires Terminated(c) && o + 1 < |c| && ParseItems(c, o).Parsed?
    ensures items != [] && FineElements(items, false) && ShortElements(items)
    ensures At(c, SkipWhitespace(c, o + 1), FromElement(items))
    ensures ParseItems(c, o) == Parsed(Trees(items), SkipWhitespace(c, o + 1) + |FromElement(items)|)
    decreases |c| - o, 0
  {
    hide At, ParseValue, SkipWhitespace, Blank, Fine, Spell, Short, Tree;
    hide FineElements, ShortElements, FromElement, Trees;
    var first := SkipWhitespace(c, o + 1);
    Skipped(c, o + 1);
    var value := ValueHas(c, first);
    var end := first + |Spell(value)|;
    Skipped(c, end);
    var sep := SkipWhitespace(c, end);
    BlankNothing();
    var item := Element([], value, c[end..sep]);
    if c[sep] == COMMA {
      NotLast(c, sep);
      var more := ElementsHas(c, sep);
      items := ElementBefore(c, first, end, sep, item, more);
    } else {
      items := [item];
      LastItem(item);
      Standing(c, end, sep);
      OneByte(c, sep);
      Beside(c, end, item.after, [93]);
      Beside(c, first, Spell(value), item.after + [93]);
    }
  }

  lemma ElementBefore(c: Text, first: nat, end: nat, sep: nat, item: Element, more: seq<Element>)
    returns (items: seq<Element>)
    requires Terminated(c) && end <= sep < |c| && c[sep] == COMMA && item.after == c[end..sep] && sep + 1 < |c|
    requires end == first + |Spell(item.value)| && At(c, first, Spell(item.value))
    requires Blank(item.before) && Fine(item.value, false) && Short(item.value) && Blank(item.after)
    requires more != [] && FineElements(more, false) && ShortElements(more)
    requires At(c, SkipWhitespace(c, sep + 1), FromElement(more))
    ensures items != [] && FineElements(items, false) && ShortElements(items) && At(c, first, FromElement(items))
    ensures Trees(items) == [Tree(item.value)] + Trees(more)
    ensures first + |FromElement(items)| == SkipWhitespace(c, sep + 1) + |FromElement(more)|
  {
    hide At, SkipWhitespace, Blank, Fine, Spell, Short, Tree, FineElements, ShortElements, FromElement, Trees;
    Skipped(c, sep + 1);
    var q := SkipWhitespace(c, sep + 1);
    OtherBlank(more, c[sep + 1..q]);
    var others := [more[0].(before := c[sep + 1..q])] + more[1..];
    Standing(c, end, sep);
    OneByte(c, sep);
    Standing(c, sep + 1, q);
    Beside(c, sep + 1, c[sep + 1..q], FromElement(others));
    Beside(c, sep, [44], c[sep + 1..q] + FromElement(others));
    OneMore(c, first, item, others);
    items := [item] + others;
    MoreItems(item, others);
  }

  lemma LastItem(item: Element)
    requires Blank(item.before) && Fine(item.value, false) && Short(item.value) && Blank(item.after)
    ensures FineElements([item], false) && ShortElements([item]) && Trees([item]) == [Tree(item.value)]
    ensures FromElement([item]) == Spell(item.value) + (item.after + [93])
  {
    assert [item][1..] == [];
    assert Trees([item]) == [Tree(item.value)] + Trees([]);
  }

  lemma MoreItems(item: Element, others: seq<Element>)
    requires Blank(item.before) && Fine(item.value, false) && Short(item.value) && Blank(item.after)
    requires others != [] && FineElements(others, false) && ShortElements(others)
    ensures FineElements([item] + others, false) && ShortElements([item] + others)
    ensures Trees([item] + others) == [Tree(item.value)] + Trees(others)
    ensures FromElement([item] + others) ==
            Spell(item.value) + (item.after + ([44] + (others[0].before + FromElement(others))))
  {
    assert ([item] + others)[1..] == others;
  }

  lemma OneMore(c: Text, first: nat, item: Element, others: seq<Element>)
    requires others != [] && At(c, first, Spell(item.value)) && At(c, first + |Spell(item.value)|, item.after)
    requires At(c, first + |Spell(item.value)| + |item.after|, [44] + (others[0].before + FromElement(others)))
    ensures At(c, first, Spell(item.value) + (item.after + ([44] + (others[0].before + FromElement(others)))))
  {
    hide At, Spell, FromElement;
    var end, tail := first + |Spell(item.value)|, [44] + (others[0].before + FromElement(others));
    Beside(c, end, item.after, tail);
    Beside(c, first, Spell(item.value), item.after + tail);
  }

  lemma {:induction false} ObjectHas(c: Text, o: nat) returns (s: Source)
    requires Terminated(c) && o < |c| && c[o] == LBRACE && ParseObject(c, o).Parsed?
    ensures s.Obj? && Fine(s, false) && Short(s) && At(c, o, Spell(s))
    ensures ParseObject(c, o) == Parsed(MemberTrees(s.members), o + |Spell(s)|)
    decreases |c| - o, 2
  {
    hide At, ParseMembers, SkipWhitespace, Blank;
    assert o + 1 < |c| by { NotLast(c, o); }
    var first := SkipWhitespace(c, o + 1);
    Skipped(c, o + 1);
    OneByte(c, o);
    Standing(c, o + 1, first);
    if c[first] == RBRACE {
      s := Obj(c[o + 1..first], []);
      EmptyOnes(s.inner);
      hide Fine, Short, Spell, MemberTrees;
      OneByte(c, first);
      Beside(c, o + 1, s.inner, [125]);
      Beside(c, o, [123], s.inner + [125]);
    } else {
      hide FinePairs, ShortPairs, FromPair, MemberTrees, Fine, Short, Spell;
      SkipAgain(c, o + 1);
      var members := PairsHas(c, first - 1);
      var others := [members[0].(before := c[o + 1..first])] + members[1..];
      OtherBlankPair(members, c[o + 1..first]);
      Beside(c, o + 1, c[o + 1..first], FromPair(members));
      Beside(c, o, [123], c[o + 1..first] + FromPair(members));
      s := Obj([], others);
      WholeObject(others);
    }
  }

  lemma WholeObject(members: seq<Pair>)
    requires members != [] && FinePairs(members, false) && ShortPairs(members)
    ensures Fine(Obj([], members), false) && Short(Obj([], members))
    ensures Spell(Obj([], members)) == [123] + (members[0].before + FromPair(members))
  {
    hide FinePairs, ShortPairs, FromPair;
  }

  lemma OtherBlankPair(members: seq<Pair>, before: Text)
    requires members != [] && FinePairs(members, false) && Blank(before)
    ensures var others := [members[0].(before := before)] + members[1..];
            && FinePairs(others, false) && FromPair(others) == FromPair(members)
            && MemberTrees(others) == MemberTrees(members) && (ShortPairs(others) <==> ShortPairs(members))
            && others[0].before == before && others != []
  {
    hide StringText;
    var others := [members[0].(before := before)] + members[1..];
    assert others[1..] == members[1..];
  }

  /** One member up to the end of its value. */
  lemma {:induction false} PairHas(c: Text, o: nat) returns (m: Pair)
    requires Terminated(c) && o + 1 < |c| && ParseMember(c, o).Parsed?
    ensures Blank(m.before) && StringText(m.key, m.name) && Blank(m.beforeColon) && Blank(m.afterColon)
    ensures Fine(m.value, false) && Short(m.value)
    ensures At(c, SkipWhitespace(c, o + 1), Front(m))
    ensures ParseMember(c, o) == Parsed(Member(m.name, Tree(m.value)), SkipWhitespace(c, o + 1) + |Front(m)|)
    decreases |c| - o, 0
  {
    hide At, ParseValue, ParseString, SkipWhitespace, Blank, Fine, Spell, Short, Tree, StringText;
    var first := SkipWhitespace(c, o + 1);
    Skipped(c, o + 1);
    StringHas(c, first);
    var afterKey := ParseString(c, first).next;
    KeyNotLast(c, first);
    Skipped(c, afterKey);
    var colon := SkipWhitespace(c, afterKey);
    NotLast(c, colon);
    Skipped(c, colon + 1);
    var v := SkipWhitespace(c, colon + 1);
    var value := ValueHas(c, v);
    BlankNothing();
    m := Pair([], c[first..afterKey], ParseString(c, first).value, c[afterKey..colon], c[colon + 1..v], value, []);
    Standing(c, first, afterKey);
    Standing(c, afterKey, colon);
    OneByte(c, colon);
    Standing(c, colon + 1, v);
    Beside(c, colon + 1, m.afterColon, Spell(value));
    Beside(c, colon, [58], m.afterColon + Spell(value));
    Beside(c, afterKey, m.beforeColon, [58] + (m.afterColon + Spell(value)));
    Beside(c, first, m.key, m.beforeColon + ([58] + (m.afterColon + Spell(value))));
  }

  lemma KeyNotLast(c: Text, o: nat)
    requires Terminated(c) && o < |c| && ParseString(c, o).Parsed?
    ensures ParseString(c, o).next < |c|
  {
    hide Unescape, ScanFrom;
  }

  lemma {:induction false} PairsHas(c: Text, o: nat) returns (members: seq<Pair>)
    requires Terminated(c) && o + 1 < |c| && ParseMembers(c, o).Parsed?
    ensures members != [] && FinePairs(members, false) && ShortPairs(members)
    ensures At(c, SkipWhitespace(c, o + 1), FromPair(members))
    ensures ParseMembers(c, o) == Parsed(MemberTrees(members), SkipWhitespace(c, o + 1) + |FromPair(members)|)
    decreases |c| - o, 1
  {
    hide At, ParseMember, SkipWhitespace, Blank, Fine, Spell, Short, Tree, StringText;
    hide FinePairs, ShortPairs, FromPair, MemberTrees;
    var first := SkipWhitespace(c, o + 1);
    var m := PairHas(c, o);
    var end := first + |Front(m)|;
    Skipped(c, end);
    var sep := SkipWhitespace(c, end);
    m := m.(after := c[end..sep]);
    if c[sep] == COMMA {
      NotLast(c, sep);
      var more := PairsHas(c, sep);
      members := PairBefore(c, first, end, sep, m, more);
    } else {
      members := [m];
      LastPair(m);
      Standing(c, end, sep);
      OneByte(c, sep);
      Beside(c, end, m.after, [125]);
      Beside(c, first, Front(m), m.after + [125]);
    }
  }

  /** A member up to the end of its value. */
  function Front(m: Pair): Text {
    m.key + (m.beforeColon + ([58] + (m.afterColon + Spell(m.value))))
  }

  lemma PairBefore(c: Text, first: nat, end: nat, sep: nat, m: Pair, more: seq<Pair>) returns (members: seq<Pair>)
    requires Terminated(c) && end <= sep < |c| && c[sep] == COMMA && m.after == c[end..sep] && sep + 1 < |c|
    requires end == first + |Front(m)| && At(c, first, Front(m)) && PairFine(m)
    requires more != [] && FinePairs(more, false) && ShortPairs(more)
    requires At(c, SkipWhitespace(c, sep + 1), FromPair(more))
    ensures members != [] && FinePairs(members, false) && ShortPairs(members) && At(c, first, FromPair(members))
    ensures MemberTrees(members) == [Member(m.name, Tree(m.value))] + MemberTrees(more)
    ensures first + |FromPair(members)| == SkipWhitespace(c, sep + 1) + |FromPair(more)|
  {
    hide At, SkipWhitespace, Blank, Fine, Spell, Short, Tree, StringText, Front, PairFine;
    hide FinePairs, ShortPairs, FromPair, MemberTrees;
    Skipped(c, sep + 1);
    var q := SkipWhitespace(c, sep + 1);
    OtherBlankPair(more, c[sep + 1..q]);
    var others := [more[0].(before := c[sep + 1..q])] + more[1..];
    Standing(c, end, sep);
    OneByte(c, sep);
    Standing(c, sep + 1, q);
    Beside(c, sep + 1, c[sep + 1..q], FromPair(others));
    Beside(c, sep, [44], c[sep + 1..q] + FromPair(others));
    Beside(c, end, m.after, [44] + (others[0].before + FromPair(others)));
    Beside(c, first, Front(m), m.after + ([44] + (others[0].before + FromPair(others))));
    members := [m] + others;
    MorePairs(m, others);
  }

  ghost predicate PairFine(m: Pair) {
    && Blank(m.before) && StringText(m.key, m.name) && Blank(m.beforeColon) && Blank(m.afterColon)
    && Fine(m.value, false) && Short(m.value) && Blank(m.after)
  }

  lemma LastPair(m: Pair)
    requires PairFine(m)
    ensures FinePairs([m], false) && ShortPairs([m]) && MemberTrees([m]) == [Member(m.name, Tree(m.value))]
    ensures FromPair([m]) ==
            Front(m) + (m.after + [125])
  {
    hide StringText;
    assert [m][1..] == [];
    assert MemberTrees([m]) == [Member(m.name, Tree(m.value))] + MemberTrees([]);
    Regrouped(m.key, m.beforeColon, m.afterColon, Spell(m.value), m.after + [125]);
  }

  lemma MorePairs(m: Pair, others: seq<Pair>)
    requires PairFine(m) && others != [] && FinePairs(others, false) && ShortPairs(others)
    ensures FinePairs([m] + others, false) && ShortPairs([m] + others)
    ensures MemberTrees([m] + others) == [Member(m.name, Tree(m.value))] + MemberTrees(others)
    ensures FromPair([m] + others) ==
            Front(m) + (m.after + ([44] + (others[0].before + FromPair(others))))
  {
    hide StringText;
    assert ([m] + others)[1..] == others;
    var rest := m.after + ([44] + (others[0].before + FromPair(others)));
    Regrouped(m.key, m.beforeColon, m.afterColon, Spell(m.value), rest);
  }

  lemma Regrouped(a: Text, b: Text, d: Text, e: Text, rest: Text)
    ensures a + (b + ([58] + (d + e))) + rest == a + (b + ([58] + (d + (e + rest))))
  {
  }

  // ----- documents -----

  /** The document is the text with blanks around it. */
  ghost predicate Written(value: Text, front: Text, s: Source, back: Text, standard: bool) {
    value == front + (Spell(s) + back) && IsBlank(front, standard) && Fine(s, standard) && IsBlank(back, standard)
  }

  lemma {:induction false} SkipToEnd(c: Text, o: nat)
    requires Terminated(c) && o < |c| && forall k :: o <= k < |c| ==> c[k] <= 32
    ensures SkipWhitespace(c, o) == |c| - 1
  {
    SkipAllBlanks(c, o);
  }

  lemma {:induction false} SkipAllBlanks(c: Text, o: nat)
    requires o <= |c| && forall k :: o <= k < |c| ==> c[k] <= 32
    ensures SkipBlanks(c, o) == |c|
    decreases |c| - o
  {
    if o < |c| { SkipAllBlanks(c, o + 1); }
  }

  /** Where the value of a document stands, and what is behind it. */
  lemma Placed(value: Text, front: Text, s: Source, back: Text)
    requires Written(value, front, s, back, false)
    ensures var c, end := value + [NUL], |front| + |Spell(s)|;
            && Terminated(c) && SkipWhitespace(c, 0) == |front| && At(c, |front|, Spell(s)) && end < |c|
            && Follows(c, end) && SkipWhitespace(c, end) == |value|
  {
    hide At, SkipWhitespace, Fine, Spell;
    var c, end := value + [NUL], |front| + |Spell(s)|;
    var rest := Spell(s) + (back + [NUL]);
    assert c == front + rest;
    assert c[0..|c|] == c;
    Standing(c, 0, |c|);
    SpellFirst(s);
    BeforeValue(c, 0, front, rest);
    AtConcat(c, |front|, Spell(s), back + [NUL]);
    assert c[end..] == back + [NUL];
    forall k | end <= k < |c| ensures c[k] <= 32 { assert c[k] == (back + [NUL])[k - end]; }
    SkipToEnd(c, end);
  }

  /** A document is parsed as the tree it stands for, unless it has a number longer than 63 characters. */
  lemma DocumentRead(value: Text, front: Text, s: Source, back: Text)
    requires NulFree(value) && Written(value, front, s, back, false)
    ensures Short(s) ==> ParseDocument(value, true) == (Some(Tree(s)), |value|)
    ensures Short(s) ==> ParseDocument(value, false) == (Some(Tree(s)), |front| + |Spell(s)|)
    ensures !Short(s) ==> ParseDocument(value, true).0 == None && (!s.Num? ==> ParseDocument(value, false).0 == None)
  {
    hide At, SkipWhitespace, ParseValue, Fine, Spell, Follows, Short, Tree;
    Placed(value, front, s, back);
    var c := value + [NUL];
    ValueRead(c, |front|, s);
    var r := ParseValue(c, |front|);
    if !Short(s) && r.Parsed? {
      assert IsNumberByte(c[r.next]);
      SkipNothing(c, r.next);
    }
  }

  /** Whatever document is parsed to its end is written by the grammar. */
  lemma DocumentHas(value: Text) returns (front: Text, s: Source, back: Text)
    requires NulFree(value) && ParseDocument(value, true).0.Some?
    ensures Written(value, front, s, back, false) && Short(s) && ParseDocument(value, true) == (Some(Tree(s)), |value|)
  {
    hide At, SkipWhitespace, ParseValue, Fine, Spell, Short, Tree, Blank;
    var c := value + [NUL];
    Skipped(c, 0);
    var first := SkipWhitespace(c, 0);
    s := ValueHas(c, first);
    var next := first + |Spell(s)|;
    Skipped(c, next);
    PositionInInput(value, true);
    front, back := c[..first], c[next..|value|];
    assert c[0..first] == front;
    AtText(c, first, Spell(s));
    assert value == c[..|value|] == front + (c[first..next] + back);
  }

  /**
   * cJSON_ParseWithOpts with require_null_terminated: exactly the documents of the code's grammar with no number longer
   * than 63 characters are accepted, each as the tree it stands for.
   */
  lemma AcceptedIff(value: Text, j: Json)
    requires NulFree(value)
    ensures ParseDocument(value, true) == (Some(j), |value|) <==>
            exists front, s, back :: Written(value, front, s, back, false) && Short(s) && Tree(s) == j
  {
    hide ParseDocument, Written, Short, Tree;
    if ParseDocument(value, true) == (Some(j), |value|) { var front, s, back := DocumentHas(value); }
    forall front, s, back | Written(value, front, s, back, false) && Short(s)
      ensures ParseDocument(value, true) == (Some(Tree(s)), |value|)
    {
      DocumentRead(value, front, s, back);
    }
  }

  /**
   * Every document of RFC 8259 whose strings denote code points: with its numbers no longer than 63 characters it is
   * parsed as the tree it stands for, whatever blanks it has and however its characters and numbers are written; and
   * otherwise it is not parsed to its end.
   */
  lemma StandardRead(value: Text, front: Text, s: Source, back: Text)
    requires NulFree(value) && Written(value, front, s, back, true)
    ensures if Short(s) then ParseDocument(value, true) == (Some(Tree(s)), |value|)
            else ParseDocument(value, true).0 == None
    ensures Short(s) ==> ParseDocument(value, false) == (Some(Tree(s)), |front| + |Spell(s)|)
  {
    StandardIsFine(s);
    hide ParseDocument, Fine, Spell, Short, Tree;
    DocumentRead(value, front, s, back);
  }

  /** The number of 64 ones is JSON, and is not parsed to its end. */
  lemma LongNumber()
    ensures var t: Text := seq(64, _ => 49);
            (exists d :: StandardNumber(t, d)) && ParseDocument(t, true).0 == None
  {
    var t: Text := seq(64, _ => 49);
    var n := JsonNumeral.Numeral([], t, false, [], [], [], []);
    assert JsonNumeral.Spell(n) == t && JsonNumeral.Standard(n);
    var d := JsonNumeral.Denoted(n);
    assert StandardNumber(t, d);
    var s := Num(t, d);
    hide JsonNumeral.Spell, JsonNumeral.Standard, StandardNumber, ParseDocument;
    assert t == [] + (t + []);
    StandardRead(t, [], s, []);
  }
}
