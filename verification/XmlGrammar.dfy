/** The other direction: only such texts are parsed. Together, exactly which texts the parser accepts, and as what. */
module XmlGrammar {
  import opened Bytes
  import opened XmlExpand
  import opened XmlTree
  import opened XmlRoundTrip
  import opened XmlSyntax
  import opened XmlReads

  lemma Beside(c: Text, o: nat, a: Text, b: Text)
    requires At(c, o, a) && At(c, o + |a|, b)
    ensures At(c, o, a + b)
  {
    assert c[o..o + |a| + |b|] == c[o..o + |a|] + c[o + |a|..o + |a| + |b|];
  }

  lemma Standing(c: Text, o: nat, e: nat)
    requires o <= e <= |c|
    ensures At(c, o, c[o..e]) && |c[o..e]| == e - o
  {
  }

  lemma OneByte(c: Text, o: nat)
    requires o < |c|
    ensures At(c, o, [c[o]])
  {
  }

  lemma TwoBytes(c: Text, o: nat)
    requires o + 1 < |c|
    ensures At(c, o, [c[o], c[o + 1]])
  {
  }

  /** The run a skip passes over is of its class. */
  lemma RunOf(c: Text, i: nat, p: Class)
    requires CString(c) && i < |c|
    ensures AllIn(c[i..Skip(c, i, p)], p) && At(c, i, c[i..Skip(c, i, p)])
  {
  }

  lemma BlankRunOf(c: Text, i: nat)
    requires CString(c) && i < |c|
    ensures var e := Skip(c, i, Class.Blank);
            i <= e < |c| && AllBlank(c[i..e]) && At(c, i, c[i..e]) && !BlankByte(c[e])
  {
    RunOf(c, i, Class.Blank);
    Tables();
  }

  // ----- attributes -----

  lemma FieldHas(c: Text, i: nat) returns (f: Field)
    requires CString(c) && i < |c| && In(AttrName, c[i]) && Attribute(c, i).Ok?
    ensures FineField(f) && At(c, i, SpellField(f)) && Attribute(c, i).next == i + |SpellField(f)|
  {
    hide CString, At, Skip, AllBlank, In, BlankByte, Attribute, AllField;
    var e, equals, open, close := Placed(c, i);
    var q, end := c[open], Attribute(c, i).next;
    f := Field(c[i..e], c[e..equals], c[equals + 1..open], q, c[open + 1..close], c[close + 1..end]);
    BlankRunOf(c, e);
    BlankRunOf(c, equals + 1);
    BlankRunOf(c, close + 1);
    NameHas(c, i, e);
    ValueHas(c, open, close);
    FieldParts(c, i, e, equals, open, close, end, f);
  }

  /** Where the parts of an attribute stand. */
  lemma Placed(c: Text, i: nat) returns (e: nat, equals: nat, open: nat, close: nat)
    requires CString(c) && i < |c| && In(AttrName, c[i]) && Attribute(c, i).Ok?
    ensures i + 1 <= e <= equals && equals + 1 <= open && open + 1 <= close && close + 1 < |c| && i + 1 < |c|
    ensures e == Skip(c, i + 1, AttrName) && equals == Skip(c, e, Class.Blank) && c[equals] == 61
    ensures open == Skip(c, equals + 1, Class.Blank) && c[open] in {34, 39}
    ensures close == Skip(c, open + 1, InRegion(Quoted(c[open]))) && c[close] == c[open]
    ensures Attribute(c, i).next == Skip(c, close + 1, Class.Blank)
  {
    hide CString, Skip, In;
    NulIsLast(c, i);
    NameNotNul(c[i]);
    e := Skip(c, i + 1, AttrName);
    equals := Skip(c, e, Class.Blank);
    NulIsLast(c, equals);
    open := Skip(c, equals + 1, Class.Blank);
    NulIsLast(c, open);
    close := Skip(c, open + 1, InRegion(Quoted(c[open])));
    NulIsLast(c, close);
  }

  lemma NameNotNul(b: byte)
    requires In(AttrName, b)
    ensures b != 0
  {
  }

  lemma NameHas(c: Text, i: nat, e: nat)
    requires CString(c) && i + 1 < |c| && In(AttrName, c[i]) && e == Skip(c, i + 1, AttrName)
    ensures AllField(c[i..e]) && c[i..e] != []
  {
    Tables();
  }

  lemma ValueHas(c: Text, open: nat, close: nat)
    requires CString(c) && open + 1 < |c| && close == Skip(c, open + 1, InRegion(Quoted(c[open])))
    ensures var t := c[open + 1..close]; forall k :: 0 <= k < |t| ==> t[k] != 0 && t[k] != c[open]
  {
    assert forall k :: open + 1 <= k < close ==> In(InRegion(Quoted(c[open])), c[k]);
  }

  lemma FieldParts(c: Text, i: nat, e: nat, equals: nat, open: nat, close: nat, end: nat, f: Field)
    requires i <= e <= equals < open < close < end <= |c| && c[equals] == 61 && c[open] == c[close] == f.quote
    requires f == Field(c[i..e], c[e..equals], c[equals + 1..open], f.quote, c[open + 1..close], c[close + 1..end])
    ensures At(c, i, SpellField(f)) && i + |SpellField(f)| == end
  {
    hide At;
    var t1 := [f.quote] + f.space;
    var t2 := f.value + t1;
    var t3 := [f.quote] + t2;
    var t4 := f.after + t3;
    var t5 := [61] + t4;
    var t6 := f.before + t5;
    Standing(c, close + 1, end);
    OneByte(c, close);
    Beside(c, close, [f.quote], f.space);
    Standing(c, open + 1, close);
    Beside(c, open + 1, f.value, t1);
    OneByte(c, open);
    Beside(c, open, [f.quote], t2);
    Standing(c, equals + 1, open);
    Beside(c, equals + 1, f.after, t3);
    OneByte(c, equals);
    Beside(c, equals, [61], t4);
    Standing(c, e, equals);
    Beside(c, e, f.before, t5);
    Standing(c, i, e);
    Beside(c, i, f.name, t6);
    assert SpellField(f) == f.name + t6;
  }

  lemma {:induction false} FieldsHas(c: Text, i: nat) returns (fields: seq<Field>)
    requires CString(c) && i < |c| && Attributes(c, i).Ok?
    ensures (forall k :: 0 <= k < |fields| ==> FineField(fields[k])) && At(c, i, SpellFields(fields))
    ensures Attributes(c, i).next == i + |SpellFields(fields)| && (fields != [] ==> In(AttrName, c[i]))
    decreases |c| - i
  {
    hide CString, At, Attribute, SpellField, FineField;
    if !In(AttrName, c[i]) {
      fields := [];
      AtNothing(c, i);
    } else {
      var f := FieldHas(c, i);
      var next := Attribute(c, i).next;
      var more := FieldsHas(c, next);
      fields := [f] + more;
      assert fields[1..] == more;
      Beside(c, i, SpellField(f), SpellFields(more));
    }
  }

  // ----- markup that is no element -----

  lemma {:induction false} FoundFirst(c: Text, i: nat, word: Text, k: nat)
    requires CString(c) && i <= k < |c| && word != [] && NulFree(word)
    ensures k < Find(c, i, word) ==> c[k] != 0 && !At(c, k, word)
    decreases k - i
  {
    if i < k && c[i] != 0 && !At(c, i, word) { FoundFirst(c, i + 1, word, k); }
  }

  lemma {:induction false} FoundAt(c: Text, i: nat, word: Text)
    requires CString(c) && i < |c|
    ensures c[Find(c, i, word)] == 0 || At(c, Find(c, i, word), word)
    decreases |c| - i
  {
  }

  lemma ClosedHas(c: Text, i: nat, word: Text)
    requires CString(c) && i < |c| && word in {COMMENT_CLOSE, CDATA_CLOSE, PI_CLOSE} && Closed(c, i, word).Ok?
    ensures var e := Find(c, i, word);
            && Closed(c, i, word).next == e + |word| <= |c| && i <= e && At(c, i, c[i..e] + word)
            && EndsFirst(c[i..e], word)
  {
    hide Find, CString;
    var e := Find(c, i, word);
    FoundAt(c, i, word);
    var t := c[i..e];
    Standing(c, i, e);
    Beside(c, i, t, word);
    forall k | 0 <= k < |t| ensures t[k] != 0 && !At(t + word, k, word) {
      FoundFirst(c, i, word, i + k);
      SameReads(c, i, t + word, k, word);
    }
  }

  lemma CommentHas(c: Text, i: nat, o: Options) returns (x: Markup)
    requires CString(c) && i + 1 < |c| && c[i] == 60 && At(c, i + 1, COMMENT_OPEN) && i + 4 < |c|
    requires Closed(c, i + 4, COMMENT_CLOSE).Ok?
    ensures FineMarkup(x, o) && At(c, i, Spell(x)) && Closed(c, i + 4, COMMENT_CLOSE).next == i + |Spell(x)|
  {
    hide Closed, Find, At, EndsFirst;
    ClosedHas(c, i + 4, COMMENT_CLOSE);
    x := CommentIs(c[i + 4..Find(c, i + 4, COMMENT_CLOSE)]);
    OneByte(c, i);
    Beside(c, i, [60], COMMENT_OPEN);
    assert [60] + COMMENT_OPEN == [60, 33, 45, 45] && COMMENT_CLOSE == [45, 45, 62];
    Beside(c, i, [60, 33, 45, 45], x.t + [45, 45, 62]);
  }

  lemma SectionHas(c: Text, i: nat, o: Options) returns (x: Markup)
    requires CString(c) && i + 1 < |c| && c[i] == 60 && At(c, i + 1, CDATA_OPEN) && i + 9 < |c|
    requires Closed(c, i + 9, CDATA_CLOSE).Ok?
    ensures FineMarkup(x, o) && At(c, i, Spell(x)) && Closed(c, i + 9, CDATA_CLOSE).next == i + |Spell(x)|
  {
    hide Closed, Find, At, EndsFirst;
    ClosedHas(c, i + 9, CDATA_CLOSE);
    x := SectionIs(c[i + 9..Find(c, i + 9, CDATA_CLOSE)]);
    OneByte(c, i);
    Beside(c, i, [60], CDATA_OPEN);
    assert [60] + CDATA_OPEN == [60, 33, 91, 67, 68, 65, 84, 65, 91] && CDATA_CLOSE == [93, 93, 62];
    Beside(c, i, [60, 33, 91, 67, 68, 65, 84, 65, 91], x.t + [93, 93, 62]);
  }

  lemma InstructionHas(c: Text, i: nat, o: Options) returns (x: Markup)
    requires CString(c) && i + 2 < |c| && c[i] == 60 && c[i + 1] == 63 && Closed(c, i + 2, PI_CLOSE).Ok?
    ensures FineMarkup(x, o) && At(c, i, Spell(x)) && Closed(c, i + 2, PI_CLOSE).next == i + |Spell(x)|
  {
    hide Closed, Find, At, EndsFirst;
    ClosedHas(c, i + 2, PI_CLOSE);
    x := Instruction(c[i + 2..Find(c, i + 2, PI_CLOSE)]);
    TwoBytes(c, i);
    assert PI_CLOSE == [63, 62];
    Beside(c, i, [60, 63], x.t + [63, 62]);
  }

  lemma {:induction false} WalkHas(c: Text, i: nat, depth: nat) returns (t: Text)
    requires CString(c) && i < |c| && Walk(c, i, depth).Ok?
    ensures Enclosed(depth, t) && At(c, i, t + [62]) && Walk(c, i, depth).next == i + |t| + 1
    decreases |c| - i
  {
    hide Walk, CString, At;
    WalkNotEnd(c, i, depth);
    WalkStep(c, i, depth);
    OneByte(c, i);
    if c[i] == 62 && depth == 0 {
      t := [];
      assert t + [62] == [62];
    } else {
      var more := WalkHas(c, i + 1, Step(depth, c[i]));
      t := [c[i]] + more;
      assert t[1..] == more;
      Beside(c, i, [c[i]], more + [62]);
      assert t + [62] == [c[i]] + (more + [62]);
    }
  }

  lemma WalkNotEnd(c: Text, i: nat, depth: nat)
    requires CString(c) && i < |c| && Walk(c, i, depth).Ok?
    ensures c[i] != 0
  {
  }

  lemma DoctypeHas(c: Text, i: nat, o: Options) returns (x: Markup)
    requires CString(c) && i + 10 < |c| && c[i] == 60 && At(c, i + 1, DOCTYPE_OPEN) && IsWhitespace(c[i + 9])
    requires SkipDoctype(c, i + 10).Ok?
    ensures FineMarkup(x, o) && At(c, i, Spell(x)) && SkipDoctype(c, i + 10).next == i + |Spell(x)|
  {
    hide SkipDoctype, SkipBrackets, At, Enclosed;
    var t := WalkHas(c, i + 10, 0);
    x := Doctype(c[i + 9], t);
    Tables();
    OneByte(c, i);
    Beside(c, i, [60], DOCTYPE_OPEN);
    OneByte(c, i + 9);
    Beside(c, i, [60] + DOCTYPE_OPEN, [c[i + 9]]);
    assert [60] + DOCTYPE_OPEN + [c[i + 9]] == [60, 33, 68, 79, 67, 84, 89, 80, 69, c[i + 9]];
    Beside(c, i, [60, 33, 68, 79, 67, 84, 89, 80, 69, c[i + 9]], t + [62]);
  }

  lemma OtherHas(c: Text, i: nat, e: nat, o: Options) returns (x: Markup)
    requires CString(c) && i + 2 < |c| && c[i] == 60 && c[i + 1] == 33 && e == Find(c, i + 2, [GT]) && c[e] != 0
    requires !At(c, i + 1, COMMENT_OPEN) && !At(c, i + 1, CDATA_OPEN)
    requires !(At(c, i + 1, DOCTYPE_OPEN) && i + 9 < |c| && IsWhitespace(c[i + 9]))
    ensures FineMarkup(x, o) && At(c, i, Spell(x)) && e + 1 == i + |Spell(x)|
  {
    hide Find, CString, OtherText, At;
    var t := c[i + 2..e];
    x := Other(t);
    OtherTextHas(c, i, e);
    Standing(c, i + 2, e);
    assert GT == 62;
    FoundAt(c, i + 2, [GT]);
    Beside(c, i + 2, t, [62]);
    TwoBytes(c, i);
    Beside(c, i, [60, 33], t + [62]);
  }

  lemma OtherTextHas(c: Text, i: nat, e: nat)
    requires CString(c) && i + 2 < |c| && c[i + 1] == 33 && e == Find(c, i + 2, [GT]) && c[e] != 0
    requires !At(c, i + 1, COMMENT_OPEN) && !At(c, i + 1, CDATA_OPEN)
    requires !(At(c, i + 1, DOCTYPE_OPEN) && i + 9 < |c| && IsWhitespace(c[i + 9]))
    ensures i + 2 <= e && OtherText(c[i + 2..e])
  {
    hide Find, CString, At;
    var t := c[i + 2..e];
    forall k | 0 <= k < |t| ensures t[k] != 0 && t[k] != 62 {
      FoundFirst(c, i + 2, [GT], i + 2 + k);
      AtByte(c, i + 2 + k);
    }
    NotOpening(c, i, t, COMMENT_OPEN, [45, 45]);
    NotOpening(c, i, t, CDATA_OPEN, [91, 67, 68, 65, 84, 65, 91]);
    NotOpening(c, i, t, DOCTYPE_OPEN, [68, 79, 67, 84, 89, 80, 69]);
    Tables();
    if |t| > 7 { assert t[7] == c[i + 9]; }
  }

  lemma NotOpening(c: Text, i: nat, t: Text, open: Text, word: Text)
    requires i + 2 + |t| <= |c| && t == c[i + 2..i + 2 + |t|] && c[i + 1] == 33 && open == [33] + word
    ensures word <= t ==> At(c, i + 1, open)
  {
    if word <= t {
      assert c[i + 2..i + 2 + |word|] == t[..|word|] == word;
      assert c[i + 1..i + 1 + |open|] == [c[i + 1]] + c[i + 2..i + 2 + |word|];
    }
  }

  // ----- elements -----

  lemma {:induction false} MarkupHas(c: Text, i: nat, o: Options) returns (x: Markup)
    requires CString(c) && i + 1 < |c| && c[i] == 60 && ParseNode(c, i + 1, o).Ok?
    ensures FineMarkup(x, o) && At(c, i, Spell(x)) && ParseNode(c, i + 1, o).next == i + |Spell(x)|
    decreases |c| - i, 2
  {
    hide At, CString, Spell, FineMarkup, Closed, SkipDoctype, Find, ParseElement;
    NulIsLast(c, i + 1);
    if c[i + 1] == 63 {
      x := InstructionHas(c, i, o);
    } else if c[i + 1] == 33 {
      x := BangHas(c, i, o);
    } else {
      x := ElementHas(c, i, o);
    }
  }

  lemma BangHas(c: Text, i: nat, o: Options) returns (x: Markup)
    requires CString(c) && i + 1 < |c| && c[i] == 60 && c[i + 1] == 33 && ParseBang(c, i + 1, o).Ok?
    ensures FineMarkup(x, o) && At(c, i, Spell(x)) && ParseBang(c, i + 1, o).next == i + |Spell(x)|
  {
    hide At, CString, Spell, FineMarkup, Closed, SkipDoctype, Find;
    NulIsLast(c, i + 1);
    if At(c, i + 1, COMMENT_OPEN) {
      ReadsRoom(c, i + 1, COMMENT_OPEN);
      x := CommentHas(c, i, o);
    } else if At(c, i + 1, CDATA_OPEN) {
      ReadsRoom(c, i + 1, CDATA_OPEN);
      x := SectionHas(c, i, o);
    } else if At(c, i + 1, DOCTYPE_OPEN) && i + 9 < |c| && IsWhitespace(c[i + 9]) {
      NulIsLast(c, i + 9);
      x := DoctypeHas(c, i, o);
    } else {
      x := OtherHas(c, i, Find(c, i + 2, [GT]), o);
    }
  }

  /** A start tag: its parts are fine, and stand where they are read. */
  lemma TagHas(c: Text, i: nat) returns (name: Text, space: Text, fields: seq<Field>, p: nat)
    requires CString(c) && i + 1 < |c| && c[i] == 60 && c[i + 1] != 33
    requires var e := Skip(c, i + 1, NodeName);
             e > i + 1 && Attributes(c, Skip(c, e, Class.Blank)).Ok?
    ensures FineTag(name, space, fields) && name == c[i + 1..Skip(c, i + 1, NodeName)]
    ensures p == Attributes(c, Skip(c, Skip(c, i + 1, NodeName), Class.Blank)).next
    ensures At(c, i, [60]) && At(c, i + 1, name) && At(c, i + 1 + |name|, space)
    ensures At(c, i + 1 + |name| + |space|, SpellFields(fields))
    ensures p == i + 1 + |name| + |space| + |SpellFields(fields)|
  {
    hide At, CString, Attributes, SpellFields, FineField, AllBlank, In, Skip;
    var e := Skip(c, i + 1, NodeName);
    var b := Skip(c, e, Class.Blank);
    fields := FieldsHas(c, b);
    p := Attributes(c, b).next;
    name, space := c[i + 1..e], c[e..b];
    OneByte(c, i);
    NameRun(c, i + 1, e);
    BlankRunOf(c, e);
    if fields != [] && b == e { NoFieldThere(c, i + 1, e); }
  }

  lemma NameRun(c: Text, i: nat, e: nat)
    requires CString(c) && i < |c| && e == Skip(c, i, NodeName)
    ensures AllName(c[i..e]) && At(c, i, c[i..e])
  {
    RunOf(c, i, NodeName);
    Tables();
  }

  lemma NoFieldThere(c: Text, i: nat, e: nat)
    requires CString(c) && i < |c| && e == Skip(c, i, NodeName)
    ensures !In(AttrName, c[e])
  {
  }

  lemma TagTogether(c: Text, i: nat, name: Text, space: Text, fields: seq<Field>, rest: Text)
    requires At(c, i, [60]) && At(c, i + 1, name) && At(c, i + 1 + |name|, space)
    requires At(c, i + 1 + |name| + |space|, SpellFields(fields))
    requires At(c, i + 1 + |name| + |space| + |SpellFields(fields)|, rest)
    ensures At(c, i, [60] + (name + (space + (SpellFields(fields) + rest))))
  {
    hide At, SpellFields;
    Beside(c, i + 1 + |name| + |space|, SpellFields(fields), rest);
    Beside(c, i + 1 + |name|, space, SpellFields(fields) + rest);
    Beside(c, i + 1, name, space + (SpellFields(fields) + rest));
    Beside(c, i, [60], name + (space + (SpellFields(fields) + rest)));
  }

  lemma {:induction false} ElementHas(c: Text, i: nat, o: Options) returns (x: Markup)
    requires CString(c) && i + 1 < |c| && c[i] == 60 && c[i + 1] != 33 && ParseElement(c, i + 1, o).Ok?
    ensures FineMarkup(x, o) && At(c, i, Spell(x)) && ParseElement(c, i + 1, o).next == i + |Spell(x)|
    decreases |c| - i, 1
  {
    hide At, CString, Attributes, SpellFields, FineTag, FineParts, Skip, ParseContents, SpellParts, Closer, IsGap;
    hide AllName, AllBlank;
    var name, space, fields, p := TagHas(c, i);
    NulIsLast(c, p);
    if c[p] == 62 {
      var span := Span(i + 1, |name|);
      SpanHere(c, i + 1, name);
      NameStands(c, span, name);
      var parts, last, close, closeSpace := ContentsHas(c, p + 1, span, name, o);
      OneByte(c, p);
      Beside(c, p, [62], Behind(parts, last, close, closeSpace));
      TagTogether(c, i, name, space, fields, [62] + Behind(parts, last, close, closeSpace));
      x := Full(name, space, fields, parts, last, close, closeSpace);
    } else {
      TwoBytes(c, p);
      TagTogether(c, i, name, space, fields, [47, 62]);
      x := Empty(name, space, fields);
    }
  }

  lemma NameStands(c: Text, span: Span, name: Text)
    requires span.size == |name| && At(c, span.at, name)
    ensures NameAt(c, span, name) && span.End() <= |c| && c[span.at..span.End()] == name
  {
  }

  /** A gap: up to a '<', where the contents go on. */
  lemma GapHas(c: Text, i: nat, name: Span, o: Options) returns (t: nat)
    requires CString(c) && i < |c| && name.End() <= i && ParseContents(c, i, name, o).Ok?
    ensures i <= t < |c| && c[t] == 60 && IsGap(c[i..t]) && At(c, i, c[i..t])
    ensures ParseMarkup(c, t, name, o).Ok? && ParseMarkup(c, t, name, o).next == ParseContents(c, i, name, o).next
  {
    hide CString, ParseMarkup, Skip, At, IsGap, In;
    var j := Skip(c, i, Class.Blank);
    if c[j] == 60 || c[j] == 0 {
      t := j;
      BlankRunOf(c, i);
      BlankIsGap(c[i..j]);
    } else {
      DataTaken(c, i, name, o);
      DataEnd(c, i, j);
      t := Skip(c, j, InRegion(Region.Data));
      DataIsGap(c, i);
    }
    MarkupBegins(c, t, name, o);
  }

  lemma MarkupBegins(c: Text, t: nat, name: Span, o: Options)
    requires CString(c) && t < |c| && name.End() <= t && ParseMarkup(c, t, name, o).Ok?
    ensures c[t] == 60
  {
    hide ParseNode, ParseContents, CloseTag;
  }

  lemma DataIsGap(c: Text, i: nat)
    requires CString(c) && i < |c|
    ensures var t := Skip(c, i, InRegion(Region.Data)); IsGap(c[i..t]) && At(c, i, c[i..t])
  {
    Tables();
  }

  lemma CloserHas(c: Text, t: nat, name: Span, text: Text, o: Options) returns (close: Text, closeSpace: Text)
    requires CString(c) && t + 1 < |c| && c[t] == 60 && c[t + 1] == 47 && name.End() <= t && t + 2 <= |c|
    requires c[name.at..name.End()] == text && CloseTag(c, t + 2, name, o).Ok?
    ensures AllName(close) && AllBlank(closeSpace) && (o.validateClosingTags ==> close == text)
    ensures At(c, t, Closer(close, closeSpace)) && CloseTag(c, t + 2, name, o).next == t + |Closer(close, closeSpace)|
  {
    hide CString, At, Skip, AllName, AllBlank;
    NulIsLast(c, t + 1);
    var e := Skip(c, t + 2, NodeName);
    var f := Skip(c, e, Class.Blank);
    close, closeSpace := c[t + 2..e], c[e..f];
    NameRun(c, t + 2, e);
    BlankRunOf(c, e);
    OneByte(c, f);
    Beside(c, e, closeSpace, [62]);
    Beside(c, t + 2, close, closeSpace + [62]);
    TwoBytes(c, t);
    Beside(c, t, [60, 47], close + (closeSpace + [62]));
  }

  lemma {:induction false} ContentsHas(c: Text, i: nat, name: Span, text: Text, o: Options)
    returns (parts: seq<Part>, last: Text, close: Text, closeSpace: Text)
    requires CString(c) && i < |c| && name.End() <= i && c[name.at..name.End()] == text
    requires ParseContents(c, i, name, o).Ok?
    ensures FineBehind(parts, last, close, closeSpace, text, o) && At(c, i, Behind(parts, last, close, closeSpace))
    ensures ParseContents(c, i, name, o).next == i + |Behind(parts, last, close, closeSpace)|
    decreases |c| - i, 3
  {
    hide At, CString, ParseContents, ParseNode, Spell, FineMarkup, Closer, AllName, AllBlank, IsGap, CloseTag;
    var t := GapHas(c, i, name, o);
    var gap := c[i..t];
    NulIsLast(c, t);
    if c[t + 1] == 47 {
      parts, last := [], gap;
      close, closeSpace := CloserHas(c, t, name, text, o);
      BehindSplit(parts, last, close, closeSpace);
      Beside(c, i, gap, Closer(close, closeSpace));
    } else {
      var x := MarkupHas(c, t, o);
      var next := t + |Spell(x)|;
      var more;
      more, last, close, closeSpace := ContentsHas(c, next, name, text, o);
      parts := [Part(gap, x)] + more;
      assert parts[1..] == more;
      BehindSplit(parts, last, close, closeSpace);
      Beside(c, t, Spell(x), Behind(more, last, close, closeSpace));
      Beside(c, i, gap, Spell(x) + Behind(more, last, close, closeSpace));
    }
  }

  // ----- documents -----

  lemma {:induction false} NodesHas(c: Text, i: nat, o: Options) returns (parts: seq<Part>, last: Text)
    requires CString(c) && i < |c| && ParseDocument(c, i, o).Ok?
    ensures FineParts(parts, o) && BlankGaps(parts) && AllBlank(last)
    ensures At(c, i, SpellParts(parts) + last) && i + |SpellParts(parts) + last| == |c| - 1
    decreases |c| - i
  {
    hide At, CString, Skip, ParseNode, Spell, FineMarkup, AllBlank, IsGap;
    var j := Skip(c, i, Class.Blank);
    BlankRunOf(c, i);
    NulIsLast(c, j);
    if c[j] == NUL {
      parts, last := [], c[i..j];
      assert SpellParts(parts) + last == last;
    } else {
      var x := MarkupHas(c, j, o);
      var more;
      more, last := NodesHas(c, j + |Spell(x)|, o);
      parts := [Part(c[i..j], x)] + more;
      MoreBlank(c[i..j], x, more, last, o);
      Beside(c, j, Spell(x), SpellParts(more) + last);
      Beside(c, i, c[i..j], Spell(x) + (SpellParts(more) + last));
    }
  }

  lemma BlankIsGap(t: Text)
    requires AllBlank(t)
    ensures IsGap(t)
  {
    assert forall k :: 0 <= k < |t| ==> BlankByte(t[k]);
  }

  lemma MoreBlank(gap: Text, x: Markup, more: seq<Part>, last: Text, o: Options)
    requires AllBlank(gap) && BlankGaps(more) && FineMarkup(x, o) && FineParts(more, o)
    ensures var parts := [Part(gap, x)] + more;
            && BlankGaps(parts) && FineParts(parts, o)
            && SpellParts(parts) + last == gap + (Spell(x) + (SpellParts(more) + last))
  {
    BlankIsGap(gap);
    hide AllBlank, IsGap, FineMarkup, Spell;
    assert ([Part(gap, x)] + more)[1..] == more;
  }

  /** Whatever is parsed is a document of markup. */
  lemma DocumentHas(c: Text, o: Options) returns (d: Document)
    requires CString(c) && ParseText(c, o).Ok?
    ensures FineDocument(d, o) && SpellDocument(d) + [0] == c
  {
    hide SpellParts, ParseDocument, FineParts, BlankGaps, AllBlank;
    if At(c, 0, BOM) {
      ReadsRoom(c, 0, BOM);
      var parts, last := NodesHas(c, 3, o);
      d := Document(true, parts, last);
      assert c == c[0..3] + c[3..|c| - 1] + [c[|c| - 1]];
      assert BOM == [0xEF, 0xBB, 0xBF];
    } else {
      var parts, last := NodesHas(c, 0, o);
      d := Document(false, parts, last);
      assert c == c[0..|c| - 1] + [c[|c| - 1]];
    }
  }

  lemma TextOfCString(c: Text, t: Text)
    requires CString(c) && t + [0] == c
    ensures NulFree(t)
  {
    assert c[..|c| - 1] == t;
  }

  /**
   * For every C string and every choice of flags: the parser accepts it if and only if it is a document of markup, and
   * then its nodes show exactly what the document stands for.
   */
  lemma AcceptedIff(c: Text, o: Options)
    requires CString(c)
    ensures ParseText(c, o).Ok? <==> exists d :: FineDocument(d, o) && SpellDocument(d) + [0] == c
    ensures forall d :: FineDocument(d, o) && SpellDocument(d) + [0] == c ==>
              ParseText(c, o).Ok? && SeenAll(ParseText(c, o).value, c) == PartViews(d.parts, o)
  {
    hide ParseText, FineDocument, SpellDocument, SeenAll, PartViews, CString;
    if ParseText(c, o).Ok? { var d := DocumentHas(c, o); }
    forall d | FineDocument(d, o) && SpellDocument(d) + [0] == c
      ensures ParseText(c, o).Ok? && SeenAll(ParseText(c, o).value, c) == PartViews(d.parts, o)
    {
      TextOfCString(c, SpellDocument(d));
      DocumentRead(d, o);
    }
  }
}
