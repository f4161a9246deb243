/**
 * XML texts, written by anybody: what the parser takes for markup, and that it reads every such text, under every
 * choice of flags, as the nodes it stands for.
 */
module XmlSyntax {
  import opened Bytes
  import opened XmlExpand
  import opened XmlTree
  import opened XmlRoundTrip

  // ----- texts -----

  /** An attribute with the blanks around its equals sign and behind it. */
  datatype Field = Field(name: Text, before: Text, after: Text, quote: byte, value: Text, space: Text)

  /**
   * Anything that begins with '<'. `space` is the blank behind an element's name; `last` is the text in front of its
   * closing tag, which has the name `close` and the blank `closeSpace`.
   */
  datatype Markup =
    | Empty(name: Text, space: Text, fields: seq<Field>)
    | Full(name: Text, space: Text, fields: seq<Field>, parts: seq<Part>, last: Text, close: Text, closeSpace: Text)
    | CommentIs(t: Text) | SectionIs(t: Text) | Instruction(t: Text) | Doctype(blank: byte, t: Text) | Other(t: Text)

  /** A piece of markup and the text in front of it. */
  datatype Part = Part(gap: Text, markup: Markup)

  function SpellFields(fields: seq<Field>): Text {
    if fields == [] then []
    else SpellField(fields[0]) + SpellFields(fields[1..])
  }

  function SpellField(f: Field): Text {
    f.name + (f.before + ([61] + (f.after + ([f.quote] + (f.value + ([f.quote] + f.space))))))
  }

  function Spell(x: Markup): Text
    decreases x, 1
  {
    match x
    case Empty(name, space, fields) => [60] + (name + (space + (SpellFields(fields) + [47, 62])))
    case Full(name, space, fields, parts, last, close, closeSpace) =>
      [60] + (name + (space + (SpellFields(fields)
      + ([62] + (SpellParts(parts) + (last + Closer(close, closeSpace)))))))
    case CommentIs(t) => [60, 33, 45, 45] + (t + [45, 45, 62])
    case SectionIs(t) => [60, 33, 91, 67, 68, 65, 84, 65, 91] + (t + [93, 93, 62])
    case Instruction(t) => [60, 63] + (t + [63, 62])
    case Doctype(b, t) => [60, 33, 68, 79, 67, 84, 89, 80, 69, b] + (t + [62])
    case Other(t) => [60, 33] + (t + [62])
  }

  function SpellParts(parts: seq<Part>): Text
    decreases parts, 0
  {
    if parts == [] then [] else parts[0].gap + (Spell(parts[0].markup) + SpellParts(parts[1..]))
  }

  function Closer(close: Text, closeSpace: Text): Text { [60, 47] + (close + (closeSpace + [62])) }

  // ----- what the parts may be -----

  predicate BlankByte(b: byte) { b in {9, 10, 13, 32} }

  /** No blank, slash, '>' or question mark, and no NUL. */
  predicate NameByte(b: byte) { b !in {0, 9, 10, 13, 32, 47, 62, 63} }

  /** None of these, and no '<', equals sign or exclamation mark. */
  predicate FieldByte(b: byte) { b !in {0, 9, 10, 13, 32, 33, 47, 60, 61, 62, 63} }

  predicate AllBlank(t: Text) { forall k :: 0 <= k < |t| ==> BlankByte(t[k]) }

  predicate AllName(t: Text) { forall k :: 0 <= k < |t| ==> NameByte(t[k]) }

  predicate AllField(t: Text) { forall k :: 0 <= k < |t| ==> FieldByte(t[k]) }

  /** Text between two pieces of markup. */
  predicate IsGap(t: Text) { forall k :: 0 <= k < |t| ==> t[k] != 0 && t[k] != 60 }

  predicate FineField(f: Field) {
    && f.name != [] && AllField(f.name) && AllBlank(f.before) && AllBlank(f.after) && AllBlank(f.space)
    && f.quote in {34, 39} && forall k :: 0 <= k < |f.value| ==> f.value[k] != 0 && f.value[k] != f.quote
  }

  predicate FineTag(name: Text, space: Text, fields: seq<Field>) {
    && name != [] && name[0] != 33 && AllName(name) && AllBlank(space) && (fields != [] ==> space != [])
    && forall k :: 0 <= k < |fields| ==> FineField(fields[k])
  }

  /** `word` comes behind `t` for the first time. */
  predicate EndsFirst(t: Text, word: Text) {
    NulFree(t) && forall k :: 0 <= k < |t| ==> !At(t + word, k, word)
  }

  function Step(depth: nat, b: byte): nat {
    if b == 91 then depth + 1 else if b == 93 && depth > 0 then depth - 1 else depth
  }

  /** With `depth` brackets open: they are all closed at the end, and '>' stands inside brackets only. */
  predicate Enclosed(depth: nat, t: Text)
    decreases |t|
  {
    if t == [] then depth == 0
    else t[0] != 0 && (t[0] == 62 ==> depth > 0) && Enclosed(Step(depth, t[0]), t[1..])
  }

  /** No comment, section or document type begins with "<!" and `t`. */
  predicate OtherText(t: Text) {
    && NulFree(t) && 62 !in t && !([45, 45] <= t) && !([91, 67, 68, 65, 84, 65, 91] <= t)
    && !([68, 79, 67, 84, 89, 80, 69] <= t && |t| > 7 && BlankByte(t[7]))
  }

  predicate FineMarkup(x: Markup, o: Options)
    decreases x, 1
  {
    match x
    case Empty(name, space, fields) => FineTag(name, space, fields)
    case Full(name, space, fields, parts, last, close, closeSpace) =>
      && FineTag(name, space, fields) && FineParts(parts, o) && IsGap(last) && AllName(close) && AllBlank(closeSpace)
      && (o.validateClosingTags ==> close == name)
    case CommentIs(t) => EndsFirst(t, [45, 45, 62])
    case SectionIs(t) => EndsFirst(t, [93, 93, 62])
    case Instruction(t) => EndsFirst(t, [63, 62])
    case Doctype(b, t) => BlankByte(b) && Enclosed(0, t)
    case Other(t) => OtherText(t)
  }

  predicate FineParts(parts: seq<Part>, o: Options)
    decreases parts, 0
  {
    parts == [] || (IsGap(parts[0].gap) && FineMarkup(parts[0].markup, o) && FineParts(parts[1..], o))
  }

  // ----- what they stand for -----

  /** A node as the reader of the document sees it; `value` is an element's own value. */
  datatype View =
    | VElement(name: Text, attributes: seq<(Text, Text)>, value: Option<Text>, children: seq<View>)
    | VData(t: Text) | VSection(t: Text) | VComment(t: Text)

  /** Without the blanks at its end. */
  function CutBack(t: Text): Text {
    if t != [] && BlankByte(t[|t| - 1]) then CutBack(t[..|t| - 1]) else t
  }

  /** Without the blanks on either side. */
  function Stripped(t: Text): Text {
    if t != [] && BlankByte(t[0]) then Stripped(t[1..]) else CutBack(t)
  }

  function Trimmed(t: Text, o: Options): Text { if o.trim then Stripped(t) else t }

  function FieldViews(fields: seq<Field>): seq<(Text, Text)> {
    if fields == [] then [] else [(fields[0].name, fields[0].value)] + FieldViews(fields[1..])
  }

  /** The node a text between markup makes, if it is not blank. */
  function GapViews(gap: Text, o: Options): seq<View> {
    if AllBlank(gap) || o.noDataNodes then [] else [VData(Trimmed(gap, o))]
  }

  /** The node a piece of markup makes, if it makes one. */
  function Views(x: Markup, o: Options): seq<View>
    decreases x, 1
  {
    match x
    case Empty(name, _, fields) => [VElement(name, FieldViews(fields), None, [])]
    case Full(name, _, fields, parts, last, _, _) =>
      [VElement(name, FieldViews(fields), ValueOf(parts, last, o), PartViews(parts, o) + GapViews(last, o))]
    case CommentIs(t) => if o.commentNodes then [VComment(t)] else []
    case SectionIs(t) => if o.noDataNodes then [] else [VSection(t)]
    case _ => []
  }

  function PartViews(parts: seq<Part>, o: Options): seq<View>
    decreases parts, 0
  {
    if parts == [] then []
    else GapViews(parts[0].gap, o) + Views(parts[0].markup, o) + PartViews(parts[1..], o)
  }

  /** An element's own value: its first text that is not blank. */
  function ValueOf(parts: seq<Part>, last: Text, o: Options): Option<Text> {
    if o.noElementValues then None
    else if parts == [] then if AllBlank(last) then None else Some(Trimmed(last, o))
    else if AllBlank(parts[0].gap) then ValueOf(parts[1..], last, o)
    else Some(Trimmed(parts[0].gap, o))
  }

  // ----- what the parser's nodes show -----

  function Seen(n: Node, c: Text): View
    decreases n, 1
  {
    match n
    case Element(name, attributes, content) =>
      VElement(SpanText(c, name), ShownAttributes(attributes, c), SeenValue(content.value, c),
               SeenAll(content.children, c))
    case Data(span) => VData(SpanText(c, span))
    case Cdata(span) => VSection(SpanText(c, span))
    case Comment(span) => VComment(SpanText(c, span))
  }

  function SeenAll(ns: seq<Node>, c: Text): seq<View>
    decreases ns, 0
  {
    if ns == [] then [] else [Seen(ns[0], c)] + SeenAll(ns[1..], c)
  }

  function SeenValue(value: Option<Span>, c: Text): Option<Text> {
    match value
    case None => None
    case Some(span) => Some(SpanText(c, span))
  }

  lemma {:induction false} SeenJoin(a: seq<Node>, b: seq<Node>, c: Text)
    ensures SeenAll(a + b, c) == SeenAll(a, c) + SeenAll(b, c)
  {
    if a == [] {
      assert [] + b == b;
    } else {
      SeenJoin(a[1..], b, c);
      assert (a + b)[1..] == a[1..] + b;
    }
  }

  lemma SeenOne(n: Node, c: Text)
    ensures SeenAll([n], c) == [Seen(n, c)]
  {
    assert [n][1..] == [];
    assert SeenAll([n], c) == [Seen(n, c)] + SeenAll([], c);
  }

  // ----- bytes -----

  /** The lookup tables of the parser say the same. */
  lemma Tables()
    ensures forall b: byte :: In(Class.Blank, b) <==> BlankByte(b)
    ensures forall b: byte :: In(NodeName, b) <==> NameByte(b)
    ensures forall b: byte :: In(AttrName, b) <==> FieldByte(b)
    ensures forall b: byte :: IsWhitespace(b) <==> BlankByte(b)
    ensures forall b: byte :: In(InRegion(Region.Data), b) <==> b != 0 && b != 60
  {
  }

  /** A run of one class, and a byte behind it that ends it. */
  lemma RunEnds(c: Text, i: nat, t: Text, rest: Text, p: Class)
    requires CString(c) && At(c, i, t + rest) && rest != [] && AllIn(t, p) && !In(p, rest[0])
    ensures Skip(c, i, p) == i + |t| < |c| && At(c, i + |t|, rest) && c[i + |t|] == rest[0]
  {
    hide At, CString, In;
    AtConcat(c, i, t, rest);
    AtIndex(c, i + |t|, rest, 0);
    SkipExact(c, i, t, p);
  }

  lemma BlankRun(c: Text, i: nat, t: Text, rest: Text)
    requires CString(c) && At(c, i, t + rest) && rest != [] && AllBlank(t) && !BlankByte(rest[0])
    ensures Skip(c, i, Class.Blank) == i + |t| < |c| && At(c, i + |t|, rest) && c[i + |t|] == rest[0]
  {
    Tables();
    hide At, CString;
    RunEnds(c, i, t, rest, Class.Blank);
  }

  lemma SpanHere(c: Text, i: nat, t: Text)
    requires At(c, i, t)
    ensures SpanText(c, Span(i, |t|)) == t
  {
  }

  // ----- attributes -----

  /** One attribute; `rest` is what comes behind it and begins with no blank. */
  lemma FieldRead(c: Text, i: nat, f: Field, rest: Text)
    requires CString(c) && At(c, i, SpellField(f) + rest) && FineField(f) && rest != [] && !BlankByte(rest[0])
    ensures i < |c| && In(AttrName, c[i]) && Attribute(c, i).Ok? && Attribute(c, i).next == i + |SpellField(f)| < |c|
    ensures SpanText(c, Attribute(c, i).value.name) == f.name && SpanText(c, Attribute(c, i).value.value) == f.value
    ensures At(c, i + |SpellField(f)|, rest)
  {
    hide At, Skip, CString, SpanText, Attribute, In, AllBlank, AllField, BlankByte;
    var t3 := [61] + (f.after + ([f.quote] + (f.value + ([f.quote] + (f.space + rest)))));
    assert SpellField(f) + rest == f.name + (f.before + t3);
    Separators(f.quote);
    hide FieldByte;
    FieldStart(f, t3);
    NameOfField(c, i, f.name, f.before + t3);
    var e := i + |f.name|;
    BlankRun(c, e, f.before, t3);
    SpanHere(c, i, f.name);
    var equals := e + |f.before|;
    var open, close := ValueOfField(c, equals, f, rest);
    AttributeIs(c, i, e, equals, open, close);
  }

  lemma Separators(q: byte)
    ensures !BlankByte(61) && !FieldByte(61) && (q in {34, 39} ==> !BlankByte(q))
    ensures forall b: byte :: BlankByte(b) ==> !FieldByte(b)
  {
  }

  lemma FieldStart(f: Field, t: Text)
    requires FineField(f) && t != [] && t[0] == 61
    ensures f.before + t != [] && !FieldByte((f.before + t)[0])
  {
    if f.before != [] { assert BlankByte(f.before[0]); }
  }

  /** From the equals sign on: where the opening and the closing quote stand. */
  lemma ValueOfField(c: Text, equals: nat, f: Field, rest: Text) returns (open: nat, close: nat)
    requires CString(c) && FineField(f) && rest != [] && !BlankByte(rest[0])
    requires At(c, equals, [61] + (f.after + ([f.quote] + (f.value + ([f.quote] + (f.space + rest))))))
    ensures open == equals + 1 + |f.after| && close == open + 1 + |f.value| && close + 1 < |c|
    ensures c[equals] == 61 && c[open] == c[close] == f.quote && Skip(c, equals + 1, Class.Blank) == open
    ensures Skip(c, open + 1, InRegion(Quoted(f.quote))) == close && SpanText(c, Span(open + 1, |f.value|)) == f.value
    ensures Skip(c, close + 1, Class.Blank) == close + 1 + |f.space| < |c| && At(c, close + 1 + |f.space|, rest)
  {
    hide At, Skip, CString, SpanText, In, AllBlank, BlankByte, FieldByte;
    var t4 := [f.quote] + (f.value + ([f.quote] + (f.space + rest)));
    Separators(f.quote);
    AtConcat(c, equals, [61], f.after + t4);
    AtIndex(c, equals, [61], 0);
    BlankRun(c, equals + 1, f.after, t4);
    open := equals + 1 + |f.after|;
    close := open + 1 + |f.value|;
    InQuotes(c, open, f, rest);
  }

  lemma InQuotes(c: Text, open: nat, f: Field, rest: Text)
    requires CString(c) && FineField(f) && rest != [] && !BlankByte(rest[0])
    requires At(c, open, [f.quote] + (f.value + ([f.quote] + (f.space + rest))))
    ensures var close := open + 1 + |f.value|;
            && close + 1 < |c| && c[open] == c[close] == f.quote
            && Skip(c, open + 1, InRegion(Quoted(f.quote))) == close
            && SpanText(c, Span(open + 1, |f.value|)) == f.value
            && Skip(c, close + 1, Class.Blank) == close + 1 + |f.space| < |c| && At(c, close + 1 + |f.space|, rest)
  {
    hide At, Skip, CString, SpanText, In, AllBlank, BlankByte, FieldByte;
    var t2 := [f.quote] + (f.space + rest);
    var close := open + 1 + |f.value|;
    AtConcat(c, open, [f.quote], f.value + t2);
    AtIndex(c, open, [f.quote], 0);
    InsideQuotes(f);
    RunEnds(c, open + 1, f.value, t2, InRegion(Quoted(f.quote)));
    AtConcat(c, open + 1, f.value, t2);
    SpanHere(c, open + 1, f.value);
    AtConcat(c, close, [f.quote], f.space + rest);
    BlankRun(c, close + 1, f.space, rest);
  }

  lemma InsideQuotes(f: Field)
    requires FineField(f)
    ensures AllIn(f.value, InRegion(Quoted(f.quote))) && !In(InRegion(Quoted(f.quote)), f.quote)
  {
  }

  lemma AttributeIs(c: Text, i: nat, e: nat, equals: nat, open: nat, close: nat)
    requires CString(c) && i < e <= equals < open < close < |c| - 1 && In(AttrName, c[i])
    requires Skip(c, i + 1, AttrName) == e && Skip(c, e, Class.Blank) == equals && c[equals] == 61
    requires Skip(c, equals + 1, Class.Blank) == open && c[open] in {34, 39}
    requires Skip(c, open + 1, InRegion(Quoted(c[open]))) == close && c[close] == c[open]
    ensures Attribute(c, i) ==
            Ok(Attr(Span(i, e - i), Span(open + 1, close - (open + 1))), Skip(c, close + 1, Class.Blank))
  {
    hide Skip, CString, In;
  }

  lemma NameOfField(c: Text, i: nat, name: Text, rest: Text)
    requires CString(c) && At(c, i, name + rest) && name != [] && AllField(name) && rest != [] && !FieldByte(rest[0])
    ensures i < |c| && In(AttrName, c[i]) && At(c, i, name) && At(c, i + |name|, rest)
    ensures Skip(c, i + 1, AttrName) == i + |name|
  {
    Tables();
    hide At, CString, In;
    AtConcat(c, i, name, rest);
    AtIndex(c, i, name, 0);
    assert name == [name[0]] + name[1..];
    AtConcat(c, i, [name[0]], name[1..]);
    assert name + rest == [name[0]] + (name[1..] + rest);
    AtConcat(c, i, [name[0]], name[1..] + rest);
    RunEnds(c, i + 1, name[1..], rest, AttrName);
  }

  lemma {:induction false} FieldsRead(c: Text, i: nat, fields: seq<Field>, rest: Text)
    requires CString(c) && At(c, i, SpellFields(fields) + rest) && rest != [] && rest[0] in {47, 62}
    requires forall k :: 0 <= k < |fields| ==> FineField(fields[k])
    ensures i < |c| && Attributes(c, i).Ok? && Attributes(c, i).next == i + |SpellFields(fields)| < |c|
    ensures ShownAttributes(Attributes(c, i).value, c) == FieldViews(fields)
    ensures At(c, i + |SpellFields(fields)|, rest)
    decreases |fields|
  {
    hide At, Attribute, SpellField, SpanText, FineField;
    if fields == [] {
      assert SpellFields(fields) + rest == rest;
      AtIndex(c, i, rest, 0);
      Tables();
    } else {
      var f, more := fields[0], SpellFields(fields[1..]) + rest;
      assert FineField(f);
      assert SpellFields(fields) + rest == SpellField(f) + more;
      FieldsFirst(fields[1..], rest);
      FieldRead(c, i, f, more);
      FieldsRead(c, i + |SpellField(f)|, fields[1..], rest);
      OneShown(Attribute(c, i).value, Attributes(c, Attribute(c, i).next).value, c);
    }
  }

  lemma OneShown(x: Attr, more: seq<Attr>, c: Text)
    ensures ShownAttributes([x] + more, c) == [(SpanText(c, x.name), SpanText(c, x.value))] + ShownAttributes(more, c)
  {
    assert ([x] + more)[1..] == more;
  }

  lemma FieldsFirst(fields: seq<Field>, rest: Text)
    requires rest != [] && rest[0] in {47, 62} && forall k :: 0 <= k < |fields| ==> FineField(fields[k])
    ensures var t := SpellFields(fields) + rest;
            t != [] && !BlankByte(t[0]) && t[0] != 61 && (fields == [] ==> t == rest)
  {
    if fields != [] {
      assert FineField(fields[0]);
      assert SpellField(fields[0])[0] == fields[0].name[0];
    }
  }

  // ----- markup that is no element -----

  lemma ClosedRead(c: Text, i: nat, t: Text, word: Text)
    requires CString(c) && At(c, i, t + word) && i + |t + word| < |c| && EndsFirst(t, word)
    requires word in {COMMENT_CLOSE, CDATA_CLOSE, PI_CLOSE}
    ensures Closed(c, i, word) == Ok(Span(i, |t|), i + |t| + |word|) && SpanText(c, Span(i, |t|)) == t
  {
    hide At, Find, Closable, SpanText;
    assert Closable(t, word) by { SameClosable(t, word); }
    FindExact(c, i, t, word, 0);
    AtConcat(c, i, t, word);
    AtIndex(c, i + |t|, word, 0);
    SpanHere(c, i, t);
  }

  lemma SameClosable(t: Text, word: Text)
    ensures EndsFirst(t, word) <==> Closable(t, word)
  {
  }

  /** What parse_node makes of a piece of markup. */
  predicate ReadsAs(c: Text, i: nat, x: Markup, o: Options)
    requires CString(c)
  {
    && i + 1 < |c| && c[i] == 60 && c[i + 1] != 47 && i + |Spell(x)| < |c|
    && ParseNode(c, i + 1, o).Ok? && ParseNode(c, i + 1, o).next == i + |Spell(x)|
    && SeenAll(Single(ParseNode(c, i + 1, o).value).children, c) == Views(x, o)
  }

  lemma Front(c: Text, i: nat, front: Text, rest: Text)
    requires At(c, i, front + rest)
    ensures At(c, i, front) && At(c, i + |front|, rest) && i + |front| + |rest| <= |c|
    ensures forall k :: 0 <= k < |front| ==> c[i + k] == front[k]
  {
    AtConcat(c, i, front, rest);
    forall k | 0 <= k < |front| ensures c[i + k] == front[k] { AtIndex(c, i, front, k); }
  }

  lemma CommentRead(c: Text, i: nat, t: Text, o: Options)
    requires CString(c) && At(c, i, Spell(CommentIs(t))) && i + |Spell(CommentIs(t))| < |c|
    requires FineMarkup(CommentIs(t), o)
    ensures ReadsAs(c, i, CommentIs(t), o)
  {
    hide Closed, EndsFirst, SpanText;
    Front(c, i, [60, 33, 45, 45], t + [45, 45, 62]);
    assert c[i + 0] == 60 && c[i + 1] == 33 && c[i + 2] == 45 && c[i + 3] == 45;
    assert c[i + 1..i + 4] == COMMENT_OPEN;
    assert COMMENT_CLOSE == [45, 45, 62];
    ClosedRead(c, i + 4, t, COMMENT_CLOSE);
    if o.commentNodes { SeenOne(Comment(Span(i + 4, |t|)), c); }
  }

  lemma SectionRead(c: Text, i: nat, t: Text, o: Options)
    requires CString(c) && At(c, i, Spell(SectionIs(t))) && i + |Spell(SectionIs(t))| < |c|
    requires FineMarkup(SectionIs(t), o)
    ensures ReadsAs(c, i, SectionIs(t), o)
  {
    hide Closed, EndsFirst, SpanText;
    var open: Text := [60, 33, 91, 67, 68, 65, 84, 65, 91];
    Front(c, i, open, t + [93, 93, 62]);
    assert c[i + 0] == 60 && c[i + 1] == 33 && c[i + 2] == 91;
    assert c[i + 1..i + 9] == open[1..] == CDATA_OPEN;
    assert c[i + 1..i + 4][1] == 91;
    assert CDATA_CLOSE == [93, 93, 62];
    ClosedRead(c, i + 9, t, CDATA_CLOSE);
    if !o.noDataNodes { SeenOne(Cdata(Span(i + 9, |t|)), c); }
  }

  lemma InstructionRead(c: Text, i: nat, t: Text, o: Options)
    requires CString(c) && At(c, i, Spell(Instruction(t))) && i + |Spell(Instruction(t))| < |c|
    requires FineMarkup(Instruction(t), o)
    ensures ReadsAs(c, i, Instruction(t), o)
  {
    hide Closed, EndsFirst, SpanText;
    Front(c, i, [60, 63], t + [63, 62]);
    assert c[i + 0] == 60 && c[i + 1] == 63;
    assert PI_CLOSE == [63, 62];
    ClosedRead(c, i + 2, t, PI_CLOSE);
  }

  /** The bracket loops, as one walk with a depth. */
  function Walk(c: Text, i: nat, depth: nat): Result<()>
    requires CString(c) && i < |c|
  {
    if depth == 0 then SkipDoctype(c, i)
    else
      match SkipBrackets(c, i, depth)
      case Error(at) => Error(at)
      case Ok(_, next) => SkipDoctype(c, next)
  }

  lemma WalkStep(c: Text, i: nat, depth: nat)
    requires CString(c) && i < |c| && c[i] != 0
    ensures i + 1 < |c|
    ensures Walk(c, i, depth) == if c[i] == 62 && depth == 0 then Ok((), i + 1) else Walk(c, i + 1, Step(depth, c[i]))
  {
    NulIsLast(c, i);
  }

  lemma {:induction false} EnclosedRead(c: Text, i: nat, t: Text, depth: nat)
    requires CString(c) && At(c, i, t + [62]) && Enclosed(depth, t)
    ensures i < |c| && Walk(c, i, depth) == Ok((), i + |t| + 1) && i + |t| + 1 < |c|
    decreases |t|
  {
    hide At, Walk, CString;
    AtIndex(c, i, t + [62], 0);
    if t == [] {
      WalkStep(c, i, depth);
    } else {
      assert t + [62] == [t[0]] + (t[1..] + [62]);
      AtConcat(c, i, [t[0]], t[1..] + [62]);
      WalkStep(c, i, depth);
      EnclosedRead(c, i + 1, t[1..], Step(depth, t[0]));
    }
  }

  lemma DoctypeRead(c: Text, i: nat, b: byte, t: Text, o: Options)
    requires CString(c) && At(c, i, Spell(Doctype(b, t))) && i + |Spell(Doctype(b, t))| < |c|
    requires FineMarkup(Doctype(b, t), o)
    ensures ReadsAs(c, i, Doctype(b, t), o)
  {
    hide Closed, Find, SkipDoctype, SkipBrackets;
    var open: Text := [60, 33, 68, 79, 67, 84, 89, 80, 69, b];
    Front(c, i, open, t + [62]);
    EnclosedRead(c, i + 10, t, 0);
    Tables();
    assert c[i + 0] == 60 && c[i + 1] == 33 && c[i + 2] == 68 && c[i + 9] == b;
    assert c[i + 1..i + 9] == open[1..9] == DOCTYPE_OPEN;
    DoctypeNode(c, i, o);
  }

  lemma DoctypeNode(c: Text, i: nat, o: Options)
    requires CString(c) && i + 10 < |c| && c[i + 1] == 33 && c[i + 2] == 68 && At(c, i + 1, DOCTYPE_OPEN)
    requires IsWhitespace(c[i + 9]) && SkipDoctype(c, i + 10).Ok?
    ensures ParseNode(c, i + 1, o) == Ok(None, SkipDoctype(c, i + 10).next)
  {
    hide Closed, Find, SkipDoctype;
    Second(c, i + 1, COMMENT_OPEN);
    Second(c, i + 1, CDATA_OPEN);
  }

  lemma AtByte(c: Text, i: nat)
    requires i < |c|
    ensures At(c, i, [62]) <==> c[i] == 62
  {
    assert c[i..i + 1] == [c[i]];
  }

  lemma {:induction false} FindByte(c: Text, i: nat, e: nat)
    requires CString(c) && i <= e < |c| && c[e] == 62 && forall k :: i <= k < e ==> c[k] != 0 && c[k] != 62
    ensures Find(c, i, [62]) == e
    decreases e - i
  {
    AtByte(c, i);
    hide At;
    if i < e { FindByte(c, i + 1, e); }
  }

  lemma OtherRead(c: Text, i: nat, t: Text, o: Options)
    requires CString(c) && At(c, i, Spell(Other(t))) && i + |Spell(Other(t))| < |c|
    requires FineMarkup(Other(t), o)
    ensures ReadsAs(c, i, Other(t), o)
  {
    hide Closed, Find, SkipDoctype, At, OtherText;
    var e := i + 2 + |t|;
    OtherScan(c, i, t);
    OtherOpens(c, i, t);
    NulIsLast(c, e);
    assert ParseBang(c, i + 1, o) == Ok(None, e + 1);
  }

  lemma OtherScan(c: Text, i: nat, t: Text)
    requires CString(c) && At(c, i, Spell(Other(t))) && i + |Spell(Other(t))| < |c| && OtherText(t)
    ensures c[i] == 60 && c[i + 1] == 33 && i + 2 + |t| < |c| && At(c, i + 2, t) && c[i + 2 + |t|] == 62
    ensures Find(c, i + 2, [GT]) == i + 2 + |t|
  {
    hide Find, CString, At;
    Front(c, i, [60, 33], t + [62]);
    Front(c, i + 2, t, [62]);
    AtIndex(c, i + 2 + |t|, [62], 0);
    assert c[i + 0] == 60 && c[i + 1] == 33;
    forall k | i + 2 <= k < i + 2 + |t| ensures c[k] != 0 && c[k] != 62 {
      assert c[i + 2 + (k - i - 2)] == t[k - i - 2];
    }
    FindByte(c, i + 2, i + 2 + |t|);
    assert GT == 62;
  }

  lemma OtherOpens(c: Text, i: nat, t: Text)
    requires At(c, i + 2, t) && i + 2 + |t| < |c| && c[i + 2 + |t|] == 62 && OtherText(t)
    ensures !At(c, i + 1, COMMENT_OPEN) && !At(c, i + 1, CDATA_OPEN)
    ensures !(At(c, i + 1, DOCTYPE_OPEN) && i + 9 < |c| && IsWhitespace(c[i + 9]))
  {
    AtText(c, i + 2, t);
    hide At;
    OtherBegins(c, i, t, COMMENT_OPEN, [45, 45]);
    OtherBegins(c, i, t, CDATA_OPEN, [91, 67, 68, 65, 84, 65, 91]);
    OtherBegins(c, i, t, DOCTYPE_OPEN, [68, 79, 67, 84, 89, 80, 69]);
    if |t| > 7 { AtIndex(c, i + 2, t, 7); }
  }

  /** An opening behind "<!" would be the beginning of the text, '>' being part of none. */
  lemma OtherBegins(c: Text, i: nat, t: Text, open: Text, word: Text)
    requires i + 2 + |t| < |c| && c[i + 2..i + 2 + |t|] == t && c[i + 2 + |t|] == 62
    requires open == [33] + word && 62 !in word
    ensures At(c, i + 1, open) ==> word <= t
  {
    var n := |word|;
    if At(c, i + 1, open) {
      forall k | 0 <= k < n ensures c[i + 2 + k] == word[k] && word[k] != 62 {
        AtIndex(c, i + 1, open, k + 1);
      }
      assert n <= |t|;
      assert forall k :: 0 <= k < n ==> t[k] == c[i + 2..i + 2 + |t|][k];
    }
  }
}
