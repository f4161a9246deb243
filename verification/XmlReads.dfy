/** Every XML text is read: elements and documents, under every choice of flags. */
module XmlReads {
  import opened Bytes
  import opened XmlExpand
  import opened XmlTree
  import opened XmlRoundTrip
  import opened XmlSyntax

  // ----- data -----

  /** A gap is blank, or it is data. */
  lemma {:induction false} CutBackIs(c: Text, start: nat, e: nat)
    requires start < e <= |c| && !BlankByte(c[start])
    ensures CutBack(c[start..e]) == c[start..TrimEnd(c, start, e)]
    decreases e
  {
    var t := c[start..e];
    assert t[|t| - 1] == c[e - 1];
    if IsWhitespace(c[e - 1]) {
      assert t[..|t| - 1] == c[start..e - 1];
      CutBackIs(c, start, e - 1);
    }
  }

  lemma {:induction false} StrippedIs(c: Text, i: nat, j: nat, e: nat)
    requires i <= j < e <= |c| && (forall k :: i <= k < j ==> BlankByte(c[k])) && !BlankByte(c[j])
    ensures Stripped(c[i..e]) == c[j..TrimEnd(c, j, e)]
    decreases j - i
  {
    var t := c[i..e];
    assert t[0] == c[i];
    if i < j {
      assert t[1..] == c[i + 1..e];
      StrippedIs(c, i + 1, j, e);
    } else {
      CutBackIs(c, j, e);
    }
  }

  /** What the contents loop does with a blank gap in front of a '<'. */
  lemma BlankGapRead(c: Text, i: nat, gap: Text, name: Span, o: Options)
    requires CString(c) && At(c, i, gap) && i + |gap| < |c| && c[i + |gap|] == 60 && AllBlank(gap) && name.End() <= i
    ensures ParseContents(c, i, name, o) == ParseMarkup(c, i + |gap|, name, o)
  {
    hide ParseMarkup, At;
    Tables();
    SkipExact(c, i, gap, Class.Blank);
  }

  /** And with one that is not. */
  lemma DataGapRead(c: Text, i: nat, gap: Text, name: Span, o: Options) returns (span: Span)
    requires CString(c) && At(c, i, gap) && i + |gap| < |c| && c[i + |gap|] == 60 && IsGap(gap) && name.End() <= i
    requires !AllBlank(gap)
    ensures ParseContents(c, i, name, o) == Join(DataContent(span, o), ParseMarkup(c, i + |gap|, name, o))
    ensures SpanText(c, span) == Trimmed(gap, o)
  {
    hide ParseMarkup, ParseContents, CString, Skip, AllBlank;
    var t, j := i + |gap|, Skip(c, i, Class.Blank);
    FirstVisible(c, i, gap);
    DataRun(c, i, gap);
    DataTaken(c, i, name, o);
    span := DataSpan(c, if o.trim then j else i, t, o);
    AtText(c, i, gap);
    if o.trim { StrippedIs(c, i, j, t); }
  }

  lemma DataRun(c: Text, i: nat, gap: Text)
    requires CString(c) && At(c, i, gap) && i + |gap| < |c| && c[i + |gap|] == 60 && IsGap(gap) && !AllBlank(gap)
    ensures Skip(c, Skip(c, i, Class.Blank), InRegion(Region.Data)) == i + |gap|
  {
    Tables();
    FirstVisible(c, i, gap);
    hide At, AllBlank, In;
    assert AllIn(gap, InRegion(Region.Data));
    SkipExact(c, i, gap, InRegion(Region.Data));
    DataEnd(c, i, Skip(c, i, Class.Blank));
  }

  lemma DataTaken(c: Text, i: nat, name: Span, o: Options)
    requires CString(c) && i < |c| && name.End() <= i
    requires var j := Skip(c, i, Class.Blank); c[j] != 60 && c[j] != 0
    ensures var j := Skip(c, i, Class.Blank);
            var t := Skip(c, j, InRegion(Region.Data));
            && j < t && t < |c|
            && (o.trim ==> !IsWhitespace(c[j])) && i < t
            && ParseContents(c, i, name, o) ==
               Join(DataContent(DataSpan(c, if o.trim then j else i, t, o), o), ParseMarkup(c, t, name, o))
  {
    hide ParseMarkup;
    DataEnd(c, i, Skip(c, i, Class.Blank));
  }

  /** The blank skip stops at the first byte of a gap that is not blank. */
  lemma FirstVisible(c: Text, i: nat, gap: Text)
    requires CString(c) && At(c, i, gap) && i + |gap| < |c| && IsGap(gap) && !AllBlank(gap)
    ensures var j := Skip(c, i, Class.Blank);
            && i <= j < i + |gap| && c[j] != 0 && c[j] != 60 && !BlankByte(c[j])
            && forall k :: i <= k < j ==> BlankByte(c[k])
  {
    Tables();
    AtText(c, i, gap);
    var j := Skip(c, i, Class.Blank);
    assert forall k :: 0 <= k < |gap| ==> c[i + k] == gap[k];
    var k :| 0 <= k < |gap| && !BlankByte(gap[k]);
    assert !BlankByte(c[i + k]);
    assert j <= i + k;
    assert c[j] == gap[j - i];
  }

  lemma DataSeen(span: Span, o: Options, c: Text, t: Text)
    requires SpanText(c, span) == t
    ensures SeenAll(DataContent(span, o).children, c) == if o.noDataNodes then [] else [VData(t)]
    ensures SeenValue(DataContent(span, o).value, c) == if o.noElementValues then None else Some(t)
  {
    SeenOne(Node.Data(span), c);
  }

  // ----- contents -----

  /** What has been read of an element's contents shows these children and this value. */
  predicate Shows(r: Result<Content>, next: nat, views: seq<View>, value: Option<Text>, c: Text) {
    r.Ok? && r.next == next && SeenAll(r.value.children, c) == views && SeenValue(r.value.value, c) == value
  }

  lemma ShowsJoined(front: Content, r: Result<Content>, next: nat, views: seq<View>, value: Option<Text>, c: Text)
    requires Shows(r, next, views, value, c)
    ensures Shows(Join(front, r), next, SeenAll(front.children, c) + views,
                  if front.value.Some? then SeenValue(front.value, c) else value, c)
  {
    SeenJoin(front.children, r.value.children, c);
  }

  /** A name that stands at a span. */
  predicate NameAt(c: Text, name: Span, t: Text) { name.size == |t| && At(c, name.at, t) }

  /** The contents of an element from a gap on, and its closing tag. */
  function Behind(parts: seq<Part>, last: Text, close: Text, closeSpace: Text): Text {
    SpellParts(parts) + (last + Closer(close, closeSpace))
  }

  predicate FineBehind(parts: seq<Part>, last: Text, close: Text, closeSpace: Text, t: Text, o: Options) {
    && FineParts(parts, o) && IsGap(last) && AllName(close) && AllBlank(closeSpace)
    && (o.validateClosingTags ==> close == t)
  }

  lemma CloserParts(c: Text, i: nat, close: Text, closeSpace: Text)
    requires CString(c) && At(c, i, Closer(close, closeSpace)) && AllName(close) && AllBlank(closeSpace)
    requires i + |Closer(close, closeSpace)| < |c|
    ensures c[i] == 60 && c[i + 1] == 47 && At(c, i + 2, close) && i + 2 + |close| + |closeSpace| < |c|
    ensures Skip(c, i + 2, NodeName) == i + 2 + |close|
    ensures Skip(c, i + 2 + |close|, Class.Blank) == i + 2 + |close| + |closeSpace|
    ensures c[i + 2 + |close| + |closeSpace|] == 62
  {
    hide At, Skip, CString, In;
    var rest := closeSpace + [62];
    Front(c, i, [60, 47], close + rest);
    assert c[i + 0] == 60 && c[i + 1] == 47;
    CloseNames(close, closeSpace);
    RunEnds(c, i + 2, close, rest, NodeName);
    AtConcat(c, i + 2, close, rest);
    BlankRun(c, i + 2 + |close|, closeSpace, [62]);
  }

  lemma CloseNames(close: Text, closeSpace: Text)
    requires AllName(close) && AllBlank(closeSpace)
    ensures AllIn(close, NodeName) && !In(NodeName, (closeSpace + [62])[0])
  {
    if closeSpace != [] { assert BlankByte(closeSpace[0]); }
    Tables();
  }

  lemma CloserRead(c: Text, i: nat, close: Text, closeSpace: Text, name: Span, t: Text, o: Options)
    requires CString(c) && At(c, i, Closer(close, closeSpace)) && AllName(close) && AllBlank(closeSpace)
    requires NameAt(c, name, t) && name.End() <= i && (o.validateClosingTags ==> close == t)
    requires i + |Closer(close, closeSpace)| < |c|
    ensures c[i] == 60 && Shows(ParseMarkup(c, i, name, o), i + |Closer(close, closeSpace)|, [], None, c)
  {
    hide At, Skip, CString, AllName, AllBlank;
    CloserParts(c, i, close, closeSpace);
    AtText(c, i + 2, close);
    AtText(c, name.at, t);
    NulIsLast(c, i);
    assert CloseTag(c, i + 2, name, o) == Ok((), i + |Closer(close, closeSpace)|);
    hide CloseTag;
    assert ParseMarkup(c, i, name, o) == Ok(Content([], None), i + |Closer(close, closeSpace)|);
  }

  /** A gap, a piece of markup, and what follows. */
  lemma {:induction false} PartsRead(c: Text, i: nat, parts: seq<Part>, last: Text, close: Text, closeSpace: Text,
                                     name: Span, t: Text, o: Options)
    requires CString(c) && At(c, i, Behind(parts, last, close, closeSpace))
    requires i + |Behind(parts, last, close, closeSpace)| < |c| && FineBehind(parts, last, close, closeSpace, t, o)
    requires NameAt(c, name, t) && name.End() <= i
    ensures Shows(ParseContents(c, i, name, o), i + |Behind(parts, last, close, closeSpace)|,
                  PartViews(parts, o) + GapViews(last, o), ValueOf(parts, last, o), c)
    decreases parts, 2
  {
    hide At, CString, Closer, Spell, FineMarkup, Views, IsGap, AllBlank, AllName, NameAt, Shows, ReadsAs;
    hide ParseContents, ParseMarkup, SeenAll, Trimmed, SpellParts, PartViews, GapViews, Behind;
    BehindSplit(parts, last, close, closeSpace);
    ViewsSplit(parts, last, o);
    if parts == [] {
      var rest := Closer(close, closeSpace);
      AtConcat(c, i, last, rest);
      CloserRead(c, i + |last|, close, closeSpace, name, t, o);
      GapThen(c, i, last, name, o, i + |last| + |rest|, [], None);
    } else {
      var gap, more := parts[0].gap, Behind(parts[1..], last, close, closeSpace);
      var x := parts[0].markup;
      AtConcat(c, i, gap, Spell(x) + more);
      var j := i + |gap|;
      AtConcat(c, j, Spell(x), more);
      MarkupRead(c, j, x, o);
      BeginsThere(c, j, x, o);
      var next := j + |Spell(x)|;
      PartsRead(c, next, parts[1..], last, close, closeSpace, name, t, o);
      var views := PartViews(parts[1..], o) + GapViews(last, o);
      NodeThen(c, j, x, name, o, next + |more|, views, ValueOf(parts[1..], last, o));
      GapThen(c, i, gap, name, o, next + |more|, Views(x, o) + views, ValueOf(parts[1..], last, o));
    }
  }

  lemma BeginsThere(c: Text, j: nat, x: Markup, o: Options)
    requires CString(c) && ReadsAs(c, j, x, o)
    ensures j < |c| && c[j] == 60
  {
    hide ParseNode, Spell, Views, SeenAll;
  }

  lemma BehindSplit(parts: seq<Part>, last: Text, close: Text, closeSpace: Text)
    ensures parts == [] ==> Behind(parts, last, close, closeSpace) == last + Closer(close, closeSpace)
    ensures parts != [] ==>
              Behind(parts, last, close, closeSpace) ==
              parts[0].gap + (Spell(parts[0].markup) + Behind(parts[1..], last, close, closeSpace))
  {
    hide Spell, Closer;
  }

  lemma ViewsSplit(parts: seq<Part>, last: Text, o: Options)
    ensures parts == [] ==> PartViews(parts, o) + GapViews(last, o) == GapViews(last, o) + []
    ensures parts != [] ==>
              PartViews(parts, o) + GapViews(last, o) ==
              GapViews(parts[0].gap, o) + (Views(parts[0].markup, o) + (PartViews(parts[1..], o) + GapViews(last, o)))
  {
    hide Views, GapViews;
  }

  lemma GapThen(c: Text, i: nat, gap: Text, name: Span, o: Options, next: nat, views: seq<View>, value: Option<Text>)
    requires CString(c) && At(c, i, gap) && i + |gap| < |c| && c[i + |gap|] == 60 && IsGap(gap) && name.End() <= i
    requires Shows(ParseMarkup(c, i + |gap|, name, o), next, views, value, c)
    ensures Shows(ParseContents(c, i, name, o), next, GapViews(gap, o) + views,
                  if AllBlank(gap) || o.noElementValues then value else Some(Trimmed(gap, o)), c)
  {
    hide ParseContents, ParseMarkup, SeenAll, Trimmed, IsGap, CString, At, AllBlank, SpanText;
    var r := ParseMarkup(c, i + |gap|, name, o);
    if AllBlank(gap) {
      BlankGapRead(c, i, gap, name, o);
      assert [] + views == views;
    } else {
      var span := DataGapRead(c, i, gap, name, o);
      DataSeen(span, o, c, Trimmed(gap, o));
      ShowsJoined(DataContent(span, o), r, next, views, value, c);
    }
  }

  lemma NodeThen(c: Text, j: nat, x: Markup, name: Span, o: Options, next: nat, views: seq<View>, value: Option<Text>)
    requires CString(c) && ReadsAs(c, j, x, o) && name.End() <= j
    requires Shows(ParseContents(c, j + |Spell(x)|, name, o), next, views, value, c)
    ensures Shows(ParseMarkup(c, j, name, o), next, Views(x, o) + views, value, c)
  {
    hide ParseContents, ParseNode, SeenAll, CString, Views, Spell;
    var child := ParseNode(c, j + 1, o).value;
    ShowsJoined(Single(child), ParseContents(c, j + |Spell(x)|, name, o), next, views, value, c);
  }

  // ----- elements -----

  lemma {:induction false} MarkupRead(c: Text, i: nat, x: Markup, o: Options)
    requires CString(c) && At(c, i, Spell(x)) && i + |Spell(x)| < |c| && FineMarkup(x, o)
    ensures ReadsAs(c, i, x, o)
    decreases x, 4
  {
    hide ReadsAs, CString, At, Spell, FineMarkup;
    match x
    case Empty(name, space, fields) => EmptyRead(c, i, name, space, fields, o);
    case Full(name, space, fields, parts, last, close, closeSpace) =>
      FullRead(c, i, name, space, fields, parts, last, close, closeSpace, o);
    case CommentIs(t) => CommentRead(c, i, t, o);
    case SectionIs(t) => SectionRead(c, i, t, o);
    case Instruction(t) => InstructionRead(c, i, t, o);
    case Doctype(b, t) => DoctypeRead(c, i, b, t, o);
    case Other(t) => OtherRead(c, i, t, o);
  }

  /** A start tag up to its end, `rest` from there on: where its name, the blank behind it and its attributes end. */
  lemma TagRead(c: Text, i: nat, name: Text, space: Text, fields: seq<Field>, rest: Text)
    returns (e: nat, b: nat, p: nat)
    requires CString(c) && At(c, i, [60] + (name + (space + (SpellFields(fields) + rest))))
    requires FineTag(name, space, fields) && rest != [] && rest[0] in {47, 62}
    ensures name != [] && i + 1 < |c| && c[i] == 60 && c[i + 1] !in {33, 47, 63}
    ensures e == i + 1 + |name| < |c| && b == e + |space| < |c| && p == b + |SpellFields(fields)| < |c|
    ensures Skip(c, i + 1, NodeName) == e && Skip(c, e, Class.Blank) == b
    ensures Attributes(c, b).Ok? && Attributes(c, b).next == p
    ensures ShownAttributes(Attributes(c, b).value, c) == FieldViews(fields)
    ensures NameAt(c, Span(i + 1, |name|), name) && At(c, p, rest) && c[p] == rest[0]
  {
    hide At, Skip, CString, Attributes, SpellFields, ShownAttributes, FieldViews, In, BlankByte;
    var tail := SpellFields(fields) + rest;
    Front(c, i, [60], name + (space + tail));
    assert c[i + 0] == 60;
    TagName(name, space, fields, rest);
    e, b, p := i + 1 + |name|, i + 1 + |name| + |space|, i + 1 + |name| + |space| + |SpellFields(fields)|;
    RunEnds(c, i + 1, name, space + tail, NodeName);
    AtConcat(c, i + 1, name, space + tail);
    AtIndex(c, i + 1, name, 0);
    BlankRun(c, e, space, tail);
    FieldsRead(c, b, fields, rest);
    AtIndex(c, p, rest, 0);
  }

  lemma TagName(name: Text, space: Text, fields: seq<Field>, rest: Text)
    requires FineTag(name, space, fields) && rest != [] && rest[0] in {47, 62}
    ensures var tail := SpellFields(fields) + rest;
            && AllIn(name, NodeName) && space + tail != [] && !In(NodeName, (space + tail)[0])
            && tail != [] && !BlankByte(tail[0]) && AllBlank(space) && name[0] !in {33, 47, 63}
            && forall k :: 0 <= k < |fields| ==> FineField(fields[k])
  {
    hide SpellFields, FineField, FieldByte;
    FieldsFirst(fields, rest);
    assert NameByte(name[0]);
    Tables();
    if space != [] { assert BlankByte(space[0]); }
  }

  lemma EmptyRead(c: Text, i: nat, name: Text, space: Text, fields: seq<Field>, o: Options)
    requires CString(c) && At(c, i, Spell(Empty(name, space, fields))) && i + |Spell(Empty(name, space, fields))| < |c|
    requires FineMarkup(Empty(name, space, fields), o)
    ensures ReadsAs(c, i, Empty(name, space, fields), o)
  {
    hide At, Skip, CString, Attributes, SpellFields, ShownAttributes, FieldViews;
    var e, b, p := TagRead(c, i, name, space, fields, [47, 62]);
    AtIndex(c, p, [47, 62], 1);
    AtText(c, i + 1, name);
    var element := Element(Span(i + 1, |name|), Attributes(c, b).value, Content([], None));
    assert ParseRest(c, p, Span(i + 1, |name|), o) == Ok(Content([], None), p + 2);
    assert ParseElement(c, i + 1, o) == Ok(element, p + 2);
    SeenOne(element, c);
  }

  lemma {:induction false} FullRead(c: Text, i: nat, name: Text, space: Text, fields: seq<Field>, parts: seq<Part>,
                                    last: Text, close: Text, closeSpace: Text, o: Options)
    requires CString(c) && At(c, i, Spell(Full(name, space, fields, parts, last, close, closeSpace)))
    requires i + |Spell(Full(name, space, fields, parts, last, close, closeSpace))| < |c|
    requires FineMarkup(Full(name, space, fields, parts, last, close, closeSpace), o)
    ensures ReadsAs(c, i, Full(name, space, fields, parts, last, close, closeSpace), o)
    decreases parts, 3
  {
    hide At, Skip, CString, Attributes, SpellFields, ShownAttributes, FieldViews, ParseContents, FineTag, FineParts;
    hide IsGap, AllName, AllBlank, SpanText, PartViews, GapViews, ValueOf, Closer, SpellParts, SeenAll, SeenValue;
    var behind := Behind(parts, last, close, closeSpace);
    var e, b, p := TagRead(c, i, name, space, fields, [62] + behind);
    AtConcat(c, p, [62], behind);
    var span := Span(i + 1, |name|);
    PartsRead(c, p + 1, parts, last, close, closeSpace, span, name, o);
    var content := ParseContents(c, p + 1, span, o);
    ElementIs(c, i + 1, e, b, p, o);
    var element := Element(span, Attributes(c, b).value, content.value);
    SpanHere(c, i + 1, name);
    SeenOne(element, c);
    hide ParseElement;
  }

  /** parse_element from what its calls give. */
  lemma ElementIs(c: Text, i: nat, e: nat, b: nat, p: nat, o: Options)
    requires CString(c) && i < e <= b < |c| && Skip(c, i, NodeName) == e && Skip(c, e, Class.Blank) == b
    requires Attributes(c, b).Ok? && Attributes(c, b).next == p < |c| && c[p] == 62
    ensures p + 1 < |c|
    ensures ParseElement(c, i, o) ==
            match ParseContents(c, p + 1, Span(i, e - i), o)
            case Error(at) => Error(at)
            case Ok(content, next) => Ok(Element(Span(i, e - i), Attributes(c, b).value, content), next)
  {
    hide Skip, Attributes, ParseContents, CString;
    NulIsLast(c, p);
  }

  // ----- documents -----

  /** A document: perhaps a byte order mark, then markup with blanks in front of and behind each piece. */
  datatype Document = Document(mark: bool, parts: seq<Part>, last: Text)

  function SpellDocument(d: Document): Text {
    (if d.mark then [0xEF, 0xBB, 0xBF] else []) + (SpellParts(d.parts) + d.last)
  }

  predicate FineDocument(d: Document, o: Options) {
    FineParts(d.parts, o) && BlankGaps(d.parts) && AllBlank(d.last)
  }

  predicate BlankGaps(parts: seq<Part>) { forall k :: 0 <= k < |parts| ==> AllBlank(parts[k].gap) }

  lemma {:induction false} NodesRead(c: Text, i: nat, parts: seq<Part>, last: Text, o: Options)
    requires CString(c) && At(c, i, SpellParts(parts) + last) && i + |SpellParts(parts) + last| == |c| - 1
    requires FineParts(parts, o) && BlankGaps(parts) && AllBlank(last)
    ensures var r := ParseDocument(c, i, o);
            r.Ok? && r.next == |c| - 1 && SeenAll(r.value, c) == PartViews(parts, o)
    decreases |parts|
  {
    hide At, Skip, CString, Spell, FineMarkup, Views, ParseNode, SeenAll, AllBlank, ParseDocument, ReadsAs;
    if parts == [] {
      assert SpellParts(parts) + last == last;
      NodesEnd(c, i, last, o);
    } else {
      var gap, x, more := parts[0].gap, parts[0].markup, SpellParts(parts[1..]) + last;
      assert SpellParts(parts) + last == gap + (Spell(x) + more);
      AtConcat(c, i, gap, Spell(x) + more);
      var j := i + |gap|;
      AtConcat(c, j, Spell(x), more);
      MarkupRead(c, j, x, o);
      GapsBehind(parts);
      NodesRead(c, j + |Spell(x)|, parts[1..], last, o);
      BlankThen(c, i, gap, x, o);
      NoGapViews(gap, o);
      DocumentStep(c, i, j, x, o);
      assert PartViews(parts, o) == [] + Views(x, o) + PartViews(parts[1..], o);
    }
  }

  lemma GapsBehind(parts: seq<Part>)
    requires parts != [] && BlankGaps(parts)
    ensures AllBlank(parts[0].gap) && BlankGaps(parts[1..])
  {
    hide AllBlank;
    assert forall k :: 0 <= k < |parts[1..]| ==> parts[1..][k] == parts[k + 1];
  }

  lemma NodesEnd(c: Text, i: nat, last: Text, o: Options)
    requires CString(c) && At(c, i, last) && i + |last| == |c| - 1 && AllBlank(last)
    ensures ParseDocument(c, i, o) == Ok([], |c| - 1) && SeenAll([], c) == []
  {
    hide Skip, At, AllBlank;
    LastBlank(c, i, last);
    NulIsLast(c, |c| - 1);
  }

  lemma DocumentStep(c: Text, i: nat, j: nat, x: Markup, o: Options)
    requires CString(c) && i <= j && ReadsAs(c, j, x, o) && Skip(c, i, Class.Blank) == j
    requires ParseDocument(c, j + |Spell(x)|, o).Ok?
    ensures ParseDocument(c, i, o).Ok? && ParseDocument(c, i, o).next == ParseDocument(c, j + |Spell(x)|, o).next
    ensures SeenAll(ParseDocument(c, i, o).value, c) ==
            Views(x, o) + SeenAll(ParseDocument(c, j + |Spell(x)|, o).value, c)
  {
    hide Skip, CString, Spell, Views, ParseNode, SeenAll;
    SeenJoin(Single(ParseNode(c, j + 1, o).value).children, ParseDocument(c, j + |Spell(x)|, o).value, c);
  }

  lemma NoGapViews(gap: Text, o: Options)
    requires AllBlank(gap)
    ensures GapViews(gap, o) == []
  {
  }

  lemma LastBlank(c: Text, i: nat, last: Text)
    requires CString(c) && At(c, i, last) && i + |last| == |c| - 1 && AllBlank(last)
    ensures Skip(c, i, Class.Blank) == |c| - 1
  {
    Tables();
    SkipExact(c, i, last, Class.Blank);
  }

  lemma BlankThen(c: Text, i: nat, gap: Text, x: Markup, o: Options)
    requires CString(c) && At(c, i, gap) && ReadsAs(c, i + |gap|, x, o) && AllBlank(gap)
    ensures Skip(c, i, Class.Blank) == i + |gap|
  {
    hide ParseNode, Spell, Views;
    Tables();
    SkipExact(c, i, gap, Class.Blank);
  }

  /**
   * Every document of markup is parsed to its end, under every choice of flags, into nodes that show what the document
   * stands for: comments, data, sections, element values and trimming as the flags say.
   */
  lemma DocumentRead(d: Document, o: Options)
    requires FineDocument(d, o) && NulFree(SpellDocument(d))
    ensures var c := SpellDocument(d) + [0];
            && CString(c) && ParseText(c, o).Ok? && ParseText(c, o).next == |c| - 1
            && SeenAll(ParseText(c, o).value, c) == PartViews(d.parts, o)
  {
    hide SpellParts, ParseDocument, SeenAll, PartViews, FineParts, BlankGaps, AllBlank;
    var t := SpellParts(d.parts) + d.last;
    var c := SpellDocument(d) + [0];
    assert c[..|c| - 1] == SpellDocument(d);
    if d.mark {
      assert c[0..3] == [0xEF, 0xBB, 0xBF] == BOM;
      assert c[3..3 + |t|] == t;
      NodesRead(c, 3, d.parts, d.last, o);
    } else {
      assert c[0..|t|] == t;
      NodesRead(c, 0, d.parts, d.last, o);
      NoMarkFirst(c, d, o);
    }
  }

  lemma NoMarkFirst(c: Text, d: Document, o: Options)
    requires FineDocument(d, o) && !d.mark && c == SpellDocument(d) + [0]
    ensures !At(c, 0, BOM)
  {
    FirstOfParts(d.parts, d.last, o);
    FirstRead(c, BOM);
    hide SpellParts;
    assert SpellDocument(d) == SpellParts(d.parts) + d.last;
  }

  lemma FirstOfParts(parts: seq<Part>, last: Text, o: Options)
    requires FineParts(parts, o) && BlankGaps(parts) && AllBlank(last)
    ensures var t := SpellParts(parts) + last; t == [] || t[0] <= 60
  {
    if parts != [] {
      var gap := parts[0].gap;
      assert AllBlank(gap);
      if gap != [] { assert BlankByte(gap[0]); }
      assert Spell(parts[0].markup)[0] == 60;
    }
  }
}
