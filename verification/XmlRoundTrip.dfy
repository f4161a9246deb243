/**
 * The parser against the printer (without indenting): what is printed is parsed back, every name and value
 * exactly where it was printed.
 */
module XmlRoundTrip {
  import opened Bytes
  import opened XmlExpand
  import opened XmlEscape
  import opened XmlTree
  import XmlParse

  /** A document as it is printed; attributes are pairs of name and value. */
  datatype Doc =
    | Elem(name: Text, attributes: seq<(Text, Text)>, children: seq<Doc>)
    | Txt(value: Text) | Section(value: Text) | Remark(value: Text)

  // ----- printing -----

  const SELF_CLOSE: Text := [SLASH, GT]
  const CLOSE_TAG: Text := [LT, SLASH]

  /** print_attributes. */
  function PrintAttributes(attributes: seq<(Text, Text)>): Text {
    if attributes == [] then []
    else PrintAttribute(attributes[0]) + PrintAttributes(attributes[1..])
  }

  function PrintAttribute(a: (Text, Text)): Text {
    [SPACE] + a.0 + [EQUALS] + PrintedValue(a.1)
  }

  /** print_node with print_no_indenting. */
  function Printed(d: Doc): Text
    decreases d, 1
  {
    match d
    case Txt(value) => Escaped(value, NUL)
    case Section(value) => [LT] + CDATA_OPEN + value + CDATA_CLOSE
    case Remark(value) => [LT] + COMMENT_OPEN + value + COMMENT_CLOSE
    case Elem(name, attributes, children) =>
      [LT] + name + PrintAttributes(attributes)
      + (if children == [] then SELF_CLOSE else [GT] + PrintAll(children) + Closing(name))
  }

  function Closing(name: Text): Text { CLOSE_TAG + name + [GT] }

  /** print_children. */
  function PrintAll(ds: seq<Doc>): Text
    decreases ds, 0
  {
    if ds == [] then [] else Printed(ds[0]) + PrintAll(ds[1..])
  }

  // ----- what can be printed and read back -----

  predicate AllIn(t: Text, p: Class) { forall k :: 0 <= k < |t| ==> In(p, t[k]) }

  /** A section or comment does not contain its own closing, not even together with the one behind it. */
  predicate Closable(t: Text, word: Text) {
    NulFree(t) && forall k :: 0 <= k < |t| ==> !At(t + word, k, word)
  }

  predicate AttributeFine(a: (Text, Text)) {
    a.0 != [] && AllIn(a.0, AttrName) && NulFree(a.1)
  }

  /** Element names start with no '!'; data is not all whitespace, which the parser drops. */
  predicate Fine(d: Doc)
    decreases d, 1
  {
    match d
    case Txt(value) => NulFree(value) && exists k :: 0 <= k < |value| && !IsWhitespace(value[k])
    case Section(value) => Closable(value, CDATA_CLOSE)
    case Remark(value) => Closable(value, COMMENT_CLOSE)
    case Elem(name, attributes, children) =>
      && name != [] && name[0] != BANG && AllIn(name, NodeName)
      && (forall k :: 0 <= k < |attributes| ==> AttributeFine(attributes[k]))
      && AllFine(children)
  }

  /** No two pieces of data stand next to each other: they would be read as one. */
  predicate AllFine(ds: seq<Doc>)
    decreases ds, 0
  {
    ds == [] || (Fine(ds[0]) && AllFine(ds[1..]) && (ds[0].Txt? && |ds| > 1 ==> !ds[1].Txt?))
  }

  // ----- where everything is read -----

  function PlacedAttributes(attributes: seq<(Text, Text)>, i: nat): seq<Attr> {
    if attributes == [] then []
    else [PlacedAttribute(attributes[0], i)] + PlacedAttributes(attributes[1..], i + |PrintAttribute(attributes[0])|)
  }

  function PlacedAttribute(a: (Text, Text), i: nat): Attr {
    Attr(Span(i + 1, |a.0|), Span(i + 1 + |a.0| + 2, |PrintedValue(a.1)| - 2))
  }

  /** The node printed at `i`. */
  function Placed(d: Doc, i: nat, o: Options): Node
    decreases d, 1
  {
    match d
    case Txt(value) => Node.Data(Span(i, |Printed(d)|))
    case Section(value) => Cdata(Span(i + 9, |value|))
    case Remark(value) => Comment(Span(i + 4, |value|))
    case Elem(name, attributes, children) =>
      var p := i + 1 + |name|;
      Element(Span(i + 1, |name|), PlacedAttributes(attributes, p),
              PlacedContent(children, p + |PrintAttributes(attributes)| + 1, o))
  }

  function PlacedContent(ds: seq<Doc>, i: nat, o: Options): Content
    decreases ds, 0
  {
    if ds == [] then Content([], None)
    else
      var rest := PlacedContent(ds[1..], i + |Printed(ds[0])|, o);
      Content([Placed(ds[0], i, o)] + rest.children,
              if ds[0].Txt? && !o.noElementValues then Some(Span(i, |Printed(ds[0])|)) else rest.value)
  }

  /** Every node is made, and nothing is trimmed. */
  predicate Plain(o: Options) { !o.noDataNodes && o.commentNodes && !o.trim }

  // ----- skipping over printed text -----

  lemma {:induction false} SkipExact(c: Text, i: nat, t: Text, p: Class)
    requires CString(c) && At(c, i, t) && i + |t| < |c| && AllIn(t, p) && !In(p, c[i + |t|])
    ensures Skip(c, i, p) == i + |t|
    decreases |t|
  {
    if t != [] {
      AtHead(c, i, t);
      SkipExact(c, i + 1, t[1..], p);
    }
  }

  lemma StaysPut(c: Text, i: nat, p: Class)
    requires CString(c) && i < |c| && !In(p, c[i])
    ensures Skip(c, i, p) == i
  {
  }

  lemma AllInConcat(a: Text, b: Text, p: Class)
    requires AllIn(a, p) && AllIn(b, p)
    ensures AllIn(a + b, p)
  {
  }

  /** The printed value holds nothing that could end it. */
  lemma {:induction false} EscapedStays(v: Text, noexpand: byte, r: Region)
    requires NulFree(v) && (r.Data? ==> noexpand == NUL)
    requires r.Quoted? ==> (r.quote == APOS || r.quote == QUOTE) && noexpand == OtherQuote(r.quote)
    ensures AllIn(Escaped(v, noexpand), InRegion(r))
  {
    if v != [] {
      EscapedStays(v[1..], noexpand, r);
      assert AllIn(EscapedByte(v[0], noexpand), InRegion(r));
      AllInConcat(EscapedByte(v[0], noexpand), Escaped(v[1..], noexpand), InRegion(r));
    }
  }

  /** One printed attribute and the blank or tag end behind it. */
  lemma AttributePrinted(c: Text, i: nat, a: (Text, Text))
    requires CString(c) && At(c, i, PrintAttribute(a)) && AttributeFine(a) && i + |PrintAttribute(a)| < |c|
    ensures In(AttrName, c[i + 1])
    ensures Attribute(c, i + 1) == Ok(PlacedAttribute(a, i), Skip(c, i + |PrintAttribute(a)|, Blank))
  {
    hide At, Skip, PrintedValue, AllIn, In, Attribute, PrintAttribute, Escaped, QuoteFor, OtherQuote, NulFree, CString;
    var q := QuoteFor(a.1);
    var value := Escaped(a.1, OtherQuote(q));
    AttributeParts(c, i, a);
    var open := i + 1 + |a.0| + 1;
    AttributeScan(c, i, a, open, value, q);
  }

  /** The parts of a printed attribute, one behind the other. */
  lemma AttributeParts(c: Text, i: nat, a: (Text, Text))
    requires At(c, i, PrintAttribute(a)) && i + |PrintAttribute(a)| < |c|
    ensures var q, value := QuoteFor(a.1), Escaped(a.1, OtherQuote(QuoteFor(a.1)));
            var open := i + 1 + |a.0| + 1;
            && |PrintAttribute(a)| == 2 + |a.0| + |PrintedValue(a.1)| && |PrintedValue(a.1)| == 2 + |value|
            && At(c, i + 1, a.0) && c[open - 1] == EQUALS && c[open] == q
            && At(c, open + 1, value) && c[open + 1 + |value|] == q
  {
    hide At, Escaped;
    var q, value := QuoteFor(a.1), Escaped(a.1, OtherQuote(QuoteFor(a.1)));
    AtConcat(c, i, [SPACE] + a.0 + [EQUALS], PrintedValue(a.1));
    AtConcat(c, i, [SPACE] + a.0, [EQUALS]);
    AtConcat(c, i, [SPACE], a.0);
    AtIndex(c, i + 1 + |a.0|, [EQUALS], 0);
    var open := i + 1 + |a.0| + 1;
    AtConcat(c, open, [q] + value, [q]);
    AtConcat(c, open, [q], value);
    AtIndex(c, open, [q], 0);
    AtIndex(c, open + 1 + |value|, [q], 0);
  }

  lemma AttributeScan(c: Text, i: nat, a: (Text, Text), open: nat, value: Text, q: byte)
    requires CString(c) && a.0 != [] && AllIn(a.0, AttrName) && NulFree(a.1) && open == i + 1 + |a.0| + 1
    requires q == QuoteFor(a.1) && value == Escaped(a.1, OtherQuote(q)) && open + 1 + |value| + 1 < |c|
    requires At(c, i + 1, a.0) && c[open - 1] == EQUALS && c[open] == q
    requires At(c, open + 1, value) && c[open + 1 + |value|] == q
    ensures In(AttrName, c[i + 1])
    ensures Attribute(c, i + 1) ==
            Ok(Attr(Span(i + 1, |a.0|), Span(open + 1, |value|)), Skip(c, open + 1 + |value| + 1, Blank))
  {
    hide Skip, At, Escaped;
    AtHead(c, i + 1, a.0);
    SkipExact(c, i + 2, a.0[1..], AttrName);
    StaysPut(c, open - 1, Blank);
    StaysPut(c, open, Blank);
    EscapedStays(a.1, OtherQuote(q), Quoted(q));
    SkipExact(c, open + 1, value, InRegion(Quoted(q)));
  }

  /** All printed attributes, with the end of the tag behind them. */
  lemma {:induction false} AttributesPrinted(c: Text, i: nat, attributes: seq<(Text, Text)>)
    requires CString(c) && At(c, i, PrintAttributes(attributes)) && i + |PrintAttributes(attributes)| < |c|
    requires forall k :: 0 <= k < |attributes| ==> AttributeFine(attributes[k])
    requires c[i + |PrintAttributes(attributes)|] == SLASH || c[i + |PrintAttributes(attributes)|] == GT
    ensures Attributes(c, Skip(c, i, Blank)) == Ok(PlacedAttributes(attributes, i), i + |PrintAttributes(attributes)|)
    decreases |attributes|
  {
    hide At, Skip, Attribute, PrintAttribute, AttributeFine, PlacedAttribute;
    if attributes == [] {
      StaysPut(c, i, Blank);
    } else {
      var a, rest := attributes[0], attributes[1..];
      var next := i + |PrintAttribute(a)|;
      AtConcat(c, i, PrintAttribute(a), PrintAttributes(rest));
      AttributePrinted(c, i, a);
      BlankThenName(c, i, a);
      AttributesPrinted(c, next, rest);
    }
  }

  lemma BlankThenName(c: Text, i: nat, a: (Text, Text))
    requires CString(c) && At(c, i, PrintAttribute(a)) && AttributeFine(a) && i + |PrintAttribute(a)| < |c|
    ensures Skip(c, i, Blank) == i + 1
  {
    AtConcat(c, i, [SPACE], a.0 + [EQUALS] + PrintedValue(a.1)) by {
      assert PrintAttribute(a) == [SPACE] + (a.0 + [EQUALS] + PrintedValue(a.1));
    }
    AtIndex(c, i, [SPACE], 0);
    AttributePrinted(c, i, a);
    StaysPut(c, i + 1, Blank);
  }

  // ----- sections and comments -----

  lemma {:induction false} FindExact(c: Text, i: nat, t: Text, word: Text, k: nat)
    requires CString(c) && At(c, i, t + word) && i + |t + word| < |c| && k <= |t| && word != [] && Closable(t, word)
    ensures Find(c, i + k, word) == i + |t|
    decreases |t| - k
  {
    hide At;
    AtConcat(c, i, t, word);
    AtText(c, i + |t|, word);
    if k < |t| {
      AtIndex(c, i, t, k);
      SameReads(c, i, t + word, k, word);
      FindExact(c, i, t, word, k + 1);
    }
  }

  lemma SameReads(c: Text, i: nat, t: Text, k: nat, word: Text)
    requires At(c, i, t) && k <= |t|
    ensures k + |word| <= |t| ==> (At(c, i + k, word) <==> At(t, k, word))
  {
    if k + |word| <= |t| {
      AtText(c, i, t);
      var a, b := c[i + k..i + k + |word|], t[k..k + |word|];
      assert forall m :: 0 <= m < |word| ==> a[m] == c[i..i + |t|][k + m] == b[m];
      assert a == b;
    }
  }

  lemma ClosedPrinted(c: Text, i: nat, t: Text, word: Text)
    requires CString(c) && At(c, i, t + word) && i + |t + word| < |c|
    requires word in {COMMENT_CLOSE, CDATA_CLOSE} && Closable(t, word)
    ensures Closed(c, i, word) == Ok(Span(i, |t|), i + |t| + |word|)
  {
    hide At, Find, Closable;
    FindExact(c, i, t, word, 0);
    AtConcat(c, i, t, word);
    AtIndex(c, i + |t|, word, 0);
  }

  lemma SectionPrinted(c: Text, i: nat, value: Text, o: Options)
    requires CString(c) && At(c, i, Printed(Section(value))) && i + |Printed(Section(value))| < |c|
    requires Closable(value, CDATA_CLOSE) && Plain(o)
    ensures c[i] == LT && c[i + 1] == BANG
    ensures ParseNode(c, i + 1, o) == Ok(Some(Placed(Section(value), i, o)), i + |Printed(Section(value))|)
  {
    hide At, Closable, Closed;
    assert Printed(Section(value)) == [LT] + (CDATA_OPEN + (value + CDATA_CLOSE));
    AtConcat(c, i, [LT], CDATA_OPEN + (value + CDATA_CLOSE));
    AtIndex(c, i, [LT], 0);
    AtConcat(c, i + 1, CDATA_OPEN, value + CDATA_CLOSE);
    AtIndex(c, i + 1, CDATA_OPEN, 0);
    AtIndex(c, i + 1, CDATA_OPEN, 1);
    Second(c, i + 1, COMMENT_OPEN);
    ClosedPrinted(c, i + 9, value, CDATA_CLOSE);
  }

  lemma RemarkPrinted(c: Text, i: nat, value: Text, o: Options)
    requires CString(c) && At(c, i, Printed(Remark(value))) && i + |Printed(Remark(value))| < |c|
    requires Closable(value, COMMENT_CLOSE) && Plain(o)
    ensures c[i] == LT && c[i + 1] == BANG
    ensures ParseNode(c, i + 1, o) == Ok(Some(Placed(Remark(value), i, o)), i + |Printed(Remark(value))|)
  {
    hide At, Closable, Closed;
    assert Printed(Remark(value)) == [LT] + (COMMENT_OPEN + (value + COMMENT_CLOSE));
    AtConcat(c, i, [LT], COMMENT_OPEN + (value + COMMENT_CLOSE));
    AtIndex(c, i, [LT], 0);
    AtConcat(c, i + 1, COMMENT_OPEN, value + COMMENT_CLOSE);
    AtIndex(c, i + 1, COMMENT_OPEN, 0);
    ClosedPrinted(c, i + 4, value, COMMENT_CLOSE);
  }

  // ----- elements -----

  /** What stands behind the attributes. */
  function TagEnd(name: Text, children: seq<Doc>): Text {
    if children == [] then SELF_CLOSE else [GT] + PrintAll(children) + Closing(name)
  }

  /** The name of the element whose contents are read stands where `name` says. */
  predicate Named(c: Text, name: Span, text: Text) {
    name.size == |text| && At(c, name.at, text)
  }

  /** One node that is no data. */
  lemma {:induction false} NodePrinted(c: Text, i: nat, d: Doc, o: Options)
    requires CString(c) && At(c, i, Printed(d)) && i + |Printed(d)| < |c| && Fine(d) && !d.Txt? && Plain(o)
    ensures i + 1 < |c| && c[i] == LT && c[i + 1] != SLASH
    ensures ParseNode(c, i + 1, o) == Ok(Some(Placed(d, i, o)), i + |Printed(d)|)
    decreases d, 2
  {
    match d
    case Section(value) => SectionPrinted(c, i, value, o);
    case Remark(value) => RemarkPrinted(c, i, value, o);
    case Elem(name, attributes, children) => ElementPrinted(c, i, name, attributes, children, o);
  }

  lemma ElementParts(c: Text, i: nat, name: Text, attributes: seq<(Text, Text)>, children: seq<Doc>)
    requires At(c, i, Printed(Elem(name, attributes, children)))
    requires i + |Printed(Elem(name, attributes, children))| < |c|
    ensures var p := i + 1 + |name|;
            var q := p + |PrintAttributes(attributes)|;
            && |Printed(Elem(name, attributes, children))| == q - i + |TagEnd(name, children)| && q < |c|
            && c[i] == LT && At(c, i + 1, name) && At(c, p, PrintAttributes(attributes))
            && At(c, q, TagEnd(name, children))
            && c[p] == (if attributes == [] then TagEnd(name, children)[0] else SPACE)
            && c[q] == TagEnd(name, children)[0]
  {
    hide At, PrintAll, PrintAttributes, TagEnd;
    var p := i + 1 + |name|;
    var attrs, end := PrintAttributes(attributes), TagEnd(name, children);
    PrintedElement(name, attributes, children);
    AtConcat(c, i, [LT] + name + attrs, end);
    AtConcat(c, i, [LT] + name, attrs);
    AtConcat(c, i, [LT], name);
    AtIndex(c, i, [LT], 0);
    AtIndex(c, p + |attrs|, end, 0);
    AttributesFirst(attributes);
    if attributes != [] { AtIndex(c, p, attrs, 0); }
  }

  lemma PrintedElement(name: Text, attributes: seq<(Text, Text)>, children: seq<Doc>)
    ensures Printed(Elem(name, attributes, children)) ==
            [LT] + name + PrintAttributes(attributes) + TagEnd(name, children)
    ensures TagEnd(name, children) != []
  {
    hide PrintAll, PrintAttributes;
  }

  lemma AttributesFirst(attributes: seq<(Text, Text)>)
    ensures if attributes == [] then PrintAttributes(attributes) == []
            else PrintAttributes(attributes) != [] && PrintAttributes(attributes)[0] == SPACE
  {
  }

  lemma FineElement(name: Text, attributes: seq<(Text, Text)>, children: seq<Doc>)
    requires Fine(Elem(name, attributes, children))
    ensures name != [] && AllIn(name, NodeName) && AllFine(children)
    ensures name[0] != BANG && name[0] != QUESTION && name[0] != SLASH && name[0] != NUL
    ensures forall k :: 0 <= k < |attributes| ==> AttributeFine(attributes[k])
  {
    hide AllFine;
    assert In(NodeName, name[0]);
  }

  lemma TagEndFirst(name: Text, children: seq<Doc>)
    ensures TagEnd(name, children) != []
    ensures TagEnd(name, children)[0] == if children == [] then SLASH else GT
    ensures !In(NodeName, TagEnd(name, children)[0]) && !In(NodeName, SPACE)
  {
    hide PrintAll;
  }

  lemma {:induction false} ElementPrinted(c: Text, i: nat, name: Text, attributes: seq<(Text, Text)>,
                                          children: seq<Doc>, o: Options)
    requires CString(c) && At(c, i, Printed(Elem(name, attributes, children)))
    requires i + |Printed(Elem(name, attributes, children))| < |c|
    requires Fine(Elem(name, attributes, children)) && Plain(o)
    ensures i + 1 < |c| && c[i] == LT && c[i + 1] != SLASH
    ensures ParseNode(c, i + 1, o) ==
            Ok(Some(Placed(Elem(name, attributes, children), i, o)), i + |Printed(Elem(name, attributes, children))|)
    decreases children, 3
  {
    hide At, Skip, Attributes, ParseRest, PrintAttributes, PlacedAttributes, PlacedContent, TagEnd, Printed;
    hide AllFine, Fine, In, AllIn, AttributeFine, CString, ParseNode, ParseElement, Plain;
    var p := i + 1 + |name|;
    var q := p + |PrintAttributes(attributes)|;
    FineElement(name, attributes, children);
    ElementParts(c, i, name, attributes, children);
    TagEndFirst(name, children);
    AtHead(c, i + 1, name);
    SkipExact(c, i + 1, name, NodeName);
    AttributesPrinted(c, p, attributes);
    RestPrinted(c, q, children, Span(i + 1, |name|), name, o);
    NodeIsElement(c, i + 1, o);
    ElementIs(c, i + 1, p, attributes, q, o);
  }

  lemma NodeIsElement(c: Text, i: nat, o: Options)
    requires CString(c) && i < |c| && c[i] != QUESTION && c[i] != BANG
    ensures ParseNode(c, i, o) ==
            match ParseElement(c, i, o)
            case Error(at) => Error(at)
            case Ok(element, next) => Ok(Some(element), next)
  {
    hide ParseElement;
  }

  lemma ElementIs(c: Text, i: nat, p: nat, attributes: seq<(Text, Text)>, q: nat, o: Options)
    requires CString(c) && i < p <= q < |c| && Skip(c, i, NodeName) == p
    requires Attributes(c, Skip(c, p, Blank)) == Ok(PlacedAttributes(attributes, p), q)
    ensures ParseElement(c, i, o) ==
            match ParseRest(c, q, Span(i, p - i), o)
            case Error(at) => Error(at)
            case Ok(content, next) => Ok(Element(Span(i, p - i), PlacedAttributes(attributes, p), content), next)
  {
    hide Skip, Attributes, ParseRest, PlacedAttributes;
  }

  lemma {:induction false} RestPrinted(c: Text, q: nat, children: seq<Doc>, name: Span, text: Text, o: Options)
    requires CString(c) && At(c, q, TagEnd(text, children))
    requires q + |TagEnd(text, children)| < |c| && AllFine(children) && Plain(o)
    requires Named(c, name, text) && name.End() <= q && AllIn(text, NodeName)
    ensures ParseRest(c, q, name, o) == Ok(PlacedContent(children, q + 1, o), q + |TagEnd(text, children)|)
    decreases children, 2
  {
    hide At, ParseContents, ParseRest, AllIn, PrintAll, Closing, AllFine, CString, Named;
    if children == [] {
      SelfClosed(c, q, name, o);
    } else {
      var body := PrintAll(children) + Closing(text);
      assert TagEnd(text, children) == [GT] + body;
      AtConcat(c, q, [GT], body);
      AtIndex(c, q, [GT], 0);
      ContentsPrinted(c, q + 1, children, name, text, o);
      RestIsContents(c, q, name, o);
    }
  }

  lemma SelfClosed(c: Text, q: nat, name: Span, o: Options)
    requires CString(c) && At(c, q, SELF_CLOSE) && q + 2 < |c| && name.End() <= q
    ensures ParseRest(c, q, name, o) == Ok(Content([], None), q + 2)
  {
    hide ParseContents;
    AtIndex(c, q, SELF_CLOSE, 0);
    AtIndex(c, q, SELF_CLOSE, 1);
  }

  lemma RestIsContents(c: Text, q: nat, name: Span, o: Options)
    requires CString(c) && q + 1 < |c| && c[q] == GT && name.End() <= q
    ensures ParseRest(c, q, name, o) == ParseContents(c, q + 1, name, o)
  {
    hide ParseContents;
  }

  // ----- contents -----

  lemma {:induction false} EscapedVisible(v: Text, k: nat)
    requires k < |v| && !IsWhitespace(v[k])
    ensures exists j :: 0 <= j < |Escaped(v, NUL)| && !IsWhitespace(Escaped(v, NUL)[j])
  {
    var first, rest := EscapedByte(v[0], NUL), Escaped(v[1..], NUL);
    if k == 0 {
      assert (first + rest)[0] == first[0];
      assert !IsWhitespace(Escaped(v, NUL)[0]);
    } else {
      EscapedVisible(v[1..], k - 1);
      var j :| 0 <= j < |rest| && !IsWhitespace(rest[j]);
      assert (first + rest)[|first| + j] == rest[j];
      assert !IsWhitespace(Escaped(v, NUL)[|first| + j]);
    }
  }

  /** Printed data: whitespace in front is skipped and taken back, and the data ends at the next '<'. */
  lemma DataPrinted(c: Text, i: nat, value: Text)
    requires CString(c) && At(c, i, Escaped(value, NUL))
    requires i + |Escaped(value, NUL)| < |c| && c[i + |Escaped(value, NUL)|] == LT
    requires Fine(Txt(value))
    ensures var j, t := Skip(c, i, Blank), i + |Escaped(value, NUL)|;
            i < t && c[j] != LT && c[j] != NUL && Skip(c, j, InRegion(Region.Data)) == t
  {
    hide Escaped;
    var text := Escaped(value, NUL);
    var k :| 0 <= k < |value| && !IsWhitespace(value[k]);
    EscapedVisible(value, k);
    var v :| 0 <= v < |text| && !IsWhitespace(text[v]);
    AtIndex(c, i, text, v);
    EscapedStays(value, NUL, Region.Data);
    SkipExact(c, i, text, InRegion(Region.Data));
    var j := Skip(c, i, Blank);
    NotPast(c, i, i + v);
    AtIndex(c, i, text, j - i);
    DataEnd(c, i, j);
  }

  lemma {:induction false} NotPast(c: Text, i: nat, m: nat)
    requires CString(c) && i <= m < |c| && !In(Blank, c[m])
    ensures Skip(c, i, Blank) <= m
  {
    var e := Skip(c, i, Blank);
    assert forall k :: i <= k < e ==> In(Blank, c[k]);
  }

  /** The contents of an element and its closing tag. */
  lemma {:induction false} ContentsPrinted(c: Text, i: nat, ds: seq<Doc>, name: Span, text: Text, o: Options)
    requires CString(c) && At(c, i, PrintAll(ds) + Closing(text)) && i + |PrintAll(ds) + Closing(text)| < |c|
    requires AllFine(ds) && Plain(o) && Named(c, name, text) && name.End() <= i && AllIn(text, NodeName)
    ensures ParseContents(c, i, name, o) == Ok(PlacedContent(ds, i, o), i + |PrintAll(ds)| + |Closing(text)|)
    decreases ds, 1
  {
    hide At, Skip, ParseMarkup, Fine, Escaped, PlacedContent;
    if ds != [] && ds[0].Txt? {
      var t := i + |Printed(ds[0])|;
      var rest := PrintAll(ds[1..]) + Closing(text);
      assert PrintAll(ds) + Closing(text) == Printed(ds[0]) + rest;
      AtConcat(c, i, Printed(ds[0]), rest);
      NotData(ds);
      MarkupPrinted(c, t, ds[1..], name, text, o);
      DataPrinted(c, i, ds[0].value);
      DataFirst(ds, i, o, t + |PrintAll(ds[1..])| + |Closing(text)|);
      DataTurn(c, i, name, o, t);
    } else {
      MarkupPrinted(c, i, ds, name, text, o);
      StaysPut(c, i, Blank);
    }
  }

  lemma NotData(ds: seq<Doc>)
    requires AllFine(ds) && ds != [] && ds[0].Txt?
    ensures AllFine(ds[1..]) && Fine(Txt(ds[0].value)) && (ds[1..] == [] || !ds[1..][0].Txt?)
  {
  }

  lemma DataTurn(c: Text, i: nat, name: Span, o: Options, t: nat)
    requires CString(c) && i < t < |c| && name.End() <= i && !o.trim
    requires var j := Skip(c, i, Blank); c[j] != LT && c[j] != NUL && Skip(c, j, InRegion(Region.Data)) == t
    ensures ParseContents(c, i, name, o) == Join(DataContent(Span(i, t - i), o), ParseMarkup(c, t, name, o))
  {
    hide CString, In, Skip, ParseMarkup, Join, DataContent, DataSpan;
    DataEnd(c, i, Skip(c, i, Blank));
    UntrimmedSpan(c, i, t, o);
  }

  lemma UntrimmedSpan(c: Text, i: nat, t: nat, o: Options)
    requires i < t <= |c| && !o.trim
    ensures DataSpan(c, i, t, o) == Span(i, t - i)
  {
  }

  lemma DataFirst(ds: seq<Doc>, i: nat, o: Options, end: nat)
    requires ds != [] && ds[0].Txt? && Plain(o)
    ensures Join(DataContent(Span(i, |Printed(ds[0])|), o), Ok(PlacedContent(ds[1..], i + |Printed(ds[0])|, o), end)) ==
            Ok(PlacedContent(ds, i, o), end)
  {
  }

  /** The same from the switch on, when no data comes first. */
  lemma {:induction false} MarkupPrinted(c: Text, i: nat, ds: seq<Doc>, name: Span, text: Text, o: Options)
    requires CString(c) && At(c, i, PrintAll(ds) + Closing(text)) && i + |PrintAll(ds) + Closing(text)| < |c|
    requires AllFine(ds) && Plain(o) && Named(c, name, text) && name.End() <= i && AllIn(text, NodeName)
    requires ds == [] || !ds[0].Txt?
    ensures c[i] == LT
    ensures ParseMarkup(c, i, name, o) == Ok(PlacedContent(ds, i, o), i + |PrintAll(ds)| + |Closing(text)|)
    decreases ds, 0
  {
    hide At, Skip, ParseNode, ParseContents, Fine, CloseTag, Printed, Placed;
    if ds == [] {
      assert PrintAll(ds) + Closing(text) == Closing(text);
      ClosingPrinted(c, i, name, text, o);
    } else {
      var next := i + |Printed(ds[0])|;
      var rest := PrintAll(ds[1..]) + Closing(text);
      assert PrintAll(ds) + Closing(text) == Printed(ds[0]) + rest;
      AtConcat(c, i, Printed(ds[0]), rest);
      NodePrinted(c, i, ds[0], o);
      ContentsPrinted(c, next, ds[1..], name, text, o);
    }
  }

  lemma ClosingParts(c: Text, i: nat, text: Text)
    requires At(c, i, Closing(text)) && i + |Closing(text)| < |c|
    ensures |Closing(text)| == |text| + 3 && c[i] == LT && c[i + 1] == SLASH
    ensures At(c, i + 2, text) && c[i + 2 + |text|] == GT
  {
    hide At;
    AtConcat(c, i, CLOSE_TAG + text, [GT]);
    AtConcat(c, i, CLOSE_TAG, text);
    AtIndex(c, i, CLOSE_TAG, 0);
    AtIndex(c, i, CLOSE_TAG, 1);
    AtIndex(c, i + 2 + |text|, [GT], 0);
  }

  lemma ClosingPrinted(c: Text, i: nat, name: Span, text: Text, o: Options)
    requires CString(c) && At(c, i, Closing(text)) && i + |Closing(text)| < |c|
    requires Named(c, name, text) && name.End() <= i && AllIn(text, NodeName)
    ensures c[i] == LT && c[i + 1] == SLASH && CloseTag(c, i + 2, name, o) == Ok((), i + |Closing(text)|)
  {
    hide Skip, At, Closing, AllIn, CString;
    ClosingParts(c, i, text);
    SkipExact(c, i + 2, text, NodeName);
    StaysPut(c, i + 2 + |text|, Blank);
    AtText(c, i + 2, text);
    AtText(c, name.at, text);
  }

  // ----- documents -----

  function PlacedAll(ds: seq<Doc>, i: nat, o: Options): seq<Node> {
    if ds == [] then [] else [Placed(ds[0], i, o)] + PlacedAll(ds[1..], i + |Printed(ds[0])|, o)
  }

  predicate NoData(ds: seq<Doc>) { forall k :: 0 <= k < |ds| ==> !ds[k].Txt? }

  lemma {:induction false} DocumentPrinted(c: Text, i: nat, ds: seq<Doc>, o: Options)
    requires CString(c) && At(c, i, PrintAll(ds)) && i + |PrintAll(ds)| == |c| - 1
    requires AllFine(ds) && NoData(ds) && Plain(o)
    ensures ParseDocument(c, i, o) == Ok(PlacedAll(ds, i, o), |c| - 1)
    decreases |ds|
  {
    hide At, Skip, ParseNode, Fine, Printed, Placed;
    if ds == [] {
      NulIsLast(c, i);
      StaysPut(c, i, Blank);
    } else {
      AtConcat(c, i, Printed(ds[0]), PrintAll(ds[1..]));
      NodePrinted(c, i, ds[0], o);
      DocumentPrinted(c, i + |Printed(ds[0])|, ds[1..], o);
      StaysPut(c, i, Blank);
    }
  }

  // ----- the printed text is a C string -----

  lemma {:induction false} EscapedNulFree(v: Text, noexpand: byte)
    requires NulFree(v)
    ensures NulFree(Escaped(v, noexpand))
  {
    if v != [] {
      EscapedNulFree(v[1..], noexpand);
      assert NulFree(EscapedByte(v[0], noexpand));
    }
  }

  lemma NamesNulFree(t: Text, p: Class)
    requires AllIn(t, p) && (p.NodeName? || p.AttrName?)
    ensures NulFree(t)
  {
    assert forall k :: 0 <= k < |t| ==> In(p, t[k]);
  }

  lemma {:induction false} AttributesNulFree(attributes: seq<(Text, Text)>)
    requires forall k :: 0 <= k < |attributes| ==> AttributeFine(attributes[k])
    ensures NulFree(PrintAttributes(attributes))
  {
    if attributes != [] {
      var a := attributes[0];
      assert AttributeFine(a);
      NamesNulFree(a.0, AttrName);
      EscapedNulFree(a.1, OtherQuote(QuoteFor(a.1)));
      AttributesNulFree(attributes[1..]);
      assert NulFree(PrintAttribute(a)) by { hide Escaped, PrintAttributes; }
      hide PrintAttribute, AttributeFine;
    }
  }

  lemma {:induction false} PrintedNulFree(d: Doc)
    requires Fine(d)
    ensures NulFree(Printed(d))
    decreases d, 1
  {
    hide PrintAll, PrintAttributes, AttributeFine, Escaped;
    match d
    case Txt(value) => EscapedNulFree(value, NUL);
    case Section(value) =>
    case Remark(value) =>
    case Elem(name, attributes, children) =>
      NamesNulFree(name, NodeName);
      AttributesNulFree(attributes);
      AllNulFree(children);
      hide Fine, AllIn, In;
  }

  lemma {:induction false} AllNulFree(ds: seq<Doc>)
    requires AllFine(ds)
    ensures NulFree(PrintAll(ds))
    decreases ds, 0
  {
    hide Printed, Fine;
    if ds != [] {
      PrintedNulFree(ds[0]);
      AllNulFree(ds[1..]);
    }
  }

  // ----- what the nodes show -----

  function SpanText(c: Text, s: Span): Text { if s.End() <= |c| then c[s.at..s.End()] else [] }

  function ShownAttributes(attributes: seq<Attr>, c: Text): seq<(Text, Text)> {
    if attributes == [] then []
    else [(SpanText(c, attributes[0].name), SpanText(c, attributes[0].value))] + ShownAttributes(attributes[1..], c)
  }

  /** The names and values of the nodes, as texts. */
  function Shown(n: Node, c: Text): Doc
    decreases n, 1
  {
    match n
    case Element(name, attributes, content) =>
      Elem(SpanText(c, name), ShownAttributes(attributes, c), ShownAll(content.children, c))
    case Data(text) => Txt(SpanText(c, text))
    case Cdata(text) => Section(SpanText(c, text))
    case Comment(text) => Remark(SpanText(c, text))
  }

  function ShownAll(ns: seq<Node>, c: Text): seq<Doc>
    decreases ns, 0
  {
    if ns == [] then [] else [Shown(ns[0], c)] + ShownAll(ns[1..], c)
  }

  function WrittenAttributes(attributes: seq<(Text, Text)>): seq<(Text, Text)> {
    if attributes == [] then []
    else [(attributes[0].0, Escaped(attributes[0].1, OtherQuote(QuoteFor(attributes[0].1))))]
         + WrittenAttributes(attributes[1..])
  }

  /** The document with its values escaped, which is how they stand in the text. */
  function Written(d: Doc): Doc
    decreases d, 1
  {
    match d
    case Elem(name, attributes, children) => Elem(name, WrittenAttributes(attributes), WrittenAll(children))
    case Txt(value) => Txt(Escaped(value, NUL))
    case _ => d
  }

  function WrittenAll(ds: seq<Doc>): seq<Doc>
    decreases ds, 0
  {
    if ds == [] then [] else [Written(ds[0])] + WrittenAll(ds[1..])
  }

  lemma SpanAt(c: Text, i: nat, t: Text)
    requires At(c, i, t)
    ensures SpanText(c, Span(i, |t|)) == t
  {
  }

  lemma {:induction false} AttributesShown(c: Text, i: nat, attributes: seq<(Text, Text)>)
    requires At(c, i, PrintAttributes(attributes)) && i + |PrintAttributes(attributes)| < |c|
    ensures ShownAttributes(PlacedAttributes(attributes, i), c) == WrittenAttributes(attributes)
    decreases |attributes|
  {
    hide At, PrintAttribute, PlacedAttribute, SpanText, Escaped, PrintedValue, QuoteFor, OtherQuote;
    if attributes != [] {
      var a, rest := attributes[0], attributes[1..];
      AtConcat(c, i, PrintAttribute(a), PrintAttributes(rest));
      AttributesShown(c, i + |PrintAttribute(a)|, rest);
      AttributeShown(c, i, a);
    }
  }

  lemma AttributeShown(c: Text, i: nat, a: (Text, Text))
    requires At(c, i, PrintAttribute(a)) && i + |PrintAttribute(a)| < |c|
    ensures SpanText(c, PlacedAttribute(a, i).name) == a.0
    ensures SpanText(c, PlacedAttribute(a, i).value) == Escaped(a.1, OtherQuote(QuoteFor(a.1)))
  {
    hide At, PrintAttribute, SpanText, Escaped, PrintedValue, QuoteFor, OtherQuote;
    AttributeParts(c, i, a);
    SpanAt(c, i + 1, a.0);
    SpanAt(c, i + 1 + |a.0| + 2, Escaped(a.1, OtherQuote(QuoteFor(a.1))));
  }

  lemma {:induction false} NodeShown(c: Text, i: nat, d: Doc, o: Options)
    requires At(c, i, Printed(d)) && i + |Printed(d)| < |c|
    ensures Shown(Placed(d, i, o), c) == Written(d)
    decreases d, 1
  {
    hide At, PrintAll, PrintAttributes, Escaped, SpanText, PlacedContent;
    hide PlacedAttributes, ShownAll, ShownAttributes, WrittenAll, WrittenAttributes;
    match d
    case Txt(value) => SpanAt(c, i, Printed(d));
    case Section(value) =>
      assert Printed(d) == [LT] + CDATA_OPEN + (value + CDATA_CLOSE);
      AtConcat(c, i, [LT] + CDATA_OPEN, value + CDATA_CLOSE);
      AtConcat(c, i + 9, value, CDATA_CLOSE);
      SpanAt(c, i + 9, value);
    case Remark(value) =>
      assert Printed(d) == [LT] + COMMENT_OPEN + (value + COMMENT_CLOSE);
      AtConcat(c, i, [LT] + COMMENT_OPEN, value + COMMENT_CLOSE);
      AtConcat(c, i + 4, value, COMMENT_CLOSE);
      SpanAt(c, i + 4, value);
    case Elem(name, attributes, children) =>
      ElementShown(c, i, name, attributes, children, o);
  }

  lemma {:induction false} ElementShown(c: Text, i: nat, name: Text, attributes: seq<(Text, Text)>,
                                        children: seq<Doc>, o: Options)
    requires At(c, i, Printed(Elem(name, attributes, children)))
    requires i + |Printed(Elem(name, attributes, children))| < |c|
    ensures Shown(Placed(Elem(name, attributes, children), i, o), c) == Written(Elem(name, attributes, children))
    decreases children, 2
  {
    hide At, Printed, PrintAll, PrintAttributes, SpanText, PlacedContent, PlacedAttributes, ShownAll;
    hide ShownAttributes, WrittenAll, WrittenAttributes, TagEnd, Placed, Shown, Written;
    var p := i + 1 + |name|;
    var q := p + |PrintAttributes(attributes)|;
    ElementParts(c, i, name, attributes, children);
    SpanAt(c, i + 1, name);
    AttributesShown(c, p, attributes);
    if children == [] {
      NothingShown(c, q + 1, o);
    } else {
      TagEndBody(c, q, name, children);
      ContentsShown(c, q + 1, children, o);
    }
    ElementShows(c, i, name, attributes, children, o);
  }

  lemma TagEndBody(c: Text, q: nat, name: Text, children: seq<Doc>)
    requires At(c, q, TagEnd(name, children)) && children != []
    ensures At(c, q + 1, PrintAll(children)) && |TagEnd(name, children)| > 1 + |PrintAll(children)|
  {
    hide At, PrintAll;
    AtConcat(c, q, [GT] + PrintAll(children), Closing(name));
    AtConcat(c, q, [GT], PrintAll(children));
  }

  lemma ElementShows(c: Text, i: nat, name: Text, attributes: seq<(Text, Text)>, children: seq<Doc>, o: Options)
    requires var p := i + 1 + |name|;
             && SpanText(c, Span(i + 1, |name|)) == name
             && ShownAttributes(PlacedAttributes(attributes, p), c) == WrittenAttributes(attributes)
             && ShownAll(PlacedContent(children, p + |PrintAttributes(attributes)| + 1, o).children, c)
                == WrittenAll(children)
    ensures Shown(Placed(Elem(name, attributes, children), i, o), c) == Written(Elem(name, attributes, children))
  {
    hide PrintAttributes, SpanText, PlacedContent, PlacedAttributes;
    hide ShownAll, ShownAttributes, WrittenAll, WrittenAttributes;
  }

  lemma NothingShown(c: Text, i: nat, o: Options)
    ensures ShownAll(PlacedContent([], i, o).children, c) == WrittenAll([])
  {
  }

  lemma {:induction false} ContentsShown(c: Text, i: nat, ds: seq<Doc>, o: Options)
    requires At(c, i, PrintAll(ds)) && i + |PrintAll(ds)| < |c|
    ensures ShownAll(PlacedContent(ds, i, o).children, c) == WrittenAll(ds)
    ensures PlacedContent(ds, i, o).children == PlacedAll(ds, i, o)
    decreases ds, 0
  {
    hide At, Printed, Placed, Shown, Written;
    if ds != [] {
      AtConcat(c, i, Printed(ds[0]), PrintAll(ds[1..]));
      NodeShown(c, i, ds[0], o);
      ContentsShown(c, i + |Printed(ds[0])|, ds[1..], o);
    }
  }

  /**
   * For every document of elements, attributes, data, sections and comments: parsing what was printed succeeds
   * and consumes all of it; the nodes are the printed ones in the same order, with the names and values as
   * written, that is with the values escaped. XmlRecover gets the values themselves back.
   */
  lemma RoundTrip(ds: seq<Doc>, o: Options)
    requires AllFine(ds) && NoData(ds) && Plain(o)
    ensures var c := PrintAll(ds) + [NUL];
            && CString(c) && ParseText(c, o) == Ok(PlacedAll(ds, 0, o), |PrintAll(ds)|)
            && ShownAll(PlacedAll(ds, 0, o), c) == WrittenAll(ds)
  {
    hide ParseDocument, PrintAll, AllFine, PlacedAll, PlacedContent, ShownAll, WrittenAll, At, NoData;
    var c := PrintAll(ds) + [NUL];
    AllNulFree(ds);
    assert c[..|c| - 1] == PrintAll(ds);
    AtStart(PrintAll(ds), [NUL]);
    DocumentPrinted(c, 0, ds, o);
    ContentsShown(c, 0, ds, o);
    NoMark(ds);
    FirstRead(c, BOM);
  }

  lemma FirstRead(c: Text, word: Text)
    requires word != []
    ensures At(c, 0, word) ==> c != [] && c[0] == word[0]
  {
    if At(c, 0, word) { assert c[0..|word|][0] == c[0]; }
  }

  lemma AtStart(t: Text, rest: Text)
    ensures At(t + rest, 0, t)
  {
  }

  lemma NoMark(ds: seq<Doc>)
    requires AllFine(ds) && NoData(ds)
    ensures PrintAll(ds) == [] || PrintAll(ds)[0] == LT
  {
    hide Escaped, PrintAttributes;
    if ds != [] { PrintedStart(ds[0]); }
  }

  lemma PrintedStart(d: Doc)
    requires !d.Txt?
    ensures Printed(d) != [] && Printed(d)[0] == LT
  {
    hide PrintAll, PrintAttributes;
  }

  // ----- in place -----

  lemma SealedSpan(x: Span, s: Text, c: Text, ends: bool)
    requires XmlParse.SpanSealed(x, s, c, ends)
    ensures SpanText(s, x) == SpanText(c, x)
  {
  }

  lemma {:induction false} AttributesSealed(attributes: seq<Attr>, s: Text, c: Text, ends: bool)
    requires forall x :: x in AttrSpans(attributes) ==> XmlParse.SpanSealed(x, s, c, ends)
    ensures ShownAttributes(attributes, s) == ShownAttributes(attributes, c)
  {
    if attributes != [] {
      AttributesSealed(attributes[1..], s, c, ends);
      SealedSpan(attributes[0].name, s, c, ends);
      SealedSpan(attributes[0].value, s, c, ends);
    }
  }

  /** Sealed nodes show in the parsed buffer what they show in the original text. */
  lemma {:induction false} NodeSealed(n: Node, s: Text, c: Text, ends: bool)
    requires forall x :: x in Spans(n) ==> XmlParse.SpanSealed(x, s, c, ends)
    ensures Shown(n, s) == Shown(n, c)
    decreases n, 1
  {
    hide XmlParse.SpanSealed, SpanText;
    match n
    case Element(name, attributes, content) =>
      assert AllSpans(content.children) <= ContentSpans(content) <= Spans(n);
      AttributesSealed(attributes, s, c, ends);
      NodesSealed(content.children, s, c, ends);
      SealedSpan(name, s, c, ends);
    case Data(text) => SealedSpan(text, s, c, ends);
    case Cdata(text) => SealedSpan(text, s, c, ends);
    case Comment(text) => SealedSpan(text, s, c, ends);
  }

  lemma {:induction false} NodesSealed(ns: seq<Node>, s: Text, c: Text, ends: bool)
    requires forall x :: x in AllSpans(ns) ==> XmlParse.SpanSealed(x, s, c, ends)
    ensures ShownAll(ns, s) == ShownAll(ns, c)
    decreases ns, 0
  {
    hide XmlParse.SpanSealed;
    if ns != [] {
      NodeSealed(ns[0], s, c, ends);
      NodesSealed(ns[1..], s, c, ends);
    }
  }
}
