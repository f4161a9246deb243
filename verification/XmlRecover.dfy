/**
 * The printed document itself, recovered: once by expanding each value where it stands, as the parser does when
 * it translates references, and once from what the in-place parser leaves in its buffer.
 */
module XmlRecover {
  import opened Bytes
  import opened XmlExpand
  import opened XmlEscape
  import opened XmlTree
  import opened XmlRoundTrip
  import XmlParse

  /** References are translated, and whitespace is left alone. */
  predicate Translates(f: Flags) { !f.noEntities && !f.normalize }

  // ----- values expanded where they stand -----

  function ValueAt(c: Text, s: Span, r: Region, f: Flags): Text
    requires Terminated(c)
  {
    if s.at >= |c| then []
    else
      match Expand(c, s.at, s.at, r, f)
      case Expanded(text, _) => text
      case Failed(_) => []
  }

  /** The quote in front of an attribute value. */
  function QuoteBefore(c: Text, s: Span): byte {
    if 0 < s.at <= |c| then c[s.at - 1] else NUL
  }

  function ReadAttributes(attributes: seq<Attr>, c: Text, f: Flags): seq<(Text, Text)>
    requires Terminated(c)
  {
    if attributes == [] then []
    else
      var x := attributes[0];
      [(SpanText(c, x.name), ValueAt(c, x.value, Quoted(QuoteBefore(c, x.value)), f))]
      + ReadAttributes(attributes[1..], c, f)
  }

  /** A node with every data and attribute span replaced by its expansion. */
  function Read(n: Node, c: Text, f: Flags): Doc
    requires Terminated(c)
    decreases n, 1
  {
    match n
    case Element(name, attributes, content) =>
      Elem(SpanText(c, name), ReadAttributes(attributes, c, f), ReadAll(content.children, c, f))
    case Data(text) => Txt(ValueAt(c, text, Region.Data, f))
    case Cdata(text) => Section(SpanText(c, text))
    case Comment(text) => Remark(SpanText(c, text))
  }

  function ReadAll(ns: seq<Node>, c: Text, f: Flags): seq<Doc>
    requires Terminated(c)
    decreases ns, 0
  {
    if ns == [] then [] else [Read(ns[0], c, f)] + ReadAll(ns[1..], c, f)
  }

  lemma AttributeRead(c: Text, i: nat, a: (Text, Text), f: Flags)
    requires Terminated(c) && At(c, i, PrintAttribute(a))
    requires i + |PrintAttribute(a)| < |c| && AttributeFine(a) && Translates(f)
    ensures var x := PlacedAttribute(a, i);
            SpanText(c, x.name) == a.0 && ValueAt(c, x.value, Quoted(QuoteBefore(c, x.value)), f) == a.1
  {
    hide At, Expand, Escaped, PrintAttribute, PrintedValue, AllIn;
    AttributeParts(c, i, a);
    var q := QuoteFor(a.1);
    var open := i + 1 + |a.0| + 1;
    EscapedExpands(c, open + 1, open + 1, a.1, OtherQuote(q), Quoted(q), f);
    AttributeShown(c, i, a);
  }

  lemma {:induction false} AttributesRead(c: Text, i: nat, attributes: seq<(Text, Text)>, f: Flags)
    requires Terminated(c) && At(c, i, PrintAttributes(attributes)) && i + |PrintAttributes(attributes)| < |c|
    requires (forall k :: 0 <= k < |attributes| ==> AttributeFine(attributes[k])) && Translates(f)
    ensures ReadAttributes(PlacedAttributes(attributes, i), c, f) == attributes
    decreases |attributes|
  {
    hide At, PrintAttribute, PlacedAttribute, SpanText, ValueAt, AttributeFine, QuoteBefore, Terminated;
    if attributes != [] {
      var a, rest := attributes[0], attributes[1..];
      AtConcat(c, i, PrintAttribute(a), PrintAttributes(rest));
      AttributeRead(c, i, a, f);
      AttributesRead(c, i + |PrintAttribute(a)|, rest, f);
      assert attributes == [a] + rest && a == (a.0, a.1);
    }
  }

  lemma DataRead(c: Text, i: nat, value: Text, o: Options, f: Flags)
    requires Terminated(c) && At(c, i, Escaped(value, NUL)) && i + |Escaped(value, NUL)| < |c| && NulFree(value)
    requires !Inside(Region.Data, c[i + |Escaped(value, NUL)|]) && Translates(f)
    ensures Read(Placed(Txt(value), i, o), c, f) == Txt(value)
  {
    hide At, Expand, Escaped;
    EscapedExpands(c, i, i, value, NUL, Region.Data, f);
  }

  lemma {:induction false} NodeRead(c: Text, i: nat, d: Doc, o: Options, f: Flags)
    requires Terminated(c) && At(c, i, Printed(d)) && i + |Printed(d)| < |c| && Fine(d) && Translates(f)
    requires d.Txt? ==> !Inside(Region.Data, c[i + |Printed(d)|])
    ensures Read(Placed(d, i, o), c, f) == d
    decreases d, 1
  {
    match d
    case Txt(value) => DataRead(c, i, value, o, f);
    case Section(_) => NodeShown(c, i, d, o);
    case Remark(_) => NodeShown(c, i, d, o);
    case Elem(name, attributes, children) => ElementRead(c, i, name, attributes, children, o, f);
  }

  lemma {:induction false} ElementRead(c: Text, i: nat, name: Text, attributes: seq<(Text, Text)>, children: seq<Doc>,
                                       o: Options, f: Flags)
    requires Terminated(c) && At(c, i, Printed(Elem(name, attributes, children)))
    requires i + |Printed(Elem(name, attributes, children))| < |c|
    requires Fine(Elem(name, attributes, children)) && Translates(f)
    ensures Read(Placed(Elem(name, attributes, children), i, o), c, f) == Elem(name, attributes, children)
    decreases children, 2
  {
    hide At, Printed, PrintAll, PrintAttributes, SpanText, PlacedContent, PlacedAttributes, ReadAll;
    hide ReadAttributes, TagEnd, Placed, Read, Fine, Terminated, AllFine, AttributeFine;
    var p := i + 1 + |name|;
    var q := p + |PrintAttributes(attributes)|;
    FineElement(name, attributes, children);
    ElementParts(c, i, name, attributes, children);
    SpanAt(c, i + 1, name);
    AttributesRead(c, p, attributes, f);
    if children == [] {
      NothingRead(c, q + 1, o, f);
    } else {
      TagEndCloses(c, q, name, children);
      TagEndBody(c, q, name, children);
      ContentsRead(c, q + 1, children, o, f);
    }
    ElementReads(c, i, name, attributes, children, o, f);
  }

  lemma TagEndCloses(c: Text, q: nat, name: Text, children: seq<Doc>)
    requires At(c, q, TagEnd(name, children)) && children != []
    ensures q + 1 + |PrintAll(children)| < |c| && c[q + 1 + |PrintAll(children)|] == LT
  {
    hide At, PrintAll;
    AtConcat(c, q, [GT] + PrintAll(children), Closing(name));
    AtIndex(c, q + 1 + |PrintAll(children)|, Closing(name), 0);
  }

  lemma ElementReads(c: Text, i: nat, name: Text, attributes: seq<(Text, Text)>, children: seq<Doc>, o: Options,
                     f: Flags)
    requires Terminated(c) && SpanText(c, Span(i + 1, |name|)) == name
    requires var p := i + 1 + |name|;
             && ReadAttributes(PlacedAttributes(attributes, p), c, f) == attributes
             && ReadAll(PlacedContent(children, p + |PrintAttributes(attributes)| + 1, o).children, c, f) == children
    ensures Read(Placed(Elem(name, attributes, children), i, o), c, f) == Elem(name, attributes, children)
  {
    hide PrintAttributes, SpanText, PlacedContent, PlacedAttributes, ReadAll, ReadAttributes;
  }

  lemma NothingRead(c: Text, i: nat, o: Options, f: Flags)
    requires Terminated(c)
    ensures ReadAll(PlacedContent([], i, o).children, c, f) == []
  {
  }

  lemma {:induction false} ContentsRead(c: Text, i: nat, ds: seq<Doc>, o: Options, f: Flags)
    requires Terminated(c) && At(c, i, PrintAll(ds)) && i + |PrintAll(ds)| < |c| && AllFine(ds) && Translates(f)
    requires !Inside(Region.Data, c[i + |PrintAll(ds)|])
    ensures ReadAll(PlacedContent(ds, i, o).children, c, f) == ds
    decreases ds, 0
  {
    hide At, Printed, Placed, Read, Fine, Terminated, Inside;
    if ds != [] {
      var next, rest := i + |Printed(ds[0])|, ds[1..];
      AtConcat(c, i, Printed(ds[0]), PrintAll(rest));
      if ds[0].Txt? && rest != [] {
        PrintedStart(rest[0]);
        AtIndex(c, next, PrintAll(rest), 0);
        TagsEndData();
      }
      NodeRead(c, i, ds[0], o, f);
      ContentsRead(c, next, rest, o, f);
      assert ds == [ds[0]] + rest;
    }
  }

  lemma TagsEndData()
    ensures !Inside(Region.Data, LT) && !Inside(Region.Data, NUL)
  {
  }

  /**
   * The round trip closed: parsing the printed document and expanding each value where it stands gives the
   * document back, whatever characters its values hold.
   */
  lemma Recovered(ds: seq<Doc>, o: Options, f: Flags)
    requires AllFine(ds) && NoData(ds) && Plain(o) && Translates(f)
    ensures var c := PrintAll(ds) + [NUL];
            && CString(c) && Terminated(c) && ParseText(c, o) == Ok(PlacedAll(ds, 0, o), |PrintAll(ds)|)
            && ReadAll(PlacedAll(ds, 0, o), c, f) == ds
  {
    hide ParseText, PrintAll, AllFine, PlacedAll, PlacedContent, ShownAll;
    hide WrittenAll, At, NoData, ReadAll, CString, Inside;
    var c := PrintAll(ds) + [NUL];
    RoundTrip(ds, o);
    AtStart(PrintAll(ds), [NUL]);
    TagsEndData();
    ContentsShown(c, 0, ds, o);
    ContentsRead(c, 0, ds, o, f);
  }

  // ----- from the buffer of the in-place parser -----

  /** A value as the text of a C string of its own, expanded. */
  function Unescaped(t: Text, f: Flags): Text {
    match Expand(t + [NUL], 0, 0, Region.Data, f)
    case Expanded(text, _) => text
    case Failed(_) => []
  }

  function UnescapedAttributes(attributes: seq<(Text, Text)>, f: Flags): seq<(Text, Text)> {
    if attributes == [] then []
    else [(attributes[0].0, Unescaped(attributes[0].1, f))] + UnescapedAttributes(attributes[1..], f)
  }

  function UnescapedDoc(d: Doc, f: Flags): Doc
    decreases d, 1
  {
    match d
    case Elem(name, attributes, children) => Elem(name, UnescapedAttributes(attributes, f), UnescapedAll(children, f))
    case Txt(value) => Txt(Unescaped(value, f))
    case _ => d
  }

  function UnescapedAll(ds: seq<Doc>, f: Flags): seq<Doc>
    decreases ds, 0
  {
    if ds == [] then [] else [UnescapedDoc(ds[0], f)] + UnescapedAll(ds[1..], f)
  }

  lemma ValueUnescaped(v: Text, noexpand: byte, f: Flags)
    requires NulFree(v) && (noexpand == NUL || noexpand == APOS || noexpand == QUOTE) && Translates(f)
    ensures Unescaped(Escaped(v, noexpand), f) == v
  {
    hide At, Expand, Escaped;
    var t := Escaped(v, noexpand);
    AtStart(t, [NUL]);
    EscapedExpands(t + [NUL], 0, 0, v, noexpand, Region.Data, f);
  }

  lemma {:induction false} AttributesUnescaped(attributes: seq<(Text, Text)>, f: Flags)
    requires (forall k :: 0 <= k < |attributes| ==> AttributeFine(attributes[k])) && Translates(f)
    ensures UnescapedAttributes(WrittenAttributes(attributes), f) == attributes
  {
    hide Unescaped, Escaped, QuoteFor;
    if attributes != [] {
      var a := attributes[0];
      assert AttributeFine(a);
      ValueUnescaped(a.1, OtherQuote(QuoteFor(a.1)), f);
      AttributesUnescaped(attributes[1..], f);
      assert attributes == [(a.0, a.1)] + attributes[1..];
    }
  }

  lemma {:induction false} DocUnescaped(d: Doc, f: Flags)
    requires Fine(d) && Translates(f)
    ensures UnescapedDoc(Written(d), f) == d
    decreases d, 1
  {
    hide Unescaped, Escaped, AttributeFine, UnescapedAttributes, WrittenAttributes, UnescapedAll, WrittenAll;
    match d
    case Txt(value) => ValueUnescaped(value, NUL, f);
    case Elem(name, attributes, children) =>
      AttributesUnescaped(attributes, f);
      AllUnescaped(children, f);
    case _ =>
  }

  lemma {:induction false} AllUnescaped(ds: seq<Doc>, f: Flags)
    requires AllFine(ds) && Translates(f)
    ensures UnescapedAll(WrittenAll(ds), f) == ds
    decreases ds, 0
  {
    hide UnescapedDoc, Written, Fine;
    if ds != [] {
      DocUnescaped(ds[0], f);
      AllUnescaped(ds[1..], f);
      assert ds == [ds[0]] + ds[1..];
    }
  }

  /**
   * The round trip through the parser that writes over what it reads: the buffer then shows the written
   * document, and expanding its values gives the document that was printed.
   */
  method ReadBack(a: array<byte>, o: Options, ends: bool, ghost ds: seq<Doc>, ghost f: Flags)
    returns (r: Result<seq<Node>>)
    requires AllFine(ds) && NoData(ds) && Plain(o) && a[..] == PrintAll(ds) + [NUL] && Translates(f)
    modifies a
    ensures r == Ok(PlacedAll(ds, 0, o), |PrintAll(ds)|) && ShownAll(r.value, a[..]) == WrittenAll(ds)
    ensures UnescapedAll(ShownAll(r.value, a[..]), f) == ds
  {
    hide AllFine, NoData, PrintAll, PlacedAll, ShownAll;
    hide WrittenAll, UnescapedAll, ParseText, CString, XmlParse.SpanSealed;
    RoundTrip(ds, o);
    r := XmlParse.Parse(a, o, ends);
    NodesSealed(r.value, a[..], PrintAll(ds) + [NUL], ends);
    AllUnescaped(ds, f);
  }
}
