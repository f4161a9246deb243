/**
 * What the flags of `parse` do, seen on documents the printer wrote; and any document at all, through the parser that
 * works in place.
 */
module XmlFlags {
  import opened Bytes
  import opened XmlExpand
  import opened XmlEscape
  import opened XmlTree
  import opened XmlRoundTrip
  import opened XmlSyntax
  import opened XmlReads
  import XmlParse

  // ----- the flags on documents -----

  /** What is left of a document under the flags: nodes that are not made are gone, and data is trimmed. */
  function Filtered(d: Doc, o: Options): seq<Doc>
    decreases d, 1
  {
    match d
    case Elem(name, attributes, children) => [Elem(name, attributes, FilteredAll(children, o))]
    case Txt(value) => if o.noDataNodes then [] else [Txt(if o.trim then Stripped(value) else value)]
    case Section(value) => if o.noDataNodes then [] else [d]
    case Remark(value) => if o.commentNodes then [d] else []
  }

  function FilteredAll(ds: seq<Doc>, o: Options): seq<Doc>
    decreases ds, 0
  {
    if ds == [] then [] else Filtered(ds[0], o) + FilteredAll(ds[1..], o)
  }

  /** A view without the elements' own values. */
  function Bare(v: View): Doc
    decreases v, 1
  {
    match v
    case VElement(name, attributes, _, children) => Elem(name, attributes, BareAll(children))
    case VData(t) => Txt(t)
    case VSection(t) => Section(t)
    case VComment(t) => Remark(t)
  }

  function BareAll(vs: seq<View>): seq<Doc>
    decreases vs, 0
  {
    if vs == [] then [] else [Bare(vs[0])] + BareAll(vs[1..])
  }

  lemma {:induction false} BareJoin(a: seq<View>, b: seq<View>)
    ensures BareAll(a + b) == BareAll(a) + BareAll(b)
  {
    if a == [] {
      assert [] + b == b;
    } else {
      BareJoin(a[1..], b);
      assert (a + b)[1..] == a[1..] + b;
    }
  }

  lemma {:induction false} BareSeen(n: Node, c: Text)
    ensures Bare(Seen(n, c)) == Shown(n, c)
    decreases n, 1
  {
    match n
    case Element(name, attributes, content) => BareSeenAll(content.children, c);
    case _ =>
  }

  lemma {:induction false} BareSeenAll(ns: seq<Node>, c: Text)
    ensures BareAll(SeenAll(ns, c)) == ShownAll(ns, c)
    decreases ns, 0
  {
    if ns != [] {
      BareSeen(ns[0], c);
      BareSeenAll(ns[1..], c);
      assert SeenAll(ns, c)[1..] == SeenAll(ns[1..], c);
    }
  }

  // ----- a printed document as markup -----

  function AsFields(attributes: seq<(Text, Text)>): seq<Field> {
    if attributes == [] then []
    else
      var a := attributes[0];
      var q := QuoteFor(a.1);
      [Field(a.0, [], [], q, Escaped(a.1, OtherQuote(q)), if |attributes| == 1 then [] else [32])]
      + AsFields(attributes[1..])
  }

  function Space(attributes: seq<(Text, Text)>): Text { if attributes == [] then [] else [32] }

  function AsMarkup(d: Doc): Markup
    requires !d.Txt?
    decreases d, 1
  {
    match d
    case Section(value) => SectionIs(value)
    case Remark(value) => CommentIs(value)
    case Elem(name, attributes, children) =>
      if children == [] then Empty(name, Space(attributes), AsFields(attributes))
      else
        var r := AsParts([], children);
        Full(name, Space(attributes), AsFields(attributes), r.0, r.1, name, [])
  }

  /** The documents as parts, `gap` being in front of them, and what is behind the last part. */
  function AsParts(gap: Text, ds: seq<Doc>): (seq<Part>, Text)
    decreases ds, 0
  {
    if ds == [] then ([], gap)
    else if ds[0].Txt? then AsParts(gap + Escaped(ds[0].value, NUL), ds[1..])
    else
      var r := AsParts([], ds[1..]);
      ([Part(gap, AsMarkup(ds[0]))] + r.0, r.1)
  }

  lemma {:induction false} FieldsSpell(attributes: seq<(Text, Text)>)
    ensures Space(attributes) + SpellFields(AsFields(attributes)) == PrintAttributes(attributes)
  {
    hide Escaped, QuoteFor, OtherQuote;
    if attributes != [] {
      var a, rest := attributes[0], attributes[1..];
      FieldsSpell(rest);
      var f := AsFields(attributes)[0];
      assert AsFields(attributes)[1..] == AsFields(rest);
      assert f.space == Space(rest);
      FieldSpells(a, f.space, SpellFields(AsFields(rest)));
    }
  }

  lemma FieldSpells(a: (Text, Text), space: Text, rest: Text)
    ensures var q := QuoteFor(a.1);
            var f := Field(a.0, [], [], q, Escaped(a.1, OtherQuote(q)), space);
            [32] + (SpellField(f) + rest) == PrintAttribute(a) + (space + rest)
  {
    hide Escaped, QuoteFor, OtherQuote;
    var q := QuoteFor(a.1);
    var v := Escaped(a.1, OtherQuote(q));
    assert SpellField(Field(a.0, [], [], q, v, space)) == a.0 + [61] + [q] + v + [q] + space;
    assert PrintAttribute(a) == [32] + a.0 + [61] + ([q] + v + [q]);
  }

  lemma {:induction false} MarkupSpells(d: Doc)
    requires !d.Txt?
    ensures Spell(AsMarkup(d)) == Printed(d)
    decreases d, 1
  {
    match d
    case Section(_) =>
    case Remark(_) =>
    case Elem(name, attributes, children) =>
      FieldsSpell(attributes);
      PartsSpell([], children);
      hide SpellFields, AsFields, PrintAttributes, SpellParts, PrintAll, AsParts;
      var r := AsParts([], children);
      ElementSpells(name, Space(attributes), SpellFields(AsFields(attributes)), SpellParts(r.0), r.1);
      assert [] + PrintAll(children) == PrintAll(children);
  }

  lemma ElementSpells(name: Text, s: Text, f: Text, parts: Text, last: Text)
    ensures [60] + (name + (s + (f + [47, 62]))) == [60] + name + (s + f) + [47, 62]
    ensures [60] + (name + (s + (f + ([62] + (parts + (last + Closer(name, [])))))))
            == [60] + name + (s + f) + ([62] + (parts + last) + Closing(name))
  {
    assert Closer(name, []) == Closing(name);
    hide Closer, Closing;
    var z := Closing(name);
    assert [62] + (parts + (last + z)) == [62] + (parts + last) + z;
  }

  lemma {:induction false} PartsSpell(gap: Text, ds: seq<Doc>)
    ensures var r := AsParts(gap, ds); SpellParts(r.0) + r.1 == gap + PrintAll(ds)
    decreases ds, 0
  {
    hide Escaped, Spell;
    if ds == [] {
      assert SpellParts([]) + gap == gap + PrintAll(ds);
    } else if ds[0].Txt? {
      var e := Escaped(ds[0].value, NUL);
      PartsSpell(gap + e, ds[1..]);
      assert gap + PrintAll(ds) == gap + e + PrintAll(ds[1..]);
    } else {
      MarkupSpells(ds[0]);
      PartsSpell([], ds[1..]);
      var r := AsParts([], ds[1..]);
      var x := AsMarkup(ds[0]);
      hide AsParts, AsMarkup, Printed;
      assert ([Part(gap, x)] + r.0)[1..] == r.0;
      assert SpellParts([Part(gap, x)] + r.0) + r.1 == gap + (Spell(x) + (SpellParts(r.0) + r.1));
      assert [] + PrintAll(ds[1..]) == PrintAll(ds[1..]);
    }
  }

  // ----- it is fine, under every flag -----

  lemma {:induction false} FieldsFine(attributes: seq<(Text, Text)>)
    requires forall k :: 0 <= k < |attributes| ==> AttributeFine(attributes[k])
    ensures forall k :: 0 <= k < |AsFields(attributes)| ==> FineField(AsFields(attributes)[k])
  {
    if attributes != [] {
      FieldsFine(attributes[1..]);
      var a, fs := attributes[0], AsFields(attributes);
      assert AttributeFine(a);
      FieldFine(a, fs[0].space);
      hide FineField, AttributeFine;
      forall k | 0 <= k < |fs| ensures FineField(fs[k]) {
        if k > 0 { assert fs[k] == AsFields(attributes[1..])[k - 1]; }
      }
    }
  }

  lemma FieldFine(a: (Text, Text), space: Text)
    requires AttributeFine(a) && (space == [] || space == [32])
    ensures var q := QuoteFor(a.1);
            FineField(Field(a.0, [], [], q, Escaped(a.1, OtherQuote(q)), space))
  {
    var q := QuoteFor(a.1);
    var v := Escaped(a.1, OtherQuote(q));
    EscapedStays(a.1, OtherQuote(q), Quoted(q));
    Tables();
    hide Escaped;
    assert forall k :: 0 <= k < |v| ==> In(InRegion(Quoted(q)), v[k]);
  }

  lemma {:induction false} MarkupFine(d: Doc, o: Options)
    requires Fine(d) && !d.Txt?
    ensures FineMarkup(AsMarkup(d), o)
    decreases d, 1
  {
    Tables();
    match d
    case Section(_) =>
    case Remark(_) =>
    case Elem(name, attributes, children) =>
      FieldsFine(attributes);
      PartsFine([], children, o);
      TagFine(name, attributes);
      hide AsParts, AsFields, FineParts, FineTag;
  }

  lemma TagFine(name: Text, attributes: seq<(Text, Text)>)
    requires name != [] && name[0] != BANG && AllIn(name, NodeName)
    requires forall k :: 0 <= k < |attributes| ==> AttributeFine(attributes[k])
    ensures FineTag(name, Space(attributes), AsFields(attributes)) && AllName(name)
  {
    Tables();
    FieldsFine(attributes);
    hide AttributeFine, FineField;
  }

  /** No data comes directly behind data. */
  predicate Apart(gap: Text, ds: seq<Doc>) { gap != [] && ds != [] ==> !ds[0].Txt? }

  lemma {:induction false} PartsFine(gap: Text, ds: seq<Doc>, o: Options)
    requires AllFine(ds) && IsGap(gap)
    ensures var r := AsParts(gap, ds); FineParts(r.0, o) && IsGap(r.1)
    decreases ds, 0
  {
    hide Escaped, FineMarkup, AsMarkup;
    if ds != [] {
      assert Fine(ds[0]) && AllFine(ds[1..]);
      if ds[0].Txt? {
        var e := Escaped(ds[0].value, NUL);
        EscapedIsGap(ds[0].value);
        GapsJoin(gap, e);
        PartsFine(gap + e, ds[1..], o);
      } else {
        MarkupFine(ds[0], o);
        PartsFine([], ds[1..], o);
        var r := AsParts([], ds[1..]);
        assert ([Part(gap, AsMarkup(ds[0]))] + r.0)[1..] == r.0;
      }
    }
  }

  lemma GapsJoin(a: Text, b: Text)
    requires IsGap(a) && IsGap(b)
    ensures IsGap(a + b)
  {
  }

  lemma EscapedIsGap(v: Text)
    requires NulFree(v)
    ensures IsGap(Escaped(v, NUL))
  {
    EscapedStays(v, NUL, Region.Data);
    Tables();
    hide Escaped;
    var t := Escaped(v, NUL);
    assert forall k :: 0 <= k < |t| ==> In(InRegion(Region.Data), t[k]);
  }

  // ----- what it stands for -----

  lemma {:induction false} FieldsView(attributes: seq<(Text, Text)>)
    ensures FieldViews(AsFields(attributes)) == WrittenAttributes(attributes)
  {
    hide Escaped, QuoteFor, OtherQuote;
    if attributes != [] {
      FieldsView(attributes[1..]);
      assert AsFields(attributes)[1..] == AsFields(attributes[1..]);
    }
  }

  lemma {:induction false} MarkupViews(d: Doc, o: Options)
    requires Fine(d) && !d.Txt?
    ensures BareAll(Views(AsMarkup(d), o)) == Filtered(Written(d), o)
    decreases d, 1
  {
    match d
    case Section(value) => BareOne(VSection(value));
    case Remark(value) => BareOne(VComment(value));
    case Elem(name, attributes, children) =>
      FieldsView(attributes);
      PartsView([], children, o);
      hide FieldViews, AsFields, WrittenAttributes, PartViews, GapViews, AsParts, FilteredAll, WrittenAll, ValueOf;
      BareOne(Views(AsMarkup(d), o)[0]);
      NothingLeft(o);
      assert GapDoc([]) + WrittenAll(children) == WrittenAll(children);
  }

  lemma NothingLeft(o: Options)
    ensures FilteredAll(WrittenAll([]), o) == [] && BareAll([]) == []
  {
  }

  lemma BareOne(v: View)
    ensures BareAll([v]) == [Bare(v)]
  {
    assert [v][1..] == [];
    assert BareAll([v]) == [Bare(v)] + BareAll([]);
  }

  /** The data a gap would be. */
  function GapDoc(gap: Text): seq<Doc> { if AllBlank(gap) then [] else [Txt(gap)] }

  lemma {:induction false} PartsView(gap: Text, ds: seq<Doc>, o: Options)
    requires AllFine(ds) && Apart(gap, ds) && (gap == [] || !AllBlank(gap))
    ensures var r := AsParts(gap, ds);
            BareAll(PartViews(r.0, o) + GapViews(r.1, o)) == FilteredAll(GapDoc(gap) + WrittenAll(ds), o)
    decreases ds, 0
  {
    hide Escaped, Views, AsMarkup, Filtered, Written, AsParts, PartViews, GapViews, Fine;
    hide FilteredAll, GapDoc, WrittenAll;
    WrittenSplit(ds);
    if ds == [] {
      EndView(gap, o);
    } else if ds[0].Txt? {
      var e := Escaped(ds[0].value, NUL);
      EscapedVisible(ds[0]);
      assert gap == [] && gap + e == e;
      PartsSplit(gap, ds);
      PartsView(e, ds[1..], o);
      TxtDoc(ds[0], ds[1..]);
    } else {
      MarkupViews(ds[0], o);
      PartsView([], ds[1..], o);
      PartsSplit(gap, ds);
      MarkupThen(gap, ds[0], AsParts([], ds[1..]), ds[1..], o);
    }
  }

  lemma WrittenSplit(ds: seq<Doc>)
    ensures ds != [] ==> WrittenAll(ds) == [Written(ds[0])] + WrittenAll(ds[1..])
    ensures ds == [] ==> WrittenAll(ds) == []
  {
    hide Written;
  }

  lemma PartsSplit(gap: Text, ds: seq<Doc>)
    requires ds != []
    ensures ds[0].Txt? ==> AsParts(gap, ds) == AsParts(gap + Escaped(ds[0].value, NUL), ds[1..])
    ensures !ds[0].Txt? ==>
              AsParts(gap, ds) == ([Part(gap, AsMarkup(ds[0]))] + AsParts([], ds[1..]).0, AsParts([], ds[1..]).1)
  {
    hide Escaped, AsMarkup;
  }

  lemma EndView(gap: Text, o: Options)
    ensures AsParts(gap, []) == ([], gap)
    ensures BareAll(PartViews([], o) + GapViews(gap, o)) == FilteredAll(GapDoc(gap) + [], o)
  {
    GapView(gap, o);
    hide GapViews, GapDoc;
    assert PartViews([], o) + GapViews(gap, o) == GapViews(gap, o);
    assert GapDoc(gap) + [] == GapDoc(gap);
  }

  lemma TxtDoc(d: Doc, more: seq<Doc>)
    requires d.Txt? && !AllBlank(Escaped(d.value, NUL))
    ensures GapDoc([]) + ([Written(d)] + WrittenAll(more)) == GapDoc(Escaped(d.value, NUL)) + WrittenAll(more)
  {
    hide Escaped, WrittenAll;
  }

  lemma MarkupThen(gap: Text, d: Doc, r: (seq<Part>, Text), more: seq<Doc>, o: Options)
    requires !d.Txt? && BareAll(Views(AsMarkup(d), o)) == Filtered(Written(d), o)
    requires BareAll(PartViews(r.0, o) + GapViews(r.1, o)) == FilteredAll(GapDoc([]) + WrittenAll(more), o)
    ensures BareAll(PartViews([Part(gap, AsMarkup(d))] + r.0, o) + GapViews(r.1, o)) ==
            FilteredAll(GapDoc(gap) + ([Written(d)] + WrittenAll(more)), o)
  {
    hide Views, AsMarkup, Filtered, Written, GapViews, WrittenAll, FilteredAll, BareAll;
    var x := AsMarkup(d);
    var mid, rest := Views(x, o), PartViews(r.0, o) + GapViews(r.1, o);
    assert ([Part(gap, x)] + r.0)[1..] == r.0;
    assert PartViews([Part(gap, x)] + r.0, o) + GapViews(r.1, o) == GapViews(gap, o) + (mid + rest);
    GapView(gap, o);
    BareJoin(GapViews(gap, o), mid + rest);
    BareJoin(mid, rest);
    assert GapDoc([]) + WrittenAll(more) == WrittenAll(more);
    FilteredJoin(GapDoc(gap), [Written(d)] + WrittenAll(more), o);
    FilteredOne(Written(d), WrittenAll(more), o);
  }

  lemma FilteredOne(d: Doc, more: seq<Doc>, o: Options)
    ensures FilteredAll([d] + more, o) == Filtered(d, o) + FilteredAll(more, o)
  {
    hide Filtered;
    assert ([d] + more)[1..] == more;
  }

  lemma {:induction false} FilteredJoin(a: seq<Doc>, b: seq<Doc>, o: Options)
    ensures FilteredAll(a + b, o) == FilteredAll(a, o) + FilteredAll(b, o)
  {
    if a == [] {
      assert [] + b == b;
    } else {
      FilteredJoin(a[1..], b, o);
      assert (a + b)[1..] == a[1..] + b;
    }
  }

  lemma GapView(gap: Text, o: Options)
    ensures BareAll(GapViews(gap, o)) == FilteredAll(GapDoc(gap), o)
  {
    hide Stripped, AllBlank;
    if !AllBlank(gap) {
      assert [Txt(gap)][1..] == [];
      assert FilteredAll([Txt(gap)], o) == Filtered(Txt(gap), o) + FilteredAll([], o);
      BareOne(VData(Trimmed(gap, o)));
    }
  }

  /** Escaped text is blank only if the text is. */
  lemma {:induction false} EscapedBlank(v: Text)
    requires AllBlank(Escaped(v, NUL))
    ensures AllBlank(v)
  {
    if v != [] {
      var e, rest := EscapedByte(v[0], NUL), Escaped(v[1..], NUL);
      assert (e + rest)[0] == e[0];
      assert forall k :: 0 <= k < |rest| ==> rest[k] == (e + rest)[|e| + k];
      EscapedBlank(v[1..]);
      assert BlankByte(v[0]);
      assert forall k :: 1 <= k < |v| ==> v[k] == v[1..][k - 1];
    }
  }

  lemma EscapedVisible(d: Doc)
    requires Fine(d) && d.Txt?
    ensures !AllBlank(Escaped(d.value, NUL)) && Escaped(d.value, NUL) != []
  {
    Tables();
    hide Escaped;
    if AllBlank(Escaped(d.value, NUL)) { EscapedBlank(d.value); }
  }

  lemma {:induction false} NoDataGaps(ds: seq<Doc>)
    requires NoData(ds)
    ensures var r := AsParts([], ds); BlankGaps(r.0) && r.1 == []
  {
    hide AsMarkup;
    if ds != [] {
      assert !ds[0].Txt?;
      assert forall k :: 0 <= k < |ds[1..]| ==> ds[1..][k] == ds[k + 1];
      NoDataGaps(ds[1..]);
    }
  }

  /**
   * The round trip under every choice of flags: parsing what was printed succeeds and shows the documents, values
   * escaped as written, without remarks unless they are asked for, without data and sections if they are not, and with
   * data trimmed if that is asked for.
   */
  lemma RoundTripFiltered(ds: seq<Doc>, o: Options)
    requires AllFine(ds) && NoData(ds)
    ensures var c := PrintAll(ds) + [NUL];
            && CString(c) && ParseText(c, o).Ok? && ParseText(c, o).next == |c| - 1
            && ShownAll(ParseText(c, o).value, c) == FilteredAll(WrittenAll(ds), o)
  {
    hide PrintAll, AllFine, NoData, AsParts, SpellParts, FineParts, BlankGaps, ParseText, ShownAll, SeenAll, PartViews;
    hide FilteredAll, WrittenAll;
    var r := AsParts([], ds);
    var d := Document(false, r.0, r.1);
    PartsSpell([], ds);
    assert [] + PrintAll(ds) == PrintAll(ds) && SpellDocument(d) == PrintAll(ds);
    PartsFine([], ds, o);
    NoDataGaps(ds);
    AllNulFree(ds);
    DocumentRead(d, o);
    BareSeenAll(ParseText(PrintAll(ds) + [NUL], o).value, PrintAll(ds) + [NUL]);
    PartsView([], ds, o);
    assert GapDoc([]) + WrittenAll(ds) == WrittenAll(ds);
    NoGapViews([], o);
    assert PartViews(r.0, o) + [] == PartViews(r.0, o);
  }

  // ----- through the parser that works in place -----

  lemma {:induction false} SeenSealed(n: Node, s: Text, c: Text, ends: bool)
    requires forall x :: x in Spans(n) ==> XmlParse.SpanSealed(x, s, c, ends)
    ensures Seen(n, s) == Seen(n, c)
    decreases n, 1
  {
    hide XmlParse.SpanSealed, SpanText;
    match n
    case Element(name, attributes, content) =>
      assert AllSpans(content.children) <= ContentSpans(content) <= Spans(n);
      AttributesSealed(attributes, s, c, ends);
      SeenAllSealed(content.children, s, c, ends);
      SealedSpan(name, s, c, ends);
      if content.value.Some? { SealedSpan(content.value.value, s, c, ends); }
    case Data(text) => SealedSpan(text, s, c, ends);
    case Cdata(text) => SealedSpan(text, s, c, ends);
    case Comment(text) => SealedSpan(text, s, c, ends);
  }

  lemma {:induction false} SeenAllSealed(ns: seq<Node>, s: Text, c: Text, ends: bool)
    requires forall x :: x in AllSpans(ns) ==> XmlParse.SpanSealed(x, s, c, ends)
    ensures SeenAll(ns, s) == SeenAll(ns, c)
    decreases ns, 0
  {
    hide XmlParse.SpanSealed;
    if ns != [] {
      SeenSealed(ns[0], s, c, ends);
      SeenAllSealed(ns[1..], s, c, ends);
    }
  }

  /**
   * Any document, parsed in place in either mode and under any flags: the overwritten buffer shows what the document
   * stands for.
   */
  method ParseInPlace(a: array<byte>, o: Options, ends: bool, ghost d: Document) returns (r: Result<seq<Node>>)
    requires FineDocument(d, o) && NulFree(SpellDocument(d)) && a[..] == SpellDocument(d) + [0]
    modifies a
    ensures r.Ok? && SeenAll(r.value, a[..]) == PartViews(d.parts, o)
  {
    hide FineDocument, SpellDocument, PartViews, SeenAll, ParseText, CString, XmlParse.SpanSealed;
    ghost var c := a[..];
    DocumentRead(d, o);
    r := XmlParse.Parse(a, o, ends);
    SeenAllSealed(r.value, a[..], c, ends);
  }
}
