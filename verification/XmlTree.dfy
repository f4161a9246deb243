/** What RapidXML's parser reads, as a function of the text: names and values are runs of the text. */
module XmlTree {
  import opened Bytes
  import opened XmlExpand

  const EQUALS: byte := 61
  const QUESTION: byte := 63
  const BANG: byte := 33

  /**
   * Flags of parse(); entities are left alone, whitespace is not condensed, and no node is made of what is only
   * skipped.
   */
  datatype Options = Options(noDataNodes: bool, noElementValues: bool, commentNodes: bool,
                             validateClosingTags: bool, trim: bool)

  datatype Span = Span(at: nat, size: nat) {
    function End(): nat { at + size }
  }

  datatype Attr = Attr(name: Span, value: Span)

  datatype Node = Element(name: Span, attributes: seq<Attr>, content: Content) | Data(text: Span)
                | Cdata(text: Span) | Comment(text: Span)

  /** The children of an element, and the element's own value. */
  datatype Content = Content(children: seq<Node>, value: Option<Span>)

  /** What was read and where it ends, or where a parse_error points. */
  datatype Result<+T> = Ok(value: T, next: nat) | Error(at: nat)

  // ----- skipping -----

  /** The classes of the lookup tables. */
  datatype Class = Blank | NodeName | AttrName | InRegion(r: Region)

  predicate In(p: Class, b: byte) {
    match p
    case Blank => IsWhitespace(b)
    case NodeName => !IsWhitespace(b) && b !in {SLASH, GT, QUESTION, NUL}
    case AttrName => !IsWhitespace(b) && b !in {SLASH, LT, GT, EQUALS, QUESTION, BANG, NUL}
    case InRegion(r) => Inside(r, b)
  }

  /** skip<...>. */
  function Skip(c: Text, i: nat, p: Class): (e: nat)
    requires CString(c) && i < |c|
    ensures i <= e < |c| && !In(p, c[e]) && forall k :: i <= k < e ==> In(p, c[k])
    decreases |c| - i
  {
    if In(p, c[i]) then Skip(c, i + 1, p) else i
  }

  /** The first place from `i` on where `word` stands; the end of the text if there is none. */
  function Find(c: Text, i: nat, word: Text): (e: nat)
    requires CString(c) && i < |c|
    ensures i <= e < |c| && (c[e] == NUL || At(c, e, word))
    decreases |c| - i
  {
    if c[i] == NUL || At(c, i, word) then i else Find(c, i + 1, word)
  }

  lemma NulIsLast(c: Text, i: nat)
    requires CString(c) && i < |c|
    ensures c[i] == NUL <==> i == |c| - 1
    ensures c[i] != NUL ==> i + 1 < |c|
  {
    assert i < |c| - 1 ==> c[..|c| - 1][i] == c[i];
  }

  lemma ReadsRoom(c: Text, i: nat, word: Text)
    requires CString(c) && At(c, i, word) && word != [] && NulFree(word)
    ensures i + |word| < |c|
  {
    assert c[i..i + |word|][|word| - 1] == word[|word| - 1];
    NulIsLast(c, i + |word| - 1);
  }

  const COMMENT_OPEN: Text := [33, 45, 45]                          // !--
  const COMMENT_CLOSE: Text := [45, 45, 62]                         // -->
  const CDATA_OPEN: Text := [33, 91, 67, 68, 65, 84, 65, 91]        // ![CDATA[
  const CDATA_CLOSE: Text := [93, 93, 62]                           // ]]>
  const DOCTYPE_OPEN: Text := [33, 68, 79, 67, 84, 89, 80, 69]      // !DOCTYPE
  const PI_CLOSE: Text := [63, 62]                                  // ?>
  const BOM: Text := [0xEF, 0xBB, 0xBF]

  // ----- the leaves -----

  /** parse_comment and parse_cdata, from behind the opening to behind the closing. */
  function Closed(c: Text, i: nat, word: Text): (r: Result<Span>)
    requires CString(c) && i < |c| && word in {COMMENT_CLOSE, CDATA_CLOSE, PI_CLOSE}
    ensures r.Ok? ==> i <= r.value.at && r.value.End() < r.next < |c|
    ensures r.Error? ==> i <= r.at < |c|
  {
    var e := Find(c, i, word);
    if c[e] == NUL then Error(e)
    else (ReadsRoom(c, e, word); Ok(Span(i, e - i), e + |word|))
  }

  /** The bracket loop of parse_doctype, `depth` brackets open. */
  function SkipBrackets(c: Text, i: nat, depth: nat): (r: Result<()>)
    requires CString(c) && i < |c| && depth > 0
    ensures r.Ok? ==> i < r.next < |c|
    ensures r.Error? ==> i <= r.at < |c|
    decreases |c| - i
  {
    NulIsLast(c, i);
    if c[i] == NUL then Error(i)
    else if c[i] == LBRACKET then SkipBrackets(c, i + 1, depth + 1)
    else if c[i] == RBRACKET then (if depth == 1 then Ok((), i + 1) else SkipBrackets(c, i + 1, depth - 1))
    else SkipBrackets(c, i + 1, depth)
  }

  /** parse_doctype, behind "!DOCTYPE " to behind '>'. */
  function SkipDoctype(c: Text, i: nat): (r: Result<()>)
    requires CString(c) && i < |c|
    ensures r.Ok? ==> i < r.next < |c|
    ensures r.Error? ==> i <= r.at < |c|
    decreases |c| - i
  {
    NulIsLast(c, i);
    if c[i] == NUL then Error(i)
    else if c[i] == GT then Ok((), i + 1)
    else if c[i] == LBRACKET then
      match SkipBrackets(c, i + 1, 1)
      case Error(at) => Error(at)
      case Ok(_, next) => SkipDoctype(c, next)
    else SkipDoctype(c, i + 1)
  }

  /** The end of the data once trailing whitespace is dropped. */
  function TrimEnd(c: Text, start: nat, e: nat): (r: nat)
    requires start < e <= |c| && !IsWhitespace(c[start])
    ensures start < r <= e
  {
    if IsWhitespace(c[e - 1]) then TrimEnd(c, start, e - 1) else e
  }

  // ----- attributes -----

  function Attributes(c: Text, i: nat): (r: Result<seq<Attr>>)
    requires CString(c) && i < |c|
    ensures r.Ok? ==> i <= r.next < |c|
    ensures r.Error? ==> i <= r.at < |c|
    decreases |c| - i
  {
    NulIsLast(c, i);
    if !In(AttrName, c[i]) then Ok([], i)
    else
      match Attribute(c, i)
      case Error(at) => Error(at)
      case Ok(attribute, next) =>
        match Attributes(c, next)
        case Error(at) => Error(at)
        case Ok(rest, after) => Ok([attribute] + rest, after)
  }

  /** One attribute and the whitespace behind it. */
  function Attribute(c: Text, i: nat): (r: Result<Attr>)
    requires CString(c) && i < |c| && In(AttrName, c[i])
    ensures r.Ok? ==> i < r.next < |c| && i <= r.value.name.at
    ensures r.Ok? ==> r.value.name.End() < r.value.value.at && r.value.value.End() < r.next
    ensures r.Error? ==> i <= r.at < |c|
  {
    NulIsLast(c, i);
    var e := Skip(c, i + 1, AttrName);
    var equals := Skip(c, e, Blank);
    if c[equals] != EQUALS then Error(equals)
    else
      NulIsLast(c, equals);
      var open := Skip(c, equals + 1, Blank);
      if c[open] != APOS && c[open] != QUOTE then Error(open)
      else
        NulIsLast(c, open);
        var close := Skip(c, open + 1, InRegion(Quoted(c[open])));
        if c[close] != c[open] then Error(close)
        else
          NulIsLast(c, close);
          Ok(Attr(Span(i, e - i), Span(open + 1, close - (open + 1))), Skip(c, close + 1, Blank))
  }

  // ----- nodes -----

  /** One more node, and perhaps a value, in front of what is still to be read. */
  function Join(front: Content, rest: Result<Content>): Result<Content> {
    match rest
    case Error(at) => rest
    case Ok(content, next) =>
      Ok(Content(front.children + content.children, if front.value.Some? then front.value else content.value), next)
  }

  function Single(node: Option<Node>): Content {
    Content(if node.Some? then [node.value] else [], None)
  }

  /** parse_node, behind '<'. */
  function ParseNode(c: Text, i: nat, o: Options): (r: Result<Option<Node>>)
    requires CString(c) && i < |c|
    ensures r.Ok? ==> i < r.next < |c|
    ensures r.Error? ==> i <= r.at < |c|
    decreases |c| - i, 3
  {
    NulIsLast(c, i);
    if c[i] == QUESTION then
      match Closed(c, i + 1, PI_CLOSE)
      case Error(at) => Error(at)
      case Ok(_, next) => Ok(None, next)
    else if c[i] == BANG then ParseBang(c, i, o)
    else
      match ParseElement(c, i, o)
      case Error(at) => Error(at)
      case Ok(element, next) => Ok(Some(element), next)
  }

  /** The subset of "<!" nodes. */
  function ParseBang(c: Text, i: nat, o: Options): (r: Result<Option<Node>>)
    requires CString(c) && i < |c| && c[i] == BANG
    ensures r.Ok? ==> i < r.next < |c|
    ensures r.Error? ==> i <= r.at < |c|
  {
    NulIsLast(c, i);
    if At(c, i, COMMENT_OPEN) then
      ReadsRoom(c, i, COMMENT_OPEN);
      match Closed(c, i + 3, COMMENT_CLOSE)
      case Error(at) => Error(at)
      case Ok(span, next) => Ok(if o.commentNodes then Some(Comment(span)) else None, next)
    else if At(c, i, CDATA_OPEN) then
      ReadsRoom(c, i, CDATA_OPEN);
      match Closed(c, i + 8, CDATA_CLOSE)
      case Error(at) => Error(at)
      case Ok(span, next) => Ok(if o.noDataNodes then None else Some(Cdata(span)), next)
    else if At(c, i, DOCTYPE_OPEN) && i + 8 < |c| && IsWhitespace(c[i + 8]) then
      NulIsLast(c, i + 8);
      match SkipDoctype(c, i + 9)
      case Error(at) => Error(at)
      case Ok(_, next) => Ok(None, next)
    else
      var e := Find(c, i + 1, [GT]);
      if c[e] == NUL then Error(e) else (NulIsLast(c, e); Ok(None, e + 1))
  }

  /** parse_element. */
  function ParseElement(c: Text, i: nat, o: Options): (r: Result<Node>)
    requires CString(c) && i < |c|
    ensures r.Ok? ==> i < r.next < |c|
    ensures r.Error? ==> i <= r.at < |c|
    decreases |c| - i, 2
  {
    var e := Skip(c, i, NodeName);
    if e == i then Error(i)
    else
      match Attributes(c, Skip(c, e, Blank))
      case Error(at) => Error(at)
      case Ok(attributes, p) =>
        match ParseRest(c, p, Span(i, e - i), o)
        case Error(at) => Error(at)
        case Ok(content, next) => Ok(Element(Span(i, e - i), attributes, content), next)
  }

  /** The ending of a start tag, and the contents if there are any. */
  function ParseRest(c: Text, p: nat, name: Span, o: Options): (r: Result<Content>)
    requires CString(c) && p < |c| && name.End() <= p
    ensures r.Ok? ==> p < r.next < |c|
    ensures r.Error? ==> p <= r.at < |c|
    decreases |c| - p, 1
  {
    NulIsLast(c, p);
    if c[p] == GT then ParseContents(c, p + 1, name, o)
    else if c[p] != SLASH then Error(p)
    else if c[p + 1] != GT then Error(p + 1)
    else (NulIsLast(c, p + 1); Ok(Content([], None), p + 2))
  }

  /** parse_node_contents, from the top of its loop. */
  function ParseContents(c: Text, i: nat, name: Span, o: Options): (r: Result<Content>)
    requires CString(c) && i < |c| && name.End() <= i
    ensures r.Ok? ==> i < r.next < |c|
    ensures r.Error? ==> i <= r.at < |c|
    decreases |c| - i, 1
  {
    var j := Skip(c, i, Blank);
    if c[j] == LT || c[j] == NUL then ParseMarkup(c, j, name, o)
    else
      DataEnd(c, i, j);
      var t := Skip(c, j, InRegion(Region.Data));
      Join(DataContent(DataSpan(c, if o.trim then j else i, t, o), o), ParseMarkup(c, t, name, o))
  }

  lemma DataEnd(c: Text, i: nat, j: nat)
    requires CString(c) && i < |c| && j == Skip(c, i, Blank) && c[j] != LT && c[j] != NUL
    ensures var t := Skip(c, j, InRegion(Region.Data));
            j < t && Skip(c, i, InRegion(Region.Data)) == t && (c[t] == LT || c[t] == NUL)
  {
    NulIsLast(c, j);
    BlanksAreData(c, i);
  }

  lemma BlanksAreData(c: Text, i: nat)
    requires CString(c) && i < |c|
    ensures Skip(c, i, InRegion(Region.Data)) == Skip(c, Skip(c, i, Blank), InRegion(Region.Data))
    decreases |c| - i
  {
    if In(Blank, c[i]) { BlanksAreData(c, i + 1); }
  }

  /** parse_and_append_data: the data from `start` to `t`, without the whitespace behind it if that is trimmed. */
  function DataSpan(c: Text, start: nat, t: nat, o: Options): (span: Span)
    requires start < t <= |c| && (o.trim ==> !IsWhitespace(c[start]))
    ensures span.at == start && span.size > 0 && span.End() <= t
  {
    Span(start, (if o.trim then TrimEnd(c, start, t) else t) - start)
  }

  /** The node and the value that data gives. */
  function DataContent(span: Span, o: Options): Content {
    Content(if o.noDataNodes then [] else [Node.Data(span)], if o.noElementValues then None else Some(span))
  }

  /** The switch of parse_node_contents at '<' or the end of the text. */
  function ParseMarkup(c: Text, j: nat, name: Span, o: Options): (r: Result<Content>)
    requires CString(c) && j < |c| && name.End() <= j
    ensures r.Ok? ==> j < r.next < |c|
    ensures r.Error? ==> j <= r.at < |c|
    decreases |c| - j, 0
  {
    NulIsLast(c, j);
    if c[j] != LT then Error(j)
    else if c[j + 1] == SLASH then
      match CloseTag(c, j + 2, name, o)
      case Error(at) => Error(at)
      case Ok(_, next) => Ok(Content([], None), next)
    else
      match ParseNode(c, j + 1, o)
      case Error(at) => Error(at)
      case Ok(child, next) => Join(Single(child), ParseContents(c, next, name, o))
  }

  /** The closing tag, behind "</". */
  function CloseTag(c: Text, i: nat, name: Span, o: Options): (r: Result<()>)
    requires CString(c) && 0 < i <= |c| && c[i - 1] != NUL && name.End() <= i
    ensures i < |c|
    ensures r.Ok? ==> i < r.next < |c|
    ensures r.Error? ==> i <= r.at < |c|
  {
    NulIsLast(c, i - 1);
    var e := Skip(c, i, NodeName);
    if o.validateClosingTags && c[i..e] != c[name.at..name.End()] then Error(e)
    else
      var f := Skip(c, e, Blank);
      NulIsLast(c, f);
      if c[f] != GT then Error(f) else Ok((), f + 1)
  }

  /** parse, behind the byte order mark. */
  function ParseDocument(c: Text, i: nat, o: Options): (r: Result<seq<Node>>)
    requires CString(c) && i < |c|
    ensures r.Ok? ==> i <= r.next == |c| - 1
    ensures r.Error? ==> i <= r.at < |c|
    decreases |c| - i
  {
    var j := Skip(c, i, Blank);
    NulIsLast(c, j);
    if c[j] == NUL then Ok([], j)
    else if c[j] != LT then Error(j)
    else
      match ParseNode(c, j + 1, o)
      case Error(at) => Error(at)
      case Ok(node, next) =>
        match ParseDocument(c, next, o)
        case Error(at) => Error(at)
        case Ok(rest, after) => Ok(Single(node).children + rest, after)
  }

  function ParseText(c: Text, o: Options): (r: Result<seq<Node>>)
    requires CString(c)
    ensures if r.Ok? then r.next == |c| - 1 else r.at < |c|
  {
    if At(c, 0, BOM) then (ReadsRoom(c, 0, BOM); ParseDocument(c, 3, o)) else ParseDocument(c, 0, o)
  }

  // ----- where the names and values of a tree lie -----

  ghost function AttrSpans(attributes: seq<Attr>): set<Span> {
    if attributes == [] then {} else {attributes[0].name, attributes[0].value} + AttrSpans(attributes[1..])
  }

  ghost function Spans(n: Node): set<Span>
    decreases n, 1
  {
    match n
    case Element(name, attributes, content) => {name} + AttrSpans(attributes) + ContentSpans(content)
    case Data(text) => {text}
    case Cdata(text) => {text}
    case Comment(text) => {text}
  }

  ghost function ContentSpans(content: Content): set<Span>
    decreases content, 1
  {
    AllSpans(content.children) + (if content.value.Some? then {content.value.value} else {})
  }

  ghost function AllSpans(ns: seq<Node>): set<Span>
    decreases ns, 0
  {
    if ns == [] then {} else Spans(ns[0]) + AllSpans(ns[1..])
  }

  /** Every span lies from `lo` on, and ends before `hi`. */
  ghost predicate Within(spans: set<Span>, lo: nat, hi: nat) {
    forall s :: s in spans ==> lo <= s.at && s.End() < hi
  }

  lemma {:induction false} AttributesWithin(c: Text, i: nat)
    requires CString(c) && i < |c|
    ensures var r := Attributes(c, i); r.Ok? ==> Within(AttrSpans(r.value), i, r.next)
    decreases |c| - i
  {
    hide Attribute, In;
    if In(AttrName, c[i]) && Attribute(c, i).Ok? {
      AttributesWithin(c, Attribute(c, i).next);
    }
  }

  lemma {:induction false} AllSpansJoin(a: seq<Node>, b: seq<Node>)
    ensures AllSpans(a + b) == AllSpans(a) + AllSpans(b)
  {
    if a == [] {
      assert [] + b == b;
    } else {
      AllSpansJoin(a[1..], b);
      assert (a + b)[1..] == a[1..] + b;
    }
  }

  lemma JoinWithin(front: Content, rest: Result<Content>, lo: nat, mid: nat)
    requires Within(ContentSpans(front), lo, mid + 1) && lo <= mid
    requires rest.Ok? ==> mid < rest.next && Within(ContentSpans(rest.value), mid, rest.next)
    ensures Join(front, rest).Ok? ==> Within(ContentSpans(Join(front, rest).value), lo, Join(front, rest).next)
  {
    if rest.Ok? { AllSpansJoin(front.children, rest.value.children); }
  }

  lemma OneSpan(n: Node)
    ensures AllSpans([n]) == Spans(n)
  {
    assert [n][1..] == [];
    assert AllSpans([n]) == Spans(n) + AllSpans([]);
  }

  lemma SingleSpans(node: Option<Node>)
    ensures ContentSpans(Single(node)) == if node.Some? then Spans(node.value) else {}
  {
    if node.Some? { OneSpan(node.value); }
  }

  lemma DataSpans(span: Span, o: Options)
    ensures ContentSpans(DataContent(span, o)) <= {span}
  {
    var content := DataContent(span, o);
    if content.children != [] { OneSpan(content.children[0]); }
  }

  lemma {:induction false} NodeWithin(c: Text, i: nat, o: Options)
    requires CString(c) && i < |c|
    ensures var r := ParseNode(c, i, o); r.Ok? && r.value.Some? ==> Within(Spans(r.value.value), i, r.next)
    decreases |c| - i, 3
  {
    hide ParseElement, Spans;
    if c[i] == BANG {
      BangWithin(c, i, o);
    } else if c[i] != QUESTION {
      ElementWithin(c, i, o);
    }
  }

  lemma BangWithin(c: Text, i: nat, o: Options)
    requires CString(c) && i < |c| && c[i] == BANG
    ensures var r := ParseBang(c, i, o); r.Ok? && r.value.Some? ==> Within(Spans(r.value.value), i, r.next)
  {
    hide Closed, SkipDoctype, At, Find;
  }

  lemma {:induction false} ElementWithin(c: Text, i: nat, o: Options)
    requires CString(c) && i < |c|
    ensures var r := ParseElement(c, i, o); r.Ok? ==> Within(Spans(r.value), i, r.next)
    decreases |c| - i, 2
  {
    hide ParseContents, Attributes, Skip, Within, ContentSpans, AttrSpans;
    var e := Skip(c, i, NodeName);
    if e != i {
      AttributesWithin(c, Skip(c, e, Blank));
      var attributes := Attributes(c, Skip(c, e, Blank));
      if attributes.Ok? {
        var name := Span(i, e - i);
        RestWithin(c, attributes.next, name, o);
        var content := ParseRest(c, attributes.next, name, o);
        if content.Ok? {
          var p := Skip(c, e, Blank);
          ElementSpansWithin(name, attributes.value, content.value, i, p, attributes.next, content.next);
        }
      }
    }
  }

  lemma ElementSpansWithin(name: Span, attributes: seq<Attr>, content: Content, i: nat, from: nat, p: nat, next: nat)
    requires name.at == i && name.End() <= from <= p < next
    requires Within(AttrSpans(attributes), from, p) && Within(ContentSpans(content), p + 1, next)
    ensures Within(Spans(Element(name, attributes, content)), i, next)
  {
    hide ContentSpans, AttrSpans;
  }

  lemma {:induction false} RestWithin(c: Text, p: nat, name: Span, o: Options)
    requires CString(c) && p < |c| && name.End() <= p
    ensures var r := ParseRest(c, p, name, o); r.Ok? ==> Within(ContentSpans(r.value), p + 1, r.next)
    decreases |c| - p, 1
  {
    hide ParseContents;
    NulIsLast(c, p);
    if c[p] == GT { ContentsWithin(c, p + 1, name, o); }
  }

  lemma {:induction false} ContentsWithin(c: Text, i: nat, name: Span, o: Options)
    requires CString(c) && i < |c| && name.End() <= i
    ensures var r := ParseContents(c, i, name, o); r.Ok? ==> Within(ContentSpans(r.value), i, r.next)
    decreases |c| - i, 1
  {
    hide ParseMarkup, Within, ContentSpans, Join, DataContent, DataSpan;
    var j := Skip(c, i, Blank);
    if c[j] == LT || c[j] == NUL {
      MarkupWithin(c, j, name, o);
      WiderStart(c, i, j, name, o);
    } else {
      DataEnd(c, i, j);
      var t := Skip(c, j, InRegion(Region.Data));
      var start := if o.trim then j else i;
      var front := DataContent(DataSpan(c, start, t, o), o);
      DataSpans(DataSpan(c, start, t, o), o);
      MarkupWithin(c, t, name, o);
      SubWithin(ContentSpans(front), DataSpan(c, start, t, o), start, t + 1);
      JoinWithin(front, ParseMarkup(c, t, name, o), start, t);
      if i < start { WiderJoin(front, ParseMarkup(c, t, name, o), i, start); }
    }
  }

  lemma SubWithin(spans: set<Span>, span: Span, lo: nat, hi: nat)
    requires spans <= {span} && lo <= span.at && span.End() < hi
    ensures Within(spans, lo, hi)
  {
  }

  lemma WiderStart(c: Text, i: nat, j: nat, name: Span, o: Options)
    requires CString(c) && i <= j < |c| && name.End() <= j
    requires var r := ParseMarkup(c, j, name, o); r.Ok? ==> Within(ContentSpans(r.value), j, r.next)
    ensures var r := ParseMarkup(c, j, name, o); r.Ok? ==> Within(ContentSpans(r.value), i, r.next)
  {
    hide ParseMarkup;
  }

  lemma WiderJoin(front: Content, rest: Result<Content>, i: nat, start: nat)
    requires i <= start
    requires Join(front, rest).Ok? ==> Within(ContentSpans(Join(front, rest).value), start, Join(front, rest).next)
    ensures Join(front, rest).Ok? ==> Within(ContentSpans(Join(front, rest).value), i, Join(front, rest).next)
  {
    hide Join, ContentSpans;
  }

  lemma {:induction false} MarkupWithin(c: Text, j: nat, name: Span, o: Options)
    requires CString(c) && j < |c| && name.End() <= j
    ensures var r := ParseMarkup(c, j, name, o); r.Ok? ==> Within(ContentSpans(r.value), j, r.next)
    decreases |c| - j, 0
  {
    hide ParseContents, ParseNode, CloseTag, Single, Join, Spans;
    NulIsLast(c, j);
    if c[j] == LT && c[j + 1] != SLASH {
      NodeWithin(c, j + 1, o);
      var child := ParseNode(c, j + 1, o);
      if child.Ok? {
        SingleSpans(child.value);
        ContentsWithin(c, child.next, name, o);
        JoinWithin(Single(child.value), ParseContents(c, child.next, name, o), j, child.next);
      }
    }
  }
}
