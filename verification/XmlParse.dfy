/**
 * RapidXML's parser in place: with `ends`, a NUL is written behind every name and value, over text that may
 * not have been read yet. What is read is the tree of XmlTree either way, every name and value is intact and
 * (with `ends`) terminated, and without `ends` not a byte is changed.
 */
module XmlParse {
  import opened Bytes
  import opened XmlExpand
  import opened XmlTree

  /** From `i` on the buffer still holds the original text. */
  predicate Unread(s: Text, c: Text, i: nat) {
    i <= |s| == |c| && forall k :: i <= k < |s| ==> s[k] == c[k]
  }

  /** The bytes of the span are the original ones, and a NUL is behind them if `ends`. */
  predicate SpanSealed(x: Span, s: Text, c: Text, ends: bool) {
    && x.End() < |s| == |c|
    && (forall k :: x.at <= k < x.End() ==> s[k] == c[k])
    && (ends ==> s[x.End()] == NUL)
  }

  ghost predicate Sealed(spans: set<Span>, s: Text, c: Text, ends: bool) {
    |s| == |c| && forall x :: x in spans ==> SpanSealed(x, s, c, ends)
  }

  /** A step that began at `i` left everything before it alone, and without `ends` everything. */
  predicate Kept(was: Text, now: Text, i: nat, ends: bool) {
    && |was| == |now|
    && (forall k :: 0 <= k < i && k < |was| ==> now[k] == was[k])
    && (!ends ==> now == was)
  }

  lemma KeptTwice(was: Text, middle: Text, now: Text, i: nat, j: nat, ends: bool)
    requires Kept(was, middle, i, ends) && Kept(middle, now, j, ends) && i <= j
    ensures Kept(was, now, i, ends)
  {
  }

  lemma SealedKept(spans: set<Span>, was: Text, now: Text, c: Text, lo: nat, hi: nat, j: nat, ends: bool)
    requires Sealed(spans, was, c, ends) && Within(spans, lo, hi) && hi <= j && Kept(was, now, j, ends)
    ensures Sealed(spans, now, c, ends)
  {
    forall x | x in spans ensures SpanSealed(x, now, c, ends) {
      assert SpanSealed(x, was, c, ends);
    }
  }

  lemma SealedUnion(a: set<Span>, b: set<Span>, s: Text, c: Text, ends: bool)
    requires Sealed(a, s, c, ends) && Sealed(b, s, c, ends)
    ensures Sealed(a + b, s, c, ends)
  {
  }

  // ----- reading -----

  /** skip<...>. */
  method SkipAt(a: array<byte>, i: nat, p: Class, ghost c: Text) returns (e: nat)
    requires CString(c) && i < |c| && Unread(a[..], c, i)
    ensures e == Skip(c, i, p)
  {
    e := i;
    while In(p, a[..][e])
      invariant i <= e < |c| && Skip(c, i, p) == Skip(c, e, p)
      decreases |c| - e
    {
      e := e + 1;
    }
  }

  /** `word` stands at `i`: the bytes are compared one by one, so nothing behind the first difference is read. */
  method SeesAt(a: array<byte>, i: nat, word: Text, ghost c: Text) returns (sees: bool)
    requires CString(c) && i < |c| && Unread(a[..], c, i) && NulFree(word)
    ensures sees == At(c, i, word)
  {
    var k := 0;
    while k < |word|
      invariant k <= |word| && i + k < |c| && c[i..i + k] == word[..k]
    {
      assert a[..][i + k] == c[i + k];
      if a[i + k] != word[k] {
        if i + |word| <= |c| { assert c[i..i + |word|][k] == c[i + k]; }
        return false;
      }
      NulIsLast(c, i + k);
      assert c[i..i + (k + 1)] == c[i..i + k] + [c[i + k]];
      assert word[..k + 1] == word[..k] + [word[k]];
      k := k + 1;
    }
    assert word[..|word|] == word;
    return true;
  }

  /** The search for the end of a comment, a CDATA section, and the like. */
  method FindAt(a: array<byte>, i: nat, word: Text, ghost c: Text) returns (e: nat, found: bool)
    requires CString(c) && i < |c| && Unread(a[..], c, i) && NulFree(word) && word != []
    ensures e == Find(c, i, word) && found == (c[e] != NUL)
  {
    e := i;
    found := SeesAt(a, e, word, c);
    while !found && a[..][e] != NUL
      invariant i <= e < |c| && Find(c, i, word) == Find(c, e, word) && found == At(c, e, word)
      decreases |c| - e, !found
    {
      NulIsLast(c, e);
      e := e + 1;
      found := SeesAt(a, e, word, c);
    }
    if found { assert c[e..e + |word|][0] == word[0]; }
  }

  method SkipBracketsAt(a: array<byte>, i: nat, ghost c: Text) returns (r: Result<()>)
    requires CString(c) && i < |c| && Unread(a[..], c, i)
    ensures r == SkipBrackets(c, i, 1)
  {
    var text, depth := i, 1;
    while depth > 0
      invariant i <= text < |c| && depth >= 0
      invariant SkipBrackets(c, i, 1) == if depth > 0 then SkipBrackets(c, text, depth) else Ok((), text)
      decreases |c| - text
    {
      NulIsLast(c, text);
      var ch := a[..][text];
      if ch == NUL { return Error(text); }
      if ch == LBRACKET { depth := depth + 1; } else if ch == RBRACKET { depth := depth - 1; }
      text := text + 1;
    }
    return Ok((), text);
  }

  /** parse_doctype, no node being made of it. */
  method SkipDoctypeAt(a: array<byte>, i: nat, ghost c: Text) returns (r: Result<()>)
    requires CString(c) && i < |c| && Unread(a[..], c, i)
    ensures r == SkipDoctype(c, i)
  {
    var text := i;
    while a[..][text] != GT
      invariant i <= text < |c| && SkipDoctype(c, i) == SkipDoctype(c, text)
      decreases |c| - text
    {
      NulIsLast(c, text);
      var ch := a[..][text];
      if ch == NUL { return Error(text); }
      if ch == LBRACKET {
        r := SkipBracketsAt(a, text + 1, c);
        if r.Error? { return; }
        text := r.next;
      } else {
        text := text + 1;
      }
    }
    return Ok((), text + 1);
  }

  /** Backing up over trailing whitespace. */
  method TrimEndAt(a: array<byte>, start: nat, t: nat, ghost c: Text) returns (e: nat)
    requires start < t <= |c| && !IsWhitespace(c[start]) && Unread(a[..], c, start)
    ensures e == TrimEnd(c, start, t)
  {
    e := t;
    while IsWhitespace(a[..][e - 1])
      invariant start < e <= t && TrimEnd(c, start, t) == TrimEnd(c, start, e)
      decreases e
    {
      e := e - 1;
    }
  }

  /** internal::compare. */
  method Compare(a: array<byte>, x: Span, y: Span) returns (same: bool)
    requires x.End() <= a.Length && y.End() <= a.Length
    ensures same == (a[x.at..x.End()] == a[y.at..y.End()])
  {
    if x.size != y.size { return false; }
    var k := 0;
    while k < x.size
      invariant k <= x.size && a[x.at..x.at + k] == a[y.at..y.at + k]
    {
      if a[x.at + k] != a[y.at + k] {
        assert a[x.at..x.End()][k] != a[y.at..y.End()][k];
        return false;
      }
      k := k + 1;
    }
    return true;
  }

  /** Placing a zero terminator. */
  method Terminate(a: array<byte>, at: nat, ends: bool)
    requires at < a.Length
    modifies a
    ensures a[..] == Ended(old(a[..]), at, ends)
  {
    if ends { a[at] := NUL; }
  }

  function Ended(s: Text, at: nat, ends: bool): Text
    requires at < |s|
  {
    if ends then s[at := NUL] else s
  }

  lemma UnreadAfter(s: Text, c: Text, i: nat, at: nat, j: nat, ends: bool)
    requires Unread(s, c, i) && at < j && i <= j <= |c|
    ensures Unread(s, c, j) && Unread(Ended(s, at, ends), c, j)
  {
  }

  lemma UnreadAt(s: Text, c: Text, i: nat, k: nat)
    requires Unread(s, c, i) && i <= k < |c|
    ensures |s| == |c| && s[k] == c[k]
  {
  }

  /** One span, sealed by the terminator behind it. */
  lemma SealOne(s: Text, c: Text, i: nat, x: Span, ends: bool)
    requires Unread(s, c, i) && i <= x.at && x.End() < |c|
    ensures Kept(s, Ended(s, x.End(), ends), i, ends) && SpanSealed(x, Ended(s, x.End(), ends), c, ends)
  {
  }

  // ----- plain skips -----

  lemma {:induction false} PlainExpand(s: Text, c: Text, i: nat, d: nat, region: Region, f: Flags)
    requires CString(c) && i < |c| && Unread(s, c, i) && f.noEntities && !f.normalize
    ensures Terminated(s)
    ensures Expand(s, i, d, region, f) == Expanded(c[i..Skip(c, i, InRegion(region))], Skip(c, i, InRegion(region)))
    decreases |c| - i
  {
    hide Expand, Turn, Unread, Skip, CString, Inside, Pure;
    UnreadAt(s, c, i, |c| - 1);
    UnreadAt(s, c, i, i);
    NulIsLast(c, |c| - 1);
    RegionStep(c, i, region);
    var e := Skip(c, i, InRegion(region));
    if Inside(region, c[i]) {
      UnreadAfter(s, c, i, i, i + 1, false);
      PlainExpand(s, c, i + 1, d + 1, region, f);
      PureTurn(s, i, region, f);
      ExpandTurn(s, i, d, region, f);
      assert c[i..e] == [c[i]] + c[i + 1..e];
    } else {
      ExpandEnd(s, i, d, region, f);
    }
  }

  lemma RegionStep(c: Text, i: nat, region: Region)
    requires CString(c) && i < |c|
    ensures Inside(region, c[i]) ==> i + 1 < |c| && Skip(c, i, InRegion(region)) == Skip(c, i + 1, InRegion(region))
    ensures !Inside(region, c[i]) ==> Skip(c, i, InRegion(region)) == i
  {
    NulIsLast(c, i);
  }

  /** skip_and_expand_character_refs, with no references to translate and nothing to condense. */
  method SkipPlain(a: array<byte>, i: nat, region: Region, o: Options, ghost c: Text) returns (e: nat)
    requires CString(c) && i < |c| && Unread(a[..], c, i)
    modifies a
    ensures e == Skip(c, i, InRegion(region)) && a[..] == old(a[..])
  {
    var f := Flags(true, false, o.trim, false);
    ghost var s := a[..];
    PlainExpand(s, c, i, i, region, f);
    hide *;
    var result, end := ExpandInPlace(a, i, region, f);
    e := result.next;
    SameText(a[..], s, c, i, Skip(c, i, InRegion(region)));
  }

  lemma SameText(now: Text, s: Text, c: Text, i: nat, e: nat)
    requires i <= e <= |c| && Unread(s, c, i) && Layout(now, s, i, c[i..e])
    ensures now == s
  {
    assert forall k :: i <= k < e ==> now[k] == c[i..e][k - i] == c[k];
  }

  // ----- attributes -----

  lemma AttributeSealed(s: Text, c: Text, i: nat, name: Span, value: Span, next: nat, ends: bool)
    requires Unread(s, c, i) && i <= name.at && name.End() < value.at && value.End() < next <= |c|
    ensures var now := Ended(Ended(s, name.End(), ends), value.End(), ends);
            Kept(s, now, i, ends) && Unread(now, c, next) && Sealed({name, value}, now, c, ends)
  {
  }

  lemma NameGoesOn(c: Text, i: nat, p: Class)
    requires CString(c) && i < |c| && In(p, c[i])
    ensures i + 1 < |c|
  {
    NulIsLast(c, i);
  }

  lemma KeptNothing(s: Text, i: nat, ends: bool)
    ensures Kept(s, s, i, ends)
  {
  }

  /** Where the '=' of an attribute must be. */
  function EqualsAt(c: Text, i: nat): (r: nat)
    requires CString(c) && i + 1 < |c|
    ensures i < r < |c|
  {
    Skip(c, Skip(c, i + 1, AttrName), Blank)
  }

  lemma NoEquals(c: Text, i: nat)
    requires CString(c) && i + 1 < |c| && In(AttrName, c[i]) && c[EqualsAt(c, i)] != EQUALS
    ensures Attribute(c, i) == Error(EqualsAt(c, i))
  {
    hide Skip, In;
  }

  lemma NoQuote(c: Text, i: nat)
    requires CString(c) && i + 1 < |c| && In(AttrName, c[i]) && c[EqualsAt(c, i)] == EQUALS && EqualsAt(c, i) + 1 < |c|
    requires var q := c[Skip(c, EqualsAt(c, i) + 1, Blank)]; q != APOS && q != QUOTE
    ensures Attribute(c, i) == Error(Skip(c, EqualsAt(c, i) + 1, Blank))
  {
    hide Skip, In;
  }

  lemma QuotedValue(c: Text, i: nat, open: nat)
    requires CString(c) && i + 1 < |c| && In(AttrName, c[i]) && c[EqualsAt(c, i)] == EQUALS && EqualsAt(c, i) + 1 < |c|
    requires open == Skip(c, EqualsAt(c, i) + 1, Blank) && (c[open] == APOS || c[open] == QUOTE) && open + 1 < |c|
    ensures var e, close := Skip(c, i + 1, AttrName), Skip(c, open + 1, InRegion(Quoted(c[open])));
            if c[close] != c[open] then Attribute(c, i) == Error(close)
            else close + 1 < |c| && Attribute(c, i) ==
                   Ok(Attr(Span(i, e - i), Span(open + 1, close - (open + 1))), Skip(c, close + 1, Blank))
  {
    hide Skip, In;
    NulIsLast(c, Skip(c, open + 1, InRegion(Quoted(c[open]))));
  }

  /** One turn of parse_node_attributes. */
  method AttributeAt(a: array<byte>, i: nat, o: Options, ends: bool, ghost c: Text) returns (r: Result<Attr>)
    requires CString(c) && i < |c| && Unread(a[..], c, i) && In(AttrName, c[i])
    modifies a
    ensures r == Attribute(c, i) && Kept(old(a[..]), a[..], i, ends)
    ensures r.Ok? ==> Unread(a[..], c, r.next) && Sealed({r.value.name, r.value.value}, a[..], c, ends)
  {
    hide In, Skip, CString, Unread, Kept, Sealed, Ended, Attribute;
    ghost var s := a[..];
    KeptNothing(s, i, ends);
    NameGoesOn(c, i, AttrName);
    UnreadAfter(s, c, i, i, i + 1, ends);
    var e := SkipAt(a, i + 1, AttrName, c);
    var name := Span(i, e - i);
    UnreadAfter(s, c, i, i, e, ends);
    var equals := SkipAt(a, e, Blank, c);
    UnreadAt(s, c, i, equals);
    if a[equals] != EQUALS {
      NoEquals(c, i);
      return Error(equals);
    }
    NulIsLast(c, equals);
    SealOne(s, c, i, name, ends);
    Terminate(a, e, ends);
    UnreadAfter(s, c, i, e, equals + 1, ends);
    r := AttributeValueAt(a, i, name, equals, o, ends, c, s);
  }

  /** The rest of the turn, behind '=': the quoted value and its terminator. */
  method AttributeValueAt(a: array<byte>, i: nat, name: Span, equals: nat, o: Options, ends: bool, ghost c: Text,
                          ghost s: Text)
    returns (r: Result<Attr>)
    requires CString(c) && i + 1 < |c| && In(AttrName, c[i]) && equals == EqualsAt(c, i) && c[equals] == EQUALS
    requires equals + 1 < |c| && name == Span(i, Skip(c, i + 1, AttrName) - i)
    requires Unread(s, c, i) && a[..] == Ended(s, name.End(), ends)
    requires Kept(s, a[..], i, ends) && Unread(a[..], c, equals + 1)
    modifies a
    ensures r == Attribute(c, i) && Kept(s, a[..], i, ends)
    ensures r.Ok? ==> Unread(a[..], c, r.next) && Sealed({r.value.name, r.value.value}, a[..], c, ends)
  {
    hide In, Skip, CString, Unread, Kept, Sealed, Ended, Attribute;
    var open := SkipAt(a, equals + 1, Blank, c);
    UnreadAt(a[..], c, equals + 1, open);
    var quote := a[open];
    if quote != APOS && quote != QUOTE {
      NoQuote(c, i);
      return Error(open);
    }
    NulIsLast(c, open);
    QuotedValue(c, i, open);
    UnreadAfter(a[..], c, equals + 1, 0, open + 1, ends);
    var close := SkipPlain(a, open + 1, Quoted(quote), o, c);
    UnreadAt(a[..], c, open + 1, close);
    if a[close] != quote { return Error(close); }
    var value := Span(open + 1, close - (open + 1));
    Terminate(a, close, ends);
    AttributeSealed(s, c, i, name, value, close + 1, ends);
    var next := SkipAt(a, close + 1, Blank, c);
    UnreadAfter(a[..], c, close + 1, 0, next, false);
    r := Ok(Attr(name, value), next);
  }

  lemma {:induction false} AttrSpansSnoc(list: seq<Attr>, x: Attr)
    ensures AttrSpans(list + [x]) == AttrSpans(list) + {x.name, x.value}
  {
    if list == [] {
      assert [] + [x] == [x] && [x][1..] == [];
    } else {
      AttrSpansSnoc(list[1..], x);
      assert (list + [x])[1..] == list[1..] + [x];
    }
  }

  function Behind(front: seq<Attr>, r: Result<seq<Attr>>): Result<seq<Attr>> {
    match r
    case Error(at) => r
    case Ok(rest, next) => Ok(front + rest, next)
  }

  /** One attribute more, on the side of the specification. */
  lemma AttributesTurn(c: Text, i: nat, front: seq<Attr>)
    requires CString(c) && i < |c| && In(AttrName, c[i])
    ensures Attribute(c, i).Error? ==> Behind(front, Attributes(c, i)) == Error(Attribute(c, i).at)
    ensures Attribute(c, i).Ok? ==>
              && Within({Attribute(c, i).value.name, Attribute(c, i).value.value}, i, Attribute(c, i).next)
              && Behind(front, Attributes(c, i)) ==
                 Behind(front + [Attribute(c, i).value], Attributes(c, Attribute(c, i).next))
  {
    hide Attribute;
    match Attribute(c, i)
    case Error(at) =>
    case Ok(x, next) =>
      if Attributes(c, next).Ok? {
        var rest := Attributes(c, next).value;
        assert front + ([x] + rest) == front + [x] + rest;
      }
  }

  lemma AttributesEnd(c: Text, i: nat, front: seq<Attr>)
    requires CString(c) && i < |c| && !In(AttrName, c[i])
    ensures Behind(front, Attributes(c, i)) == Ok(front, i)
  {
    assert front + [] == front;
  }

  lemma AttributesStart(s: Text, c: Text, i: nat, ends: bool)
    requires Unread(s, c, i)
    ensures Sealed(AttrSpans([]), s, c, ends) && Within(AttrSpans([]), i, i) && Kept(s, s, i, ends)
    ensures forall r :: Behind([], r) == r
  {
    forall r ensures Behind([], r) == r {
      if r.Ok? { assert [] + r.value == r.value; }
    }
  }

  /** What one attribute adds to what is sealed. */
  lemma AttributeAdded(s: Text, was: Text, now: Text, c: Text, i: nat, text: nat, next: nat, list: seq<Attr>,
                       x: Attr, ends: bool)
    requires i <= text <= next && Kept(s, was, i, ends) && Kept(was, now, text, ends)
    requires Sealed(AttrSpans(list), was, c, ends) && Within(AttrSpans(list), i, text)
    requires Sealed({x.name, x.value}, now, c, ends) && Within({x.name, x.value}, text, next)
    ensures Kept(s, now, i, ends) && Sealed(AttrSpans(list + [x]), now, c, ends)
    ensures Within(AttrSpans(list + [x]), i, next)
  {
    AttrSpansSnoc(list, x);
    KeptTwice(s, was, now, i, text, ends);
    SealedKept(AttrSpans(list), was, now, c, i, text, text, ends);
    hide AttrSpans, Sealed, SpanSealed, Kept;
    SealedUnion(AttrSpans(list), {x.name, x.value}, now, c, ends);
  }

  /** parse_node_attributes. */
  method AttributesAt(a: array<byte>, i: nat, o: Options, ends: bool, ghost c: Text) returns (r: Result<seq<Attr>>)
    requires CString(c) && i < |c| && Unread(a[..], c, i)
    modifies a
    ensures r == Attributes(c, i) && Kept(old(a[..]), a[..], i, ends)
    ensures r.Ok? ==> Unread(a[..], c, r.next) && Sealed(AttrSpans(r.value), a[..], c, ends)
  {
    hide In, Attribute, Attributes, CString, Unread, Kept, Sealed, Within, AttrSpans, Behind;
    ghost var s := a[..];
    var text, list := i, [];
    AttributesStart(s, c, i, ends);
    UnreadAt(s, c, i, i);
    while In(AttrName, a[text])
      invariant i <= text < |c| == a.Length && a[text] == c[text] && Unread(a[..], c, text) && Kept(s, a[..], i, ends)
      invariant Sealed(AttrSpans(list), a[..], c, ends) && Within(AttrSpans(list), i, text)
      invariant Attributes(c, i) == Behind(list, Attributes(c, text))
      decreases |c| - text
    {
      ghost var was, from := a[..], text;
      AttributesTurn(c, text, list);
      var x := AttributeAt(a, text, o, ends, c);
      if x.Error? { KeptTwice(s, was, a[..], i, from, ends); return Error(x.at); }
      AttributeAdded(s, was, a[..], c, i, from, x.next, list, x.value, ends);
      text, list := x.next, list + [x.value];
      UnreadAt(a[..], c, text, text);
    }
    AttributesEnd(c, text, list);
    return Ok(list, text);
  }

  // ----- data -----

  /** The value an element has once data is read: the first data it contains. */
  function ValueAfter(value: Option<Span>, span: Span, o: Options): Option<Span> {
    if value.None? && !o.noElementValues then Some(span) else value
  }

  /** An element's value is no empty string, and its bytes are intact. */
  predicate ValueShown(value: Option<Span>, s: Text, c: Text) {
    value.Some? ==> value.value.size > 0 && value.value.End() < |c| == |s| && s[value.value.at] == c[value.value.at]
  }

  lemma ValueNotEmpty(value: Option<Span>, s: Text, c: Text)
    requires CString(c) && ValueShown(value, s, c)
    ensures value.Some? ==> value.value.at < |s| && s[value.value.at] != NUL
  {
    if value.Some? { NulIsLast(c, value.value.at); }
  }

  /** parse_and_append_data: the span read, where it ends and on which character, and the element's value. */
  method DataAt(a: array<byte>, i: nat, j: nat, value: Option<Span>, o: Options, ends: bool, ghost c: Text)
    returns (span: Span, t: nat, ch: byte, newValue: Option<Span>)
    requires CString(c) && i < |c| && Unread(a[..], c, i) && ValueShown(value, a[..], c)
    requires j == Skip(c, i, Blank) && c[j] != LT && c[j] != NUL
    modifies a
    ensures t == Skip(c, j, InRegion(Region.Data)) && j < t && ch == c[t] && (ch == LT || ch == NUL)
    ensures (o.trim ==> !IsWhitespace(c[j])) && span == DataSpan(c, if o.trim then j else i, t, o)
    ensures newValue == ValueAfter(value, span, o)
    ensures Kept(old(a[..]), a[..], i, ends) && Unread(a[..], c, t + 1) && SpanSealed(span, a[..], c, ends)
  {
    hide Skip, CString, Kept, Ended, SpanSealed, ValueShown, TrimEnd;
    DataEnd(c, i, j);
    var start := if o.trim then j else i;
    t := SkipPlain(a, start, Region.Data, o, c);
    var end := t;
    if o.trim { end := TrimEndAt(a, start, t, c); }
    span := Span(start, end - start);
    newValue := value;
    ValueNotEmpty(value, a[..], c);
    if !o.noElementValues {
      if value.None? || a[value.value.at] == NUL { newValue := Some(span); }
    }
    ch := a[t];
    SealOne(a[..], c, i, span, ends);
    UnreadAfter(a[..], c, i, end, t + 1, ends);
    Terminate(a, end, ends);
  }

  // ----- closing tags and what is only skipped -----

  /** The bytes of a span are still the original ones. */
  predicate Shown(x: Span, s: Text, c: Text) {
    x.End() <= |s| == |c| && forall k :: x.at <= k < x.End() ==> s[k] == c[k]
  }

  lemma ShownSlice(x: Span, s: Text, c: Text)
    requires Shown(x, s, c)
    ensures s[x.at..x.End()] == c[x.at..x.End()]
  {
  }

  lemma UnreadSlice(s: Text, c: Text, i: nat, e: nat)
    requires Unread(s, c, i) && i <= e <= |c|
    ensures |s| == |c| && s[i..e] == c[i..e]
  {
  }

  method CloseTagAt(a: array<byte>, i: nat, name: Span, o: Options, ghost c: Text) returns (r: Result<()>)
    requires CString(c) && 0 < i < |c| && c[i - 1] != NUL && name.End() <= i
    requires Unread(a[..], c, i) && Shown(name, a[..], c)
    ensures r == CloseTag(c, i, name, o)
  {
    hide Skip, CString, Unread, Shown;
    NulIsLast(c, i - 1);
    var e := SkipAt(a, i, NodeName, c);
    UnreadAfter(a[..], c, i, 0, e, false);
    if o.validateClosingTags {
      UnreadSlice(a[..], c, i, e);
      ShownSlice(name, a[..], c);
      var same := Compare(a, name, Span(i, e - i));
      assert a[name.at..name.End()] == a[..][name.at..name.End()] && a[i..e] == a[..][i..e];
      if !same { return Error(e); }
    }
    var f := SkipAt(a, e, Blank, c);
    UnreadAt(a[..], c, e, f);
    NulIsLast(c, f);
    if a[f] != GT { return Error(f); }
    return Ok((), f + 1);
  }

  /** parse_comment and parse_cdata: the terminator goes over the first byte of the closing. */
  method ClosedAt(a: array<byte>, i: nat, word: Text, keep: bool, ends: bool, ghost c: Text) returns (r: Result<Span>)
    requires CString(c) && i < |c| && Unread(a[..], c, i) && word in {COMMENT_CLOSE, CDATA_CLOSE, PI_CLOSE}
    modifies a
    ensures r == Closed(c, i, word) && Kept(old(a[..]), a[..], i, ends)
    ensures r.Ok? ==> Unread(a[..], c, r.next) && (keep ==> SpanSealed(r.value, a[..], c, ends))
  {
    hide Find, CString, Kept, Ended, SpanSealed, Unread;
    KeptNothing(a[..], i, ends);
    var e, found := FindAt(a, i, word, c);
    if !found { return Error(e); }
    ReadsRoom(c, e, word);
    UnreadAfter(a[..], c, i, e, e + |word|, ends);
    if keep {
      SealOne(a[..], c, i, Span(i, e - i), ends);
      Terminate(a, e, ends);
    }
    return Ok(Span(i, e - i), e + |word|);
  }

  // ----- nodes -----

  ghost function NodeSpans(node: Option<Node>): set<Span> {
    if node.Some? then Spans(node.value) else {}
  }

  /** The subset of "<!" nodes. */
  method BangAt(a: array<byte>, i: nat, o: Options, ends: bool, ghost c: Text) returns (r: Result<Option<Node>>)
    requires CString(c) && i < |c| && Unread(a[..], c, i) && c[i] == BANG
    modifies a
    ensures r == ParseBang(c, i, o) && Kept(old(a[..]), a[..], i, ends)
    ensures r.Ok? ==> Unread(a[..], c, r.next) && Sealed(NodeSpans(r.value), a[..], c, ends)
  {
    hide CString, Kept, Unread, Closed, SkipDoctype, Find, At, SpanSealed;
    ghost var s := a[..];
    KeptNothing(s, i, ends);
    NothingSealed(s, c, i, ends);
    NulIsLast(c, i);
    var sees := SeesAt(a, i, COMMENT_OPEN, c);
    if sees {
      ReadsRoom(c, i, COMMENT_OPEN);
      UnreadAfter(s, c, i, i, i + 3, ends);
      var x := ClosedAt(a, i + 3, COMMENT_CLOSE, o.commentNodes, ends, c);
      KeptEarlier(s, a[..], i, i + 3, ends);
      if x.Error? { return Error(x.at); }
      return Ok(if o.commentNodes then Some(Comment(x.value)) else None, x.next);
    }
    sees := SeesAt(a, i, CDATA_OPEN, c);
    if sees {
      ReadsRoom(c, i, CDATA_OPEN);
      UnreadAfter(s, c, i, i, i + 8, ends);
      var x := ClosedAt(a, i + 8, CDATA_CLOSE, !o.noDataNodes, ends, c);
      KeptEarlier(s, a[..], i, i + 8, ends);
      if x.Error? { return Error(x.at); }
      return Ok(if o.noDataNodes then None else Some(Cdata(x.value)), x.next);
    }
    r := DoctypeOrUnknownAt(a, i, c);
    if r.Ok? { UnreadAfter(s, c, i, i, r.next, ends); }
  }

  lemma NothingSealed(s: Text, c: Text, i: nat, ends: bool)
    requires Unread(s, c, i)
    ensures Sealed({}, s, c, ends)
  {
  }

  lemma KeptEarlier(was: Text, now: Text, i: nat, j: nat, ends: bool)
    requires Kept(was, now, j, ends) && i <= j
    ensures Kept(was, now, i, ends)
  {
  }

  /** Nothing is made of a document type or of an unknown "<!" node. */
  method DoctypeOrUnknownAt(a: array<byte>, i: nat, ghost c: Text) returns (r: Result<Option<Node>>)
    requires CString(c) && i < |c| && Unread(a[..], c, i) && c[i] == BANG
    requires !At(c, i, COMMENT_OPEN) && !At(c, i, CDATA_OPEN)
    ensures forall o :: r == ParseBang(c, i, o)
    ensures r.Ok? ==> r.value == None && i < r.next < |c|
  {
    hide CString, Unread, SkipDoctype, Find, At;
    NulIsLast(c, i);
    UnreadAt(a[..], c, i, i);
    var sees := SeesAt(a, i, DOCTYPE_OPEN, c);
    if sees {
      ReadsRoom(c, i, DOCTYPE_OPEN);
      UnreadAt(a[..], c, i, i + 8);
    }
    if sees && IsWhitespace(a[i + 8]) {
      NulIsLast(c, i + 8);
      UnreadAfter(a[..], c, i, i, i + 9, false);
      var d := SkipDoctypeAt(a, i + 9, c);
      return if d.Error? then Error(d.at) else Ok(None, d.next);
    }
    UnreadAfter(a[..], c, i, i, i + 1, false);
    var e, found := FindAt(a, i + 1, [GT], c);
    NulIsLast(c, e);
    return if found then Ok(None, e + 1) else Error(e);
  }

  // ----- contents -----

  function Cat(a: Content, b: Content): Content {
    Content(a.children + b.children, if a.value.Some? then a.value else b.value)
  }

  lemma JoinJoin(a: Content, b: Content, r: Result<Content>)
    ensures Join(a, Join(b, r)) == Join(Cat(a, b), r)
  {
    if r.Ok? { assert a.children + (b.children + r.value.children) == a.children + b.children + r.value.children; }
  }

  lemma JoinNothing(r: Result<Content>)
    ensures Join(Content([], None), r) == r
  {
    if r.Ok? { assert [] + r.value.children == r.value.children; }
  }

  lemma JoinEnd(a: Content, next: nat)
    ensures Join(a, Ok(Content([], None), next)) == Ok(a, next)
  {
    assert a.children + [] == a.children;
  }

  lemma CatSpans(a: Content, b: Content)
    ensures ContentSpans(Cat(a, b)) <= ContentSpans(a) + ContentSpans(b)
  {
    AllSpansJoin(a.children, b.children);
  }

  /** What has been read of the contents that began at `i`, up to `hi`; `s` is the text when they began. */
  ghost predicate Reading(s: Text, now: Text, c: Text, i: nat, hi: nat, acc: Content, ends: bool) {
    && i <= hi && Kept(s, now, i, ends) && Unread(now, c, hi)
    && Sealed(ContentSpans(acc), now, c, ends) && Within(ContentSpans(acc), i, hi)
  }

  lemma ReadingStart(s: Text, c: Text, i: nat, ends: bool)
    requires Unread(s, c, i)
    ensures Reading(s, s, c, i, i, Content([], None), ends)
  {
    assert ContentSpans(Content([], None)) == {};
  }

  lemma ReadingOn(s: Text, now: Text, c: Text, i: nat, hi: nat, more: nat, acc: Content, ends: bool)
    requires Reading(s, now, c, i, hi, acc, ends) && hi <= more <= |c|
    ensures Reading(s, now, c, i, more, acc, ends)
  {
  }

  lemma ReadingKept(s: Text, was: Text, now: Text, c: Text, i: nat, hi: nat, acc: Content, ends: bool)
    requires Reading(s, was, c, i, hi, acc, ends) && Kept(was, now, hi, ends)
    ensures Kept(s, now, i, ends) && Sealed(ContentSpans(acc), now, c, ends)
  {
    KeptTwice(s, was, now, i, hi, ends);
    SealedKept(ContentSpans(acc), was, now, c, i, hi, hi, ends);
  }

  lemma ReadingMore(s: Text, was: Text, now: Text, c: Text, i: nat, mid: nat, hi: nat, acc: Content, more: Content,
                    ends: bool)
    requires Reading(s, was, c, i, mid, acc, ends) && Kept(was, now, mid, ends) && mid <= hi && Unread(now, c, hi)
    requires Sealed(ContentSpans(more), now, c, ends) && Within(ContentSpans(more), mid, hi)
    ensures Reading(s, now, c, i, hi, Cat(acc, more), ends)
  {
    ReadingKept(s, was, now, c, i, mid, acc, ends);
    CatSpans(acc, more);
    hide ContentSpans, SpanSealed, Unread, Kept, Cat;
  }

  /** What the switch does at '<': the element is closed, or one more child (or nothing) has been read. */
  datatype Turned = Stop(at: nat) | Close(next: nat) | Child(node: Option<Node>, next: nat)

  /** The specification of one switch, in front of the rest. */
  ghost predicate Turns(c: Text, t: nat, name: Span, o: Options, m: Turned)
    requires CString(c) && t < |c| && name.End() <= t
  {
    match m
    case Stop(at) => ParseMarkup(c, t, name, o) == Error(at)
    case Close(next) => ParseMarkup(c, t, name, o) == Ok(Content([], None), next) && t < next < |c|
    case Child(node, next) =>
      t < next < |c| && ParseMarkup(c, t, name, o) == Join(Single(node), ParseContents(c, next, name, o))
  }

  lemma MarkupEnds(c: Text, t: nat, name: Span, o: Options)
    requires CString(c) && t < |c| && name.End() <= t
    ensures c[t] != LT ==> ParseMarkup(c, t, name, o) == Error(t)
    ensures c[t] == LT ==> t + 1 < |c|
    ensures c[t] == LT && c[t + 1] == SLASH ==> t + 2 < |c|
  {
    NulIsLast(c, t);
    if c[t] == LT { NulIsLast(c, t + 1); }
  }

  lemma MarkupCloses(c: Text, t: nat, name: Span, o: Options)
    requires CString(c) && t + 2 < |c| && name.End() <= t && c[t] == LT && c[t + 1] == SLASH
    ensures ParseMarkup(c, t, name, o) ==
            match CloseTag(c, t + 2, name, o)
            case Error(at) => Error(at)
            case Ok(_, next) => Ok(Content([], None), next)
  {
    hide CloseTag;
  }

  lemma MarkupChild(c: Text, t: nat, name: Span, o: Options)
    requires CString(c) && t + 1 < |c| && name.End() <= t && c[t] == LT && c[t + 1] != SLASH
    ensures var r := ParseNode(c, t + 1, o);
            ParseMarkup(c, t, name, o) ==
            if r.Error? then Error(r.at) else Join(Single(r.value), ParseContents(c, r.next, name, o))
  {
    hide ParseNode, ParseContents, Join, Single;
  }

  /** The switch of parse_node_contents on `ch`, which stood at `t`. */
  method MarkupAt(a: array<byte>, t: nat, ch: byte, name: Span, o: Options, ends: bool, ghost c: Text)
    returns (m: Turned)
    requires CString(c) && t < |c| && ch == c[t] && name.End() <= t && Unread(a[..], c, t + 1) && Shown(name, a[..], c)
    requires ch == LT || ch == NUL
    modifies a
    ensures Turns(c, t, name, o, m) && Kept(old(a[..]), a[..], t + 1, ends)
    ensures m.Close? ==> Unread(a[..], c, m.next)
    ensures m.Child? ==> Unread(a[..], c, m.next) && Sealed(NodeSpans(m.node), a[..], c, ends)
    ensures m.Child? ==> Within(NodeSpans(m.node), t + 1, m.next)
    decreases |c| - t, 0
  {
    hide CString, Kept, Unread, Shown, Sealed, Within, ParseMarkup, ParseNode, CloseTag, ParseContents, NodeSpans;
    KeptNothing(a[..], t + 1, ends);
    MarkupEnds(c, t, name, o);
    if ch == NUL { return Stop(t); }
    UnreadAt(a[..], c, t + 1, t + 1);
    if a[t + 1] == SLASH {
      NulIsLast(c, t + 1);
      MarkupCloses(c, t, name, o);
      UnreadAfter(a[..], c, t + 1, 0, t + 2, false);
      var r := CloseTagAt(a, t + 2, name, o, c);
      if r.Error? { return Stop(r.at); }
      UnreadAfter(a[..], c, t + 1, 0, r.next, false);
      return Close(r.next);
    }
    MarkupChild(c, t, name, o);
    var r := NodeAt(a, t + 1, o, ends, c);
    if r.Error? { return Stop(r.at); }
    ChildWithin(c, t + 1, o);
    return Child(r.value, r.next);
  }

  lemma ChildWithin(c: Text, i: nat, o: Options)
    requires CString(c) && i < |c|
    ensures var r := ParseNode(c, i, o); r.Ok? ==> Within(NodeSpans(r.value), i, r.next)
  {
    NodeWithin(c, i, o);
  }

  /** parse_node, behind '<'. */
  method NodeAt(a: array<byte>, i: nat, o: Options, ends: bool, ghost c: Text) returns (r: Result<Option<Node>>)
    requires CString(c) && i < |c| && Unread(a[..], c, i)
    modifies a
    ensures r == ParseNode(c, i, o) && Kept(old(a[..]), a[..], i, ends)
    ensures r.Ok? ==> Unread(a[..], c, r.next) && Sealed(NodeSpans(r.value), a[..], c, ends)
    decreases |c| - i, 3
  {
    hide CString, Kept, Unread, Sealed, ParseBang, ParseElement, Closed, Spans;
    ghost var s := a[..];
    UnreadAt(s, c, i, i);
    NulIsLast(c, i);
    if a[i] == QUESTION {
      UnreadAfter(s, c, i, i, i + 1, ends);
      var x := ClosedAt(a, i + 1, PI_CLOSE, false, ends, c);
      KeptEarlier(s, a[..], i, i + 1, ends);
      if x.Ok? { NothingSealed(a[..], c, x.next, ends); }
      return if x.Error? then Error(x.at) else Ok(None, x.next);
    }
    if a[i] == BANG {
      r := BangAt(a, i, o, ends, c);
      return;
    }
    var x := ElementAt(a, i, o, ends, c);
    return if x.Error? then Error(x.at) else Ok(Some(x.value), x.next);
  }

  /** From the top of the loop to the switch: the data in front of it, if any. */
  method DataTurn(a: array<byte>, text: nat, acc: Content, o: Options, ends: bool, ghost c: Text, ghost s: Text,
                  ghost i: nat,
                  ghost name: Span)
    returns (t: nat, ch: byte, now: Content)
    requires CString(c) && text < |c| && name.End() <= i
    requires Reading(s, a[..], c, i, text, acc, ends) && ValueShown(acc.value, a[..], c)
    modifies a
    ensures text <= t < |c| && ch == c[t] && (ch == LT || ch == NUL) && Reading(s, a[..], c, i, t + 1, now, ends)
    ensures Join(acc, ParseContents(c, text, name, o)) == Join(now, ParseMarkup(c, t, name, o))
    ensures now.value.Some? ==> now.value.value.size > 0
  {
    hide CString, Kept, Unread, Sealed, Within, ParseMarkup;
    hide Skip, SpanSealed, ContentSpans, Join, DataSpan, DataContent;
    t := SkipAt(a, text, Blank, c);
    UnreadAt(a[..], c, text, t);
    ch := a[t];
    if ch == LT || ch == NUL {
      ContentsPlain(c, text, name, o);
      ReadingOn(s, a[..], c, i, text, t + 1, acc, ends);
      now := acc;
      return;
    }
    ghost var j, was := t, a[..];
    var span, value;
    span, t, ch, value := DataAt(a, text, t, acc.value, o, ends, c);
    now := Content(acc.children + if o.noDataNodes then [] else [Node.Data(span)], value);
    ghost var more := DataContent(span, o);
    DataAdds(acc, span, o);
    ContentsData(c, text, name, o, acc, j, t, span);
    DataReading(a[..], c, text, t, span, o, ends);
    ReadingMore(s, was, a[..], c, i, text, t + 1, acc, more, ends);
  }

  lemma ContentsPlain(c: Text, i: nat, name: Span, o: Options)
    requires CString(c) && i < |c| && name.End() <= i
    ensures var t := Skip(c, i, Blank);
            c[t] == LT || c[t] == NUL ==> ParseContents(c, i, name, o) == ParseMarkup(c, t, name, o)
  {
    hide ParseMarkup;
  }

  lemma ContentsData(c: Text, i: nat, name: Span, o: Options, acc: Content, j: nat, t: nat, span: Span)
    requires CString(c) && i < |c| && name.End() <= i && j == Skip(c, i, Blank) && c[j] != LT && c[j] != NUL
    requires t == Skip(c, j, InRegion(Region.Data)) && j < t && (o.trim ==> !IsWhitespace(c[j]))
    requires span == DataSpan(c, if o.trim then j else i, t, o)
    ensures Join(acc, ParseContents(c, i, name, o)) == Join(Cat(acc, DataContent(span, o)), ParseMarkup(c, t, name, o))
  {
    hide ParseMarkup, Join, Cat, DataContent, DataSpan, Skip;
    DataEnd(c, i, j);
    JoinJoin(acc, DataContent(span, o), ParseMarkup(c, t, name, o));
  }

  lemma DataAdds(acc: Content, span: Span, o: Options)
    ensures Cat(acc, DataContent(span, o)) ==
            Content(acc.children + if o.noDataNodes then [] else [Node.Data(span)], ValueAfter(acc.value, span, o))
    ensures ValueAfter(acc.value, span, o).Some? ==>
              acc.value == ValueAfter(acc.value, span, o) || ValueAfter(acc.value, span, o).value == span
  {
  }

  lemma DataReading(s: Text, c: Text, i: nat, t: nat, span: Span, o: Options, ends: bool)
    requires SpanSealed(span, s, c, ends) && i <= span.at && span.End() <= t
    ensures Sealed(ContentSpans(DataContent(span, o)), s, c, ends)
    ensures Within(ContentSpans(DataContent(span, o)), i, t + 1)
  {
    DataSpans(span, o);
    hide ContentSpans, DataContent;
  }

  lemma ValueStands(s: Text, now: Text, c: Text, i: nat, hi: nat, acc: Content, ends: bool)
    requires Reading(s, now, c, i, hi, acc, ends) && (acc.value.Some? ==> acc.value.value.size > 0)
    ensures ValueShown(acc.value, now, c)
  {
    if acc.value.Some? {
      assert acc.value.value in ContentSpans(acc);
      assert SpanSealed(acc.value.value, now, c, ends);
    }
  }

  lemma NameStands(x: Span, was: Text, now: Text, c: Text, i: nat, ends: bool)
    requires Shown(x, was, c) && Kept(was, now, i, ends) && x.End() <= i
    ensures Shown(x, now, c)
  {
  }

  lemma ChildTurn(c: Text, t: nat, name: Span, o: Options, acc: Content, m: Turned)
    requires CString(c) && t < |c| && name.End() <= t && m.Child? && Turns(c, t, name, o, m)
    ensures Join(acc, ParseMarkup(c, t, name, o)) == Join(Cat(acc, Single(m.node)), ParseContents(c, m.next, name, o))
    ensures ContentSpans(Single(m.node)) == NodeSpans(m.node) && t < m.next < |c|
  {
    SingleSpans(m.node);
    JoinJoin(acc, Single(m.node), ParseContents(c, m.next, name, o));
    hide ParseMarkup, ParseContents, Join, Cat, Single, ContentSpans, Spans;
  }

  lemma ReadingMeans(s: Text, now: Text, c: Text, i: nat, hi: nat, acc: Content, ends: bool)
    requires Reading(s, now, c, i, hi, acc, ends)
    ensures Kept(s, now, i, ends) && Unread(now, c, hi)
  {
  }

  lemma StopTurn(c: Text, t: nat, name: Span, o: Options, acc: Content, m: Turned)
    requires CString(c) && t < |c| && name.End() <= t && m.Stop? && Turns(c, t, name, o, m)
    ensures Join(acc, ParseMarkup(c, t, name, o)) == Error(m.at)
  {
    hide ParseMarkup;
  }

  lemma CloseTurn(c: Text, t: nat, name: Span, o: Options, acc: Content, m: Turned)
    requires CString(c) && t < |c| && name.End() <= t && m.Close? && Turns(c, t, name, o, m)
    ensures Join(acc, ParseMarkup(c, t, name, o)) == Ok(acc, m.next) && t < m.next < |c|
  {
    hide ParseMarkup;
    JoinEnd(acc, m.next);
  }

  lemma SingleHasNoValue(acc: Content, node: Option<Node>)
    ensures Cat(acc, Single(node)) == Content(acc.children + Single(node).children, acc.value)
  {
  }

  /** parse_node_contents. */
  method ContentsAt(a: array<byte>, i: nat, name: Span, o: Options, ends: bool, ghost c: Text)
    returns (r: Result<Content>)
    requires CString(c) && i < |c| && name.End() <= i && Unread(a[..], c, i) && Shown(name, a[..], c)
    modifies a
    ensures r == ParseContents(c, i, name, o) && Kept(old(a[..]), a[..], i, ends)
    ensures r.Ok? ==> Unread(a[..], c, r.next) && Sealed(ContentSpans(r.value), a[..], c, ends)
    decreases |c| - i, 1
  {
    hide CString, Kept, Unread, Sealed, Within, ParseMarkup, ParseContents, ContentSpans;
    hide Join, Reading, Shown, ValueShown, Cat, Single, Turns;
    ghost var s := a[..];
    var text, acc := i, Content([], None);
    ReadingStart(s, c, i, ends);
    JoinNothing(ParseContents(c, i, name, o));
    while true
      invariant i <= text < |c| && Reading(s, a[..], c, i, text, acc, ends)
      invariant acc.value.Some? ==> acc.value.value.size > 0
      invariant ParseContents(c, i, name, o) == Join(acc, ParseContents(c, text, name, o))
      decreases |c| - text
    {
      ValueStands(s, a[..], c, i, text, acc, ends);
      var t, ch, now := DataTurn(a, text, acc, o, ends, c, s, i, name);
      ReadingMeans(s, a[..], c, i, t + 1, now, ends);
      NameStands(name, s, a[..], c, i, ends);
      ghost var was := a[..];
      var m := MarkupAt(a, t, ch, name, o, ends, c);
      ReadingKept(s, was, a[..], c, i, t + 1, now, ends);
      match m {
        case Stop(at) =>
          StopTurn(c, t, name, o, now, m);
          return Error(at);
        case Close(next) =>
          CloseTurn(c, t, name, o, now, m);
          return Ok(now, next);
        case Child(node, next) =>
          ChildTurn(c, t, name, o, now, m);
          ReadingMore(s, was, a[..], c, i, t + 1, next, now, Single(node), ends);
          SingleHasNoValue(now, node);
          acc := Content(now.children + Single(node).children, now.value);
          text := next;
      }
    }
  }

  // ----- elements -----

  /** The end of the start tag, and the contents. */
  method RestAt(a: array<byte>, p: nat, name: Span, o: Options, ends: bool, ghost c: Text) returns (r: Result<Content>)
    requires CString(c) && p < |c| && name.End() <= p && Unread(a[..], c, p) && Shown(name, a[..], c)
    modifies a
    ensures r == ParseRest(c, p, name, o) && Kept(old(a[..]), a[..], p, ends)
    ensures r.Ok? ==> Unread(a[..], c, r.next) && Sealed(ContentSpans(r.value), a[..], c, ends)
    decreases |c| - p, 1
  {
    hide CString, Kept, Unread, Sealed, ParseContents, ContentSpans, Shown;
    ghost var s := a[..];
    KeptNothing(s, p, ends);
    NulIsLast(c, p);
    UnreadAt(s, c, p, p);
    if a[p] == GT {
      UnreadAfter(s, c, p, p, p + 1, ends);
      r := ContentsAt(a, p + 1, name, o, ends, c);
      KeptEarlier(s, a[..], p, p + 1, ends);
      return;
    }
    if a[p] != SLASH { return Error(p); }
    UnreadAt(s, c, p, p + 1);
    NulIsLast(c, p + 1);
    if a[p + 1] != GT { return Error(p + 1); }
    UnreadAfter(s, c, p, p, p + 2, ends);
    NothingRead(s, c, p, ends);
    return Ok(Content([], None), p + 2);
  }

  lemma NothingRead(s: Text, c: Text, i: nat, ends: bool)
    requires Unread(s, c, i)
    ensures Sealed(ContentSpans(Content([], None)), s, c, ends)
  {
    assert ContentSpans(Content([], None)) == {};
  }

  /** Names end before the attributes begin. */
  lemma AttributesBehindName(c: Text, i: nat)
    requires CString(c) && i < |c|
    ensures var e := Skip(c, i, NodeName);
            var r := Attributes(c, Skip(c, e, Blank));
            r.Ok? ==> e <= r.next && Within(AttrSpans(r.value), e + 1, r.next)
  {
    var e := Skip(c, i, NodeName);
    AttributesWithin(c, Skip(c, e, Blank));
  }

  lemma ElementSealed(s: Text, was: Text, c: Text, i: nat, name: Span, attributes: seq<Attr>, content: Content,
                      p: nat, next: nat, ends: bool)
    requires name.at == i && name.End() < |c| && Shown(name, was, c) && Kept(s, was, i, ends) && Unread(was, c, next)
    requires Sealed(AttrSpans(attributes), was, c, ends) && Within(AttrSpans(attributes), name.End() + 1, p)
    requires Sealed(ContentSpans(content), was, c, ends)
    requires Within(ContentSpans(content), p + 1, next) && name.End() <= p < next
    ensures var now := Ended(was, name.End(), ends);
            && Kept(s, now, i, ends) && Unread(now, c, next)
            && Sealed(Spans(Element(name, attributes, content)), now, c, ends)
  {
    var now := Ended(was, name.End(), ends);
    forall x | x in Spans(Element(name, attributes, content)) ensures SpanSealed(x, now, c, ends) {
      if x in AttrSpans(attributes) + ContentSpans(content) {
        assert SpanSealed(x, was, c, ends);
      }
    }
  }

  lemma ElementFails(c: Text, i: nat, o: Options)
    requires CString(c) && i < |c|
    ensures var e := Skip(c, i, NodeName);
            var x := Attributes(c, Skip(c, e, Blank));
            && (e == i ==> ParseElement(c, i, o) == Error(i))
            && (e != i && x.Error? ==> ParseElement(c, i, o) == Error(x.at))
  {
    hide Skip, Attributes, ParseRest;
  }

  lemma ElementGoesOn(c: Text, i: nat, o: Options)
    requires CString(c) && i < |c| && Skip(c, i, NodeName) != i
    requires Attributes(c, Skip(c, Skip(c, i, NodeName), Blank)).Ok?
    ensures var e := Skip(c, i, NodeName);
            var x := Attributes(c, Skip(c, e, Blank));
            var name := Span(i, e - i);
            var r := ParseRest(c, x.next, name, o);
            ParseElement(c, i, o) == if r.Error? then Error(r.at) else Ok(Element(name, x.value, r.value), r.next)
  {
    hide Skip, Attributes, ParseRest;
  }

  /** parse_element: the name's terminator is written last. */
  method ElementAt(a: array<byte>, i: nat, o: Options, ends: bool, ghost c: Text) returns (r: Result<Node>)
    requires CString(c) && i < |c| && Unread(a[..], c, i)
    modifies a
    ensures r == ParseElement(c, i, o) && Kept(old(a[..]), a[..], i, ends)
    ensures r.Ok? ==> Unread(a[..], c, r.next) && Sealed(Spans(r.value), a[..], c, ends)
    decreases |c| - i, 2
  {
    hide CString, Kept, Unread, Sealed, Within, Skip, ParseRest;
    hide Attributes, ParseElement, ContentSpans, AttrSpans, Spans, Shown;
    ghost var s := a[..];
    KeptNothing(s, i, ends);
    ElementFails(c, i, o);
    var e := SkipAt(a, i, NodeName, c);
    if e == i { return Error(i); }
    UnreadAfter(s, c, i, i, e, ends);
    NameShown(s, c, i, e);
    var from := SkipAt(a, e, Blank, c);
    UnreadAfter(s, c, i, i, from, ends);
    var x := AttributesAt(a, from, o, ends, c);
    KeptEarlier(s, a[..], i, from, ends);
    if x.Error? { return Error(x.at); }
    var name := Span(i, e - i);
    NameStands(name, s, a[..], c, from, ends);
    AttributesBehindName(c, i);
    ElementGoesOn(c, i, o);
    r := ElementRestAt(a, i, name, x.value, x.next, o, ends, c, s);
  }

  lemma NameShown(s: Text, c: Text, i: nat, e: nat)
    requires Unread(s, c, i) && i <= e < |c|
    ensures Shown(Span(i, e - i), s, c)
  {
  }

  /** The part of parse_element behind the attributes. */
  method ElementRestAt(a: array<byte>, i: nat, name: Span, attributes: seq<Attr>, p: nat, o: Options, ends: bool,
                       ghost c: Text, ghost s: Text)
    returns (r: Result<Node>)
    requires CString(c) && p < |c| && name.at == i && name.End() <= p && Unread(a[..], c, p) && Shown(name, a[..], c)
    requires Kept(s, a[..], i, ends) && Sealed(AttrSpans(attributes), a[..], c, ends)
    requires Within(AttrSpans(attributes), name.End() + 1, p)
    modifies a
    ensures var x := ParseRest(c, p, name, o);
            r == (if x.Error? then Error(x.at) else Ok(Element(name, attributes, x.value), x.next))
    ensures Kept(s, a[..], i, ends)
    ensures r.Ok? ==> Unread(a[..], c, r.next) && Sealed(Spans(r.value), a[..], c, ends)
    decreases |c| - p, 2
  {
    hide CString, Kept, Unread, Sealed, Within, ParseRest, ContentSpans, AttrSpans, Spans, Shown, Ended;
    ghost var was := a[..];
    var x := RestAt(a, p, name, o, ends, c);
    KeptTwice(s, was, a[..], i, p, ends);
    if x.Error? { return Error(x.at); }
    RestWithin(c, p, name, o);
    SealedKept(AttrSpans(attributes), was, a[..], c, name.End() + 1, p, p, ends);
    NameStands(name, was, a[..], c, p, ends);
    ElementSealed(s, a[..], c, i, name, attributes, x.value, p, x.next, ends);
    Terminate(a, name.End(), ends);
    return Ok(Element(name, attributes, x.value), x.next);
  }

  // ----- documents -----

  function After(front: seq<Node>, r: Result<seq<Node>>): Result<seq<Node>> {
    match r
    case Error(at) => r
    case Ok(rest, next) => Ok(front + rest, next)
  }

  /** One top-level node more, on the side of the specification. */
  lemma DocumentTurn(c: Text, i: nat, j: nat, o: Options, front: seq<Node>)
    requires CString(c) && i < |c| && j == Skip(c, i, Blank)
    ensures c[j] == NUL ==> After(front, ParseDocument(c, i, o)) == Ok(front, j) && j == |c| - 1
    ensures c[j] != NUL && c[j] != LT ==> After(front, ParseDocument(c, i, o)) == Error(j)
    ensures c[j] == LT ==> j + 1 < |c|
    ensures c[j] == LT && ParseNode(c, j + 1, o).Error? ==>
              After(front, ParseDocument(c, i, o)) == Error(ParseNode(c, j + 1, o).at)
    ensures c[j] == LT && ParseNode(c, j + 1, o).Ok? ==>
              After(front, ParseDocument(c, i, o)) ==
              After(front + Single(ParseNode(c, j + 1, o).value).children,
                    ParseDocument(c, ParseNode(c, j + 1, o).next, o))
  {
    hide ParseNode, Single;
    NulIsLast(c, j);
    assert front + [] == front;
    if c[j] == LT && ParseNode(c, j + 1, o).Ok? {
      var rest := ParseDocument(c, ParseNode(c, j + 1, o).next, o);
      var first := Single(ParseNode(c, j + 1, o).value).children;
      if rest.Ok? { assert front + (first + rest.value) == front + first + rest.value; }
    }
  }

  /** The loop of parse. */
  method DocumentAt(a: array<byte>, i: nat, o: Options, ends: bool, ghost c: Text) returns (r: Result<seq<Node>>)
    requires CString(c) && i < |c| && Unread(a[..], c, i)
    modifies a
    ensures r == ParseDocument(c, i, o) && Kept(old(a[..]), a[..], i, ends)
    ensures r.Ok? ==> Sealed(AllSpans(r.value), a[..], c, ends)
  {
    hide CString, Kept, Unread, Sealed, Within, Skip, ParseNode;
    hide ParseDocument, ContentSpans, Reading, After, Single, NodeSpans, Cat;
    ghost var s := a[..];
    var text, list := i, [];
    ReadingStart(s, c, i, ends);
    AfterNothing(ParseDocument(c, i, o));
    while true
      invariant i <= text < |c| && Reading(s, a[..], c, i, text, Content(list, None), ends)
      invariant ParseDocument(c, i, o) == After(list, ParseDocument(c, text, o))
      decreases |c| - text
    {
      ReadingMeans(s, a[..], c, i, text, Content(list, None), ends);
      var j := SkipAt(a, text, Blank, c);
      DocumentTurn(c, text, j, o, list);
      UnreadAt(a[..], c, text, j);
      if a[j] == NUL {
        ReadingSealed(s, a[..], c, i, text, list, ends);
        return Ok(list, j);
      }
      if a[j] != LT { return Error(j); }
      ghost var was := a[..];
      ReadingOn(s, was, c, i, text, j + 1, Content(list, None), ends);
      UnreadAfter(was, c, text, 0, j + 1, ends);
      var x := NodeAt(a, j + 1, o, ends, c);
      ReadingKept(s, was, a[..], c, i, j + 1, Content(list, None), ends);
      if x.Error? { return Error(x.at); }
      ChildWithin(c, j + 1, o);
      SingleIs(x.value);
      ReadingMore(s, was, a[..], c, i, j + 1, x.next, Content(list, None), Single(x.value), ends);
      SingleHasNoValue(Content(list, None), x.value);
      text, list := x.next, list + Single(x.value).children;
    }
  }

  lemma SingleIs(node: Option<Node>)
    ensures ContentSpans(Single(node)) == NodeSpans(node)
  {
    SingleSpans(node);
  }

  lemma AfterNothing(r: Result<seq<Node>>)
    ensures After([], r) == r
  {
    if r.Ok? { assert [] + r.value == r.value; }
  }

  lemma ReadingSealed(s: Text, now: Text, c: Text, i: nat, hi: nat, list: seq<Node>, ends: bool)
    requires Reading(s, now, c, i, hi, Content(list, None), ends)
    ensures Sealed(AllSpans(list), now, c, ends)
  {
  }

  /** parse: `ends` is the absence of parse_no_string_terminators. */
  method Parse(a: array<byte>, o: Options, ends: bool) returns (r: Result<seq<Node>>)
    requires CString(a[..])
    modifies a
    ensures r == ParseText(old(a[..]), o)
    ensures r.Ok? ==> Sealed(AllSpans(r.value), a[..], old(a[..]), ends)
    ensures !ends ==> a[..] == old(a[..])
  {
    hide CString, Unread, ParseDocument, At;
    ghost var c := a[..];
    StartOf(c);
    var sees := SeesAt(a, 0, BOM, c);
    if sees {
      ReadsRoom(c, 0, BOM);
      UnreadAfter(c, c, 0, 0, 3, ends);
    }
    r := DocumentAt(a, if sees then 3 else 0, o, ends, c);
  }

  lemma StartOf(c: Text)
    requires CString(c)
    ensures |c| > 0 && Unread(c, c, 0)
  {
  }

  /**
   * Destructive and non-destructive parsing agree: with terminators the parse succeeds exactly when it does
   * without, with the same tree or the same error, and the names and values read the same in both buffers.
   */
  method ParseBoth(a: array<byte>, b: array<byte>, o: Options)
    returns (withEnds: Result<seq<Node>>, without: Result<seq<Node>>)
    requires CString(a[..]) && a[..] == b[..] && a != b
    modifies a, b
    ensures withEnds == without && b[..] == old(b[..])
    ensures withEnds.Ok? ==> forall x :: x in AllSpans(withEnds.value) ==>
              x.End() < a.Length == b.Length && a[x.at..x.End()] == b[x.at..x.End()] && a[x.End()] == NUL
  {
    ghost var c := a[..];
    withEnds := Parse(a, o, true);
    without := Parse(b, o, false);
    if withEnds.Ok? {
      forall x | x in AllSpans(withEnds.value)
        ensures x.End() < a.Length == b.Length && a[x.at..x.End()] == b[x.at..x.End()] && a[x.End()] == NUL
      {
        assert SpanSealed(x, a[..], c, true);
        SealedText(x, a[..], c);
        assert a[x.at..x.End()] == a[..][x.at..x.End()] && b[x.at..x.End()] == b[..][x.at..x.End()];
      }
    }
  }

  lemma SealedText(x: Span, s: Text, c: Text)
    requires SpanSealed(x, s, c, true)
    ensures s[x.at..x.End()] == c[x.at..x.End()] && s[x.End()] == NUL
  {
  }
}
