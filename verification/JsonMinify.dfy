/**
 * `cJSON_Minify`, and that it links the two print formats: minifying either print of a tree gives
 * exactly the unformatted print, string literals and their escapes untouched.
 */
module JsonMinify {
  import opened Bytes
  import opened JsonTree
  import opened JsonNumber
  import opened JsonString
  import opened JsonPrint
  import opened JsonParse

  predicate IsMinifyBlank(b: byte) { b == SPACE || b == TAB || b == CR || b == LF }

  /** The byte after the string literal whose first inner byte is at `i`; None if it runs over the NUL. */
  function StringEnd(c: Text, i: nat): (r: Option<nat>)
    requires Terminated(c) && i < |c|
    ensures r.Some? ==> i < r.value < |c|
    decreases |c| - i
  {
    if c[i] == NUL then None
    else if c[i] == QUOTE then Some(i + 1)
    else if c[i] == BACKSLASH then if c[i + 1] == NUL then None else StringEnd(c, i + 2)
    else StringEnd(c, i + 1)
  }

  function LineEnd(c: Text, i: nat): (e: nat)
    requires Terminated(c) && i < |c|
    ensures i <= e < |c| && (c[i] != NUL && c[i] != LF ==> i < e)
    decreases |c| - i
  {
    if c[i] == NUL || c[i] == LF then i else LineEnd(c, i + 1)
  }

  /** The byte after the closing star-slash found from `i` on; None if the comment runs over the NUL. */
  function CommentEnd(c: Text, i: nat): (r: Option<nat>)
    requires Terminated(c) && i < |c|
    ensures r.Some? ==> i < r.value < |c|
    decreases |c| - i
  {
    if c[i] == NUL then None
    else if c[i] == 42 && c[i + 1] == SLASH then Some(i + 2)
    else CommentEnd(c, i + 1)
  }

  function Glue(t: Text, r: Option<Text>): Option<Text> {
    if r.Some? then Some(t + r.value) else None
  }

  /** One turn of the loop at a byte that is not the NUL: what it writes, and where it goes on. */
  function Turn(c: Text, i: nat): (r: Option<(Text, nat)>)
    requires Terminated(c) && i < |c| && c[i] != NUL
    ensures r.Some? ==> i < r.value.1 < |c| && |r.value.0| <= r.value.1 - i
  {
    if IsMinifyBlank(c[i]) then Some(([], i + 1))
    else if c[i] == SLASH && c[i + 1] == SLASH then Some(([], LineEnd(c, i)))
    else if c[i] == SLASH && c[i + 1] == 42 then
      match CommentEnd(c, i)
      case None => None
      case Some(e) => Some(([], e))
    else if c[i] == QUOTE then
      match StringEnd(c, i + 1)
      case None => None
      case Some(e) => Some((c[i..e], e))
    else Some(([c[i]], i + 1))
  }

  /** What is written for the text from `i` on. None: an open string or comment would be read past the NUL. */
  function MinifyFrom(c: Text, i: nat): (r: Option<Text>)
    requires Terminated(c) && i < |c|
    ensures r.Some? ==> |r.value| <= |c| - 1 - i
    decreases |c| - i
  {
    if c[i] == NUL then Some([])
    else
      match Turn(c, i)
      case None => None
      case Some((piece, next)) => Glue(piece, MinifyFrom(c, next))
  }

  // ----- the pieces of printed text -----

  predicate IsPlain(t: Text) {
    forall k :: 0 <= k < |t| ==> t[k] > 32 && t[k] != SLASH && t[k] != QUOTE
  }

  lemma GlueTwice(a: Text, b: Text, r: Option<Text>)
    ensures Glue(a, Glue(b, r)) == Glue(a + b, r) && Glue([], r) == r
  {
    if r.Some? {
      assert a + (b + r.value) == a + b + r.value;
      assert [] + r.value == r.value;
    }
  }

  lemma {:induction false} MinifyPlain(c: Text, i: nat, t: Text)
    requires Terminated(c) && At(c, i, t) && i + |t| < |c| && IsPlain(t)
    ensures MinifyFrom(c, i) == Glue(t, MinifyFrom(c, i + |t|))
    decreases |t|
  {
    hide At;
    if t == [] {
      GlueTwice([], [], MinifyFrom(c, i));
    } else {
      AtHead(c, i, t);
      assert [t[0]] + t[1..] == t;
      MinifyPlain(c, i + 1, t[1..]);
      GlueTwice([t[0]], t[1..], MinifyFrom(c, i + |t|));
    }
  }

  lemma {:induction false} MinifyBlank(c: Text, i: nat, t: Text)
    requires Terminated(c) && At(c, i, t) && i + |t| < |c|
    requires forall k :: 0 <= k < |t| ==> IsMinifyBlank(t[k])
    ensures MinifyFrom(c, i) == MinifyFrom(c, i + |t|)
    decreases |t|
  {
    hide At;
    if t != [] {
      AtHead(c, i, t);
      MinifyBlank(c, i + 1, t[1..]);
      GlueTwice([], [], MinifyFrom(c, i + 1));
    }
  }

  lemma EscapeShape(b: byte)
    ensures |EscapeByte(b)| == 1 ==> EscapeByte(b) == [b] && b != QUOTE && b != BACKSLASH
    ensures |EscapeByte(b)| > 1 ==> EscapeByte(b)[0] == BACKSLASH && EscapeByte(b)[1] != NUL
    ensures |EscapeByte(b)| > 1 ==> forall k :: 2 <= k < |EscapeByte(b)| ==>
              EscapeByte(b)[k] > 32 && EscapeByte(b)[k] != QUOTE && EscapeByte(b)[k] != BACKSLASH
  {
  }

  lemma {:induction false} StringEndClean(c: Text, i: nat, t: Text)
    requires Terminated(c) && At(c, i, t) && i + |t| < |c|
    requires forall k :: 0 <= k < |t| ==> t[k] != NUL && t[k] != QUOTE && t[k] != BACKSLASH
    ensures StringEnd(c, i) == StringEnd(c, i + |t|)
    decreases |t|
  {
    hide At;
    if t != [] {
      AtHead(c, i, t);
      StringEndClean(c, i + 1, t[1..]);
    }
  }

  lemma StringEndOne(c: Text, i: nat, b: byte)
    requires Terminated(c) && b != NUL && At(c, i, EscapeByte(b)) && i + |EscapeByte(b)| < |c|
    ensures StringEnd(c, i) == StringEnd(c, i + |EscapeByte(b)|)
  {
    hide At;
    var e := EscapeByte(b);
    AtIndex(c, i, e, 0);
    EscapeShape(b);
    if |e| > 1 {
      AtIndex(c, i, e, 1);
      assert e == e[..2] + e[2..];
      AtConcat(c, i, e[..2], e[2..]);
      StringEndClean(c, i + 2, e[2..]);
    }
  }

  lemma {:induction false} StringEndEscaped(c: Text, i: nat, s: Text)
    requires Terminated(c) && NulFree(s) && At(c, i, Escape(s) + [QUOTE]) && i + |Escape(s)| + 1 < |c|
    ensures StringEnd(c, i) == Some(i + |Escape(s)| + 1)
    decreases |s|
  {
    hide At;
    if s == [] {
      AtIndex(c, i, Escape(s) + [QUOTE], 0);
    } else {
      var e, rest := EscapeByte(s[0]), Escape(s[1..]) + [QUOTE];
      assert Escape(s) + [QUOTE] == e + rest;
      AtConcat(c, i, e, rest);
      StringEndOne(c, i, s[0]);
      StringEndEscaped(c, i + |e|, s[1..]);
    }
  }

  lemma MinifyQuoted(c: Text, i: nat, s: Text)
    requires Terminated(c) && NulFree(s) && At(c, i, Quoted(s)) && i + |Quoted(s)| < |c|
    ensures MinifyFrom(c, i) == Glue(Quoted(s), MinifyFrom(c, i + |Quoted(s)|))
  {
    hide At, Escape;
    assert Quoted(s) == [QUOTE] + (Escape(s) + [QUOTE]);
    AtIndex(c, i, Quoted(s), 0);
    AtText(c, i, Quoted(s));
    AtConcat(c, i, [QUOTE], Escape(s) + [QUOTE]);
    StringEndEscaped(c, i + 1, s);
  }

  // ----- the induction over the tree -----

  /** Minifying `text` at `i` leaves `kept` in front of whatever the rest becomes. */
  predicate Leaves(c: Text, i: nat, text: Text, kept: Text)
    requires Terminated(c)
  {
    i + |text| < |c| && MinifyFrom(c, i) == Glue(kept, MinifyFrom(c, i + |text|))
  }

  lemma LeavesConcat(c: Text, i: nat, a: Text, ka: Text, b: Text, kb: Text)
    requires Terminated(c) && i + |a| < |c| && Leaves(c, i, a, ka) && Leaves(c, i + |a|, b, kb)
    ensures Leaves(c, i, a + b, ka + kb)
  {
    GlueTwice(ka, kb, MinifyFrom(c, i + |a + b|));
  }

  /** A separator: one kept byte, then blanks. */
  lemma LeavesSeparator(c: Text, i: nat, t: Text, kept: byte)
    requires Terminated(c) && At(c, i, t) && i + |t| < |c| && t != [] && t[0] == kept
    requires IsPlain([kept]) && forall k :: 1 <= k < |t| ==> IsMinifyBlank(t[k])
    ensures Leaves(c, i, t, [kept])
  {
    assert t == [kept] + t[1..];
    AtConcat(c, i, [kept], t[1..]);
    MinifyPlain(c, i, [kept]);
    MinifyBlank(c, i + 1, t[1..]);
  }

  lemma LeavesNone(c: Text, i: nat)
    requires Terminated(c) && i < |c|
    ensures Leaves(c, i, [], [])
  {
    GlueTwice([], [], MinifyFrom(c, i));
  }

  lemma LeavesNothing(c: Text, i: nat, t: Text)
    requires Terminated(c) && At(c, i, t) && i + |t| < |c|
    requires forall k :: 0 <= k < |t| ==> IsMinifyBlank(t[k])
    ensures Leaves(c, i, t, [])
  {
    MinifyBlank(c, i, t);
    GlueTwice([], [], MinifyFrom(c, i + |t|));
  }

  lemma {:induction false} MinifyPrinted(c: Text, i: nat, j: Json, depth: nat, format: bool)
    requires Terminated(c) && Printable(j)
    requires At(c, i, Print(j, depth, format)) && i + |Print(j, depth, format)| < |c|
    ensures Leaves(c, i, Print(j, depth, format), Print(j, depth, false))
    decreases j, 1
  {
    hide At, MinifyFrom;
    match j {
      case Null => MinifyPlain(c, i, NULL_TEXT);
      case False => MinifyPlain(c, i, FALSE_TEXT);
      case True => MinifyPlain(c, i, TRUE_TEXT);
      case Number(d) => MinifyPlain(c, i, IntegerText(d.mantissa));
      case String(t) => MinifyQuoted(c, i, t);
      case Array(items) => MinifyArray(c, i, items, depth, format);
      case Object(members) => MinifyObject(c, i, members, depth, format);
    }
  }

  lemma {:induction false} MinifyArray(c: Text, i: nat, items: seq<Json>, depth: nat, format: bool)
    requires Terminated(c) && PrintableItems(items)
    requires At(c, i, Print(Array(items), depth, format)) && i + |Print(Array(items), depth, format)| < |c|
    ensures Leaves(c, i, Print(Array(items), depth, format), Print(Array(items), depth, false))
    decreases items, 2
  {
    hide At, Leaves, PrintItems;
    var body, kept := PrintItems(items, depth, format), PrintItems(items, depth, false);
    AtConcat(c, i, [LBRACKET], body + [RBRACKET]);
    AtConcat(c, i + 1, body, [RBRACKET]);
    LeavesSeparator(c, i, [LBRACKET], LBRACKET);
    MinifyItems(c, i + 1, items, depth, format);
    LeavesSeparator(c, i + 1 + |body|, [RBRACKET], RBRACKET);
    LeavesConcat(c, i + 1, body, kept, [RBRACKET], [RBRACKET]);
    LeavesConcat(c, i, [LBRACKET], [LBRACKET], body + [RBRACKET], kept + [RBRACKET]);
  }

  lemma {:induction false} MinifyItems(c: Text, i: nat, items: seq<Json>, depth: nat, format: bool)
    requires Terminated(c) && PrintableItems(items)
    requires At(c, i, PrintItems(items, depth, format)) && i + |PrintItems(items, depth, format)| < |c|
    ensures Leaves(c, i, PrintItems(items, depth, format), PrintItems(items, depth, false))
    decreases items, 1
  {
    hide At, Leaves, Print, ItemsAfter, Printable;
    if items == [] {
      LeavesNone(c, i);
    } else {
      var t, kept := Print(items[0], depth + 1, format), Print(items[0], depth + 1, false);
      var after, keptAfter := ItemsAfter(items, depth, format), ItemsAfter(items, depth, false);
      AtConcat(c, i, t, after);
      MinifyPrinted(c, i, items[0], depth + 1, format);
      MinifyAfter(c, i + |t|, items, depth, format);
      LeavesConcat(c, i, t, kept, after, keptAfter);
    }
  }

  lemma {:induction false} MinifyAfter(c: Text, i: nat, items: seq<Json>, depth: nat, format: bool)
    requires Terminated(c) && PrintableItems(items) && items != []
    requires At(c, i, ItemsAfter(items, depth, format)) && i + |ItemsAfter(items, depth, format)| < |c|
    ensures Leaves(c, i, ItemsAfter(items, depth, format), ItemsAfter(items, depth, false))
    decreases items, 0
  {
    if |items| == 1 {
      LeavesNone(c, i);
    } else {
      hide At, Leaves, PrintItems;
      var comma, rest := Comma(format), PrintItems(items[1..], depth, format);
      AtConcat(c, i, comma, rest);
      LeavesSeparator(c, i, comma, COMMA);
      MinifyItems(c, i + |comma|, items[1..], depth, format);
      LeavesConcat(c, i, comma, [COMMA], rest, PrintItems(items[1..], depth, false));
    }
  }

  lemma {:induction false} MinifyObject(c: Text, i: nat, members: seq<Member>, depth: nat, format: bool)
    requires Terminated(c) && PrintableMembers(members)
    requires At(c, i, Print(Object(members), depth, format)) && i + |Print(Object(members), depth, format)| < |c|
    ensures Leaves(c, i, Print(Object(members), depth, format), Print(Object(members), depth, false))
    decreases members, 3
  {
    hide At, Leaves, PrintMembers;
    var open, body, kept := Opening(format), PrintMembers(members, depth, format), PrintMembers(members, depth, false);
    var indent := Indent(depth, format);
    AtConcat(c, i, open, body + (indent + [RBRACE]));
    AtConcat(c, i + |open|, body, indent + [RBRACE]);
    AtConcat(c, i + |open| + |body|, indent, [RBRACE]);
    LeavesSeparator(c, i, open, LBRACE);
    MinifyMembers(c, i + |open|, members, depth, format);
    LeavesNothing(c, i + |open| + |body|, indent);
    LeavesSeparator(c, i + |open| + |body| + |indent|, [RBRACE], RBRACE);
    LeavesConcat(c, i + |open| + |body|, indent, [], [RBRACE], [RBRACE]);
    LeavesConcat(c, i + |open|, body, kept, indent + [RBRACE], [] + [RBRACE]);
    LeavesConcat(c, i, open, [LBRACE], body + (indent + [RBRACE]), kept + ([] + [RBRACE]));
  }

  lemma {:induction false} MinifyMembers(c: Text, i: nat, members: seq<Member>, depth: nat, format: bool)
    requires Terminated(c) && PrintableMembers(members)
    requires At(c, i, PrintMembers(members, depth, format)) && i + |PrintMembers(members, depth, format)| < |c|
    ensures Leaves(c, i, PrintMembers(members, depth, format), PrintMembers(members, depth, false))
    decreases members, 2
  {
    if members == [] {
      LeavesNone(c, i);
    } else {
      hide At, Leaves, FromKey, Print, Indent;
      var indent := Indent(depth + 1, format);
      AtConcat(c, i, indent, FromKey(members, depth, format));
      LeavesNothing(c, i, indent);
      MinifyFromKey(c, i + |indent|, members, depth, format);
      LeavesConcat(c, i, indent, [], FromKey(members, depth, format), FromKey(members, depth, false));
    }
  }

  lemma {:induction false} MinifyFromKey(c: Text, i: nat, members: seq<Member>, depth: nat, format: bool)
    requires Terminated(c) && PrintableMembers(members) && members != []
    requires At(c, i, FromKey(members, depth, format)) && i + |FromKey(members, depth, format)| < |c|
    ensures Leaves(c, i, FromKey(members, depth, format), FromKey(members, depth, false))
    decreases members, 1
  {
    hide At, Leaves, Print, PrintMembers, Quoted, Printable, NulFree, MemberEnd, Colon;
    var m, last := members[0], |members| == 1;
    var head := Quoted(m.key) + (Colon(format) + Print(m.value, depth + 1, format));
    var keptHead := Quoted(m.key) + ([COLON] + Print(m.value, depth + 1, false));
    var tail := MemberEnd(last, format) + PrintMembers(members[1..], depth, format);
    var keptTail := MemberEnd(last, false) + PrintMembers(members[1..], depth, false);
    assert FromKey(members, depth, format) == head + tail;
    assert FromKey(members, depth, false) == keptHead + keptTail by {
      assert Colon(false) == [COLON] by { ColonKept(); }
    }
    AtConcat(c, i, head, tail);
    MinifyMember(c, i, m, depth + 1, format);
    MinifyTail(c, i + |head|, members, depth, format);
    LeavesConcat(c, i, head, keptHead, tail, keptTail);
  }

  lemma ColonKept()
    ensures Colon(false) == [COLON]
  {
  }

  lemma {:induction false} MinifyMember(c: Text, i: nat, m: Member, depth: nat, format: bool)
    requires Terminated(c) && NulFree(m.key) && Printable(m.value)
    requires var t := Quoted(m.key) + (Colon(format) + Print(m.value, depth, format)); At(c, i, t) && i + |t| < |c|
    ensures Leaves(c, i, Quoted(m.key) + (Colon(format) + Print(m.value, depth, format)),
                   Quoted(m.key) + ([COLON] + Print(m.value, depth, false)))
    decreases m.value, 2
  {
    hide At, Leaves, Print, Quoted, Printable, NulFree;
    var key, colon, value := Quoted(m.key), Colon(format), Print(m.value, depth, format);
    AtConcat(c, i, key, colon + value);
    AtConcat(c, i + |key|, colon, value);
    LeavesKey(c, i, m.key);
    LeavesSeparator(c, i + |key|, colon, COLON);
    MinifyPrinted(c, i + |key| + |colon|, m.value, depth, format);
    LeavesConcat(c, i + |key|, colon, [COLON], value, Print(m.value, depth, false));
    LeavesConcat(c, i, key, key, colon + value, [COLON] + Print(m.value, depth, false));
  }

  lemma {:induction false} MinifyTail(c: Text, i: nat, members: seq<Member>, depth: nat, format: bool)
    requires Terminated(c) && PrintableMembers(members) && members != []
    requires var t := MemberEnd(|members| == 1, format) + PrintMembers(members[1..], depth, format);
             At(c, i, t) && i + |t| < |c|
    ensures Leaves(c, i, MemberEnd(|members| == 1, format) + PrintMembers(members[1..], depth, format),
                   MemberEnd(|members| == 1, false) + PrintMembers(members[1..], depth, false))
    decreases members, 0
  {
    hide At, Leaves, PrintMembers, Printable, MemberEnd;
    var end, rest := MemberEnd(|members| == 1, format), PrintMembers(members[1..], depth, format);
    AtConcat(c, i, end, rest);
    LeavesMemberEnd(c, i, |members| == 1, format);
    MinifyMembers(c, i + |end|, members[1..], depth, format);
    LeavesConcat(c, i, end, MemberEnd(|members| == 1, false), rest, PrintMembers(members[1..], depth, false));
  }

  lemma LeavesKey(c: Text, i: nat, s: Text)
    requires Terminated(c) && NulFree(s) && At(c, i, Quoted(s)) && i + |Quoted(s)| < |c|
    ensures Leaves(c, i, Quoted(s), Quoted(s))
  {
    MinifyQuoted(c, i, s);
  }

  lemma LeavesMemberEnd(c: Text, i: nat, last: bool, format: bool)
    requires Terminated(c) && At(c, i, MemberEnd(last, format)) && i + |MemberEnd(last, format)| < |c|
    ensures Leaves(c, i, MemberEnd(last, format), MemberEnd(last, false))
  {
    assert MemberEnd(false, false) == [COMMA] && MemberEnd(true, false) == [];
    if last {
      LeavesNothing(c, i, MemberEnd(last, format));
    } else {
      LeavesSeparator(c, i, MemberEnd(last, format), COMMA);
    }
  }

  /** cJSON_Minify of either print of a tree is its unformatted print. */
  lemma MinifyLinksFormats(j: Json, format: bool)
    requires Printable(j)
    ensures MinifyFrom(Print(j, 0, format) + [NUL], 0) == Some(Print(j, 0, false))
  {
    var t := Print(j, 0, format);
    assert (t + [NUL])[0..|t|] == t;
    MinifyPrinted(t + [NUL], 0, j, 0, format);
    assert Print(j, 0, false) + [] == Print(j, 0, false);
  }

  // ----- the routine itself -----

  /** The buffer holds `m`, then the original text where it was. */
  predicate Layout(s: Text, m: Text, c: Text) {
    && |m| <= |s| == |c|
    && (forall k :: 0 <= k < |m| ==> s[k] == m[k])
    && (forall k :: |m| <= k < |s| ==> s[k] == c[k])
  }

  lemma LayoutClosed(s: Text, m: Text, c: Text)
    requires Layout(s, m, c) && |m| < |s|
    ensures s[|m| := NUL] == m + [NUL] + c[|m| + 1..]
  {
  }

  lemma LayoutAt(s: Text, m: Text, c: Text, i: nat)
    requires Layout(s, m, c) && |m| <= i < |c|
    ensures s[i] == c[i]
  {
  }

  /** What the loop of CopyString relies on. */
  lemma StringEndStep(c: Text, i: nat)
    requires Terminated(c) && i < |c|
    ensures c[i] == NUL ==> StringEnd(c, i) == None
    ensures c[i] != NUL ==> i + 1 < |c|
    ensures c[i] == QUOTE ==> StringEnd(c, i) == Some(i + 1)
    ensures c[i] == BACKSLASH ==>
              if c[i + 1] == NUL then StringEnd(c, i) == None
              else i + 2 < |c| && StringEnd(c, i + 2) == StringEnd(c, i)
    ensures c[i] !in {NUL, QUOTE, BACKSLASH} ==> StringEnd(c, i + 1) == StringEnd(c, i)
  {
  }

  /** Copies the string literal at `from` down to `into`, escapes and all; not `inside` where it reads past the NUL. */
  method CopyString(json: array<byte>, from: nat, into: nat, ghost c: Text, ghost m: Text)
    returns (i: nat, o: nat, inside: bool)
    requires Terminated(c) && |m| == into <= from < |c| && Layout(json[..], m, c)
    requires c[from] == QUOTE
    modifies json
    ensures inside <==> StringEnd(c, from + 1).Some?
    ensures inside ==> StringEnd(c, from + 1) == Some(i) && o == into + (i - from)
    ensures inside ==> Layout(json[..], m + c[from..i], c)
  {
    hide Layout, StringEnd;
    assert m + c[from..from] == m;
    inside := true;
    i, o := CopyByte(json, from, into, from, c, m);
    while json[i] != NUL && json[i] != QUOTE
      invariant inside && from < i < |c| && i - o == from - into && StringEnd(c, i) == StringEnd(c, from + 1)
      invariant Layout(json[..], m + c[from..i], c) && json[i] == c[i]
      decreases |c| - i
    {
      StringEndStep(c, i);
      if json[i] == BACKSLASH {
        i, o := CopyByte(json, i, o, from, c, m);
        if json[i] == NUL { return i, o, false; }
      }
      i, o := CopyByte(json, i, o, from, c, m);
    }
    StringEndStep(c, i);
    if json[i] == NUL { return i, o, false; }
    i, o := CopyByte(json, i, o, from, c, m);
  }

  /** `*into++ = *json++` inside a string literal that began at `from`. */
  method CopyByte(json: array<byte>, i: nat, o: nat, ghost from: nat, ghost c: Text, ghost m: Text)
    returns (j: nat, p: nat)
    requires from <= i < |c| && |m| + (i - from) == o <= i && Layout(json[..], m + c[from..i], c)
    modifies json
    ensures j == i + 1 && p == o + 1 && Layout(json[..], m + c[from..j], c)
    ensures j < |c| ==> json[j] == c[j]
  {
    assert c[from..i + 1] == c[from..i] + [c[i]];
    ghost var was := json[..];
    json[o] := json[i];
    assert json[..] == was[o := c[i]];
    j, p := i + 1, o + 1;
  }

  /** The double-slash comment at `from`, to the end of its line. */
  method SkipLine(json: array<byte>, from: nat, ghost c: Text, ghost m: Text) returns (i: nat)
    requires Terminated(c) && |m| <= from < |c| && Layout(json[..], m, c)
    ensures i == LineEnd(c, from)
  {
    i := from;
    while json[..][i] != NUL && json[..][i] != LF
      invariant from <= i < |c| && LineEnd(c, from) == LineEnd(c, i)
      decreases |c| - i
    {
      i := i + 1;
    }
  }

  /** The multi-line comment at `from`, to the byte after its close; not `inside` where that lies past the NUL. */
  method SkipComment(json: array<byte>, from: nat, ghost c: Text, ghost m: Text) returns (i: nat, inside: bool)
    requires Terminated(c) && |m| <= from < |c| && Layout(json[..], m, c)
    ensures CommentEnd(c, from) == if inside then Some(i) else None
  {
    i := from;
    while json[..][i] != NUL && !(json[..][i] == 42 && json[..][i + 1] == SLASH)
      invariant from <= i < |c| && CommentEnd(c, from) == CommentEnd(c, i)
      decreases |c| - i
    {
      i := i + 1;
    }
    inside := json[..][i] != NUL;
    i := i + 2;
  }

  /** One turn of the loop: `piece` is what it wrote. */
  method MinifyTurn(json: array<byte>, i: nat, o: nat, ghost c: Text, ghost m: Text)
    returns (j: nat, p: nat, inside: bool, ghost piece: Text)
    requires Terminated(c) && |m| == o <= i < |c| && Layout(json[..], m, c)
    requires c[i] != NUL
    modifies json
    ensures inside <==> Turn(c, i).Some?
    ensures inside ==> Turn(c, i) == Some((piece, j)) && p == o + |piece| && Layout(json[..], m + piece, c)
  {
    assert json[i] == json[..][i] && json[i + 1] == json[..][i + 1];
    piece, inside := [], true;
    assert m + piece == m;
    if IsMinifyBlank(json[i]) {
      j, p := i + 1, o;
    } else if json[i] == SLASH && json[i + 1] == SLASH {
      p := o;
      j := SkipLine(json, i, c, m);
    } else if json[i] == SLASH && json[i + 1] == 42 {
      p := o;
      j, inside := SkipComment(json, i, c, m);
    } else if json[i] == QUOTE {
      j, p, inside := CopyString(json, i, o, c, m);
      if inside { piece := c[i..j]; }
    } else {
      assert m + c[i..i] == m;
      j, p := CopyByte(json, i, o, i, c, m);
      piece := c[i..i + 1];
      assert piece == [c[i]];
    }
  }

  /**
   * cJSON_Minify, in place: the write position never passes the read position. Not `inside` exactly when a string
   * or a comment is open at the NUL, which the code then reads past.
   */
  method Minify(json: array<byte>) returns (inside: bool)
    requires Terminated(json[..])
    modifies json
    ensures inside <==> MinifyFrom(old(json[..]), 0).Some?
    ensures inside ==>
              var m := MinifyFrom(old(json[..]), 0).value;
              json[..] == m + [NUL] + old(json[|m| + 1..])
  {
    hide Layout;
    ghost var c := json[..];
    ghost var m: Text := [];
    var i, o := 0, 0;
    Start(c);
    while json[i] != NUL
      invariant o <= i < json.Length == |c| && |m| == o && Layout(json[..], m, c)
      invariant MinifyFrom(c, 0) == Glue(m, MinifyFrom(c, i))
      decreases json.Length - i
    {
      ghost var piece;
      LayoutAt(json[..], m, c, i);
      i, o, inside, piece := MinifyTurn(json, i, o, c, m);
      if !inside { return; }
      GlueTwice(m, piece, MinifyFrom(c, i));
      m := m + piece;
    }
    inside := true;
    LayoutAt(json[..], m, c, i);
    assert m + [] == m;
    LayoutClosed(json[..], m, c);
    json[o] := NUL;
  }

  lemma Start(c: Text)
    requires Terminated(c)
    ensures Layout(c, [], c) && MinifyFrom(c, 0) == Glue([], MinifyFrom(c, 0))
  {
    GlueTwice([], [], MinifyFrom(c, 0));
  }
}
