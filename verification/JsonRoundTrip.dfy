/**
 * Printing and parsing are inverse: for every printable tree, depth and format, parsing the printed
 * text wherever it stands consumes exactly that text and rebuilds the tree.
 */
module JsonRoundTrip {
  import opened Bytes
  import opened JsonTree
  import opened JsonNumber
  import opened JsonString
  import opened JsonPrint
  import opened JsonParse

  /**
   * What may follow a value: no byte a number could swallow. Holds of a separator, a bracket, a newline and
   * the NUL.
   */
  predicate Follows(c: Text, o: nat) {
    o < |c| && !IsNumberByte(c[o])
  }

  predicate Blank(t: Text) { forall k :: 0 <= k < |t| ==> t[k] <= 32 }

  lemma SkipNothing(c: Text, o: nat)
    requires Terminated(c) && o < |c| && c[o] > 32
    ensures SkipWhitespace(c, o) == o
  {
  }

  lemma {:induction false} SkipBlanksOver(c: Text, o: nat, t: Text)
    requires At(c, o, t) && Blank(t)
    ensures SkipBlanks(c, o) == SkipBlanks(c, o + |t|)
    decreases |t|
  {
    if t != [] {
      AtIndex(c, o, t, 0);
      assert t == t[..1] + t[1..];
      AtConcat(c, o, t[..1], t[1..]);
      SkipBlanksOver(c, o + 1, t[1..]);
    }
  }

  /** Blank text in front of a visible byte is skipped, no more and no less. */
  lemma SkipOver(c: Text, o: nat, t: Text)
    requires Terminated(c) && At(c, o, t) && Blank(t)
    requires o + |t| < |c| && c[o + |t|] > 32
    ensures SkipWhitespace(c, o) == o + |t|
  {
    SkipBlanksOver(c, o, t);
  }

  lemma {:induction false} ParsePrinted(c: Text, o: nat, j: Json, depth: nat, format: bool)
    requires Terminated(c) && Printable(j) && At(c, o, Print(j, depth, format))
    requires Follows(c, o + |Print(j, depth, format)|)
    ensures ParseValue(c, o) == Parsed(j, o + |Print(j, depth, format)|)
    decreases j, 1
  {
    var t := Print(j, depth, format);
    PrintFirst(j, depth, format);
    AtIndex(c, o, t, 0);
    match j {
      case Null =>
      case False => AtIndex(c, o, FALSE_TEXT, 0);
      case True => NotFalse(c, o);
      case Number(d) => ParsePrintedNumber(c, o, d); NoWord(c, o);
      case String(s) => ParseQuoted(c, o, s); NoWord(c, o);
      case Array(items) => ParsePrintedArray(c, o, items, depth, format); NoWord(c, o);
      case Object(members) => ParsePrintedObject(c, o, members, depth, format); NoWord(c, o);
    }
  }

  lemma NoWord(c: Text, o: nat)
    requires o < |c| && c[o] != NULL_TEXT[0] && c[o] != FALSE_TEXT[0] && c[o] != TRUE_TEXT[0]
    ensures !At(c, o, NULL_TEXT) && !At(c, o, FALSE_TEXT) && !At(c, o, TRUE_TEXT)
  {
    ReadsFirst(c, o, NULL_TEXT);
    ReadsFirst(c, o, FALSE_TEXT);
    ReadsFirst(c, o, TRUE_TEXT);
  }

  lemma ReadsFirst(c: Text, o: nat, word: Text)
    requires word != []
    ensures At(c, o, word) ==> c[o] == word[0]
  {
    if At(c, o, word) { AtIndex(c, o, word, 0); }
  }

  lemma NotFalse(c: Text, o: nat)
    requires At(c, o, TRUE_TEXT)
    ensures !At(c, o, NULL_TEXT) && !At(c, o, FALSE_TEXT)
  {
    AtIndex(c, o, TRUE_TEXT, 0);
    ReadsFirst(c, o, NULL_TEXT);
    ReadsFirst(c, o, FALSE_TEXT);
  }

  // ----- arrays -----

  lemma {:induction false} ParsePrintedArray(c: Text, o: nat, items: seq<Json>, depth: nat, format: bool)
    requires Terminated(c) && PrintableItems(items)
    requires At(c, o, [LBRACKET] + (PrintItems(items, depth, format) + [RBRACKET]))
    ensures c[o] == LBRACKET
    ensures ParseArray(c, o) == Parsed(items, o + 2 + |PrintItems(items, depth, format)|)
    decreases items, 2
  {
    var t := PrintItems(items, depth, format);
    AtConcat(c, o, [LBRACKET], t + [RBRACKET]);
    AtIndex(c, o, [LBRACKET], 0);
    AtIndex(c, o + 1, t + [RBRACKET], 0);
    if items != [] {
      PrintFirst(items[0], depth + 1, format);
      SkipNothing(c, o + 1);
      ParsePrintedItems(c, o, [], items, depth, format);
    } else {
      SkipNothing(c, o + 1);
    }
  }

  /** `blank` is the space a formatted comma leaves in front of the element. */
  lemma {:induction false} ParsePrintedItems(c: Text, o: nat, blank: Text, items: seq<Json>, depth: nat, format: bool)
    requires Terminated(c) && PrintableItems(items) && items != [] && Blank(blank)
    requires At(c, o + 1, blank) && At(c, o + 1 + |blank|, PrintItems(items, depth, format) + [RBRACKET])
    ensures ParseItems(c, o) == Parsed(items, o + 2 + |blank| + |PrintItems(items, depth, format)|)
    decreases items, 1
  {
    hide At, ParseValue, SkipWhitespace, Printable, Print, ItemsAfter;
    var start, t, rest := o + 1 + |blank|, Print(items[0], depth + 1, format), ItemsAfter(items, depth, format);
    assert PrintItems(items, depth, format) + [RBRACKET] == t + (rest + [RBRACKET]);
    AtConcat(c, start, t, rest + [RBRACKET]);
    PrintFirst(items[0], depth + 1, format);
    AtIndex(c, start, t, 0);
    SkipOver(c, o + 1, blank);
    var end := start + |t|;
    AtIndex(c, end, rest + [RBRACKET], 0);
    AfterFirst(items, depth, format);
    ParsePrinted(c, start, items[0], depth + 1, format);
    SkipNothing(c, end);
    if |items| == 1 {
      assert items == [items[0]];
    } else {
      ParsePrintedMoreItems(c, end, items[1..], depth, format);
      assert items == [items[0]] + items[1..];
    }
  }

  /** The elements after a comma. */
  lemma {:induction false} ParsePrintedMoreItems(c: Text, o: nat, items: seq<Json>, depth: nat, format: bool)
    requires Terminated(c) && PrintableItems(items) && items != []
    requires At(c, o, Comma(format) + PrintItems(items, depth, format) + [RBRACKET])
    ensures ParseItems(c, o) == Parsed(items, o + |Comma(format)| + |PrintItems(items, depth, format)| + 1)
    decreases items, 2
  {
    hide At, ParseItems, Printable, PrintItems;
    var blank, tail := Comma(format)[1..], PrintItems(items, depth, format) + [RBRACKET];
    assert Comma(format) + PrintItems(items, depth, format) + [RBRACKET] == [COMMA] + (blank + tail);
    AtConcat(c, o, [COMMA], blank + tail);
    AtConcat(c, o + 1, blank, tail);
    ParsePrintedItems(c, o, blank, items, depth, format);
  }

  // ----- objects -----

  lemma {:induction false} ParsePrintedObject(c: Text, o: nat, members: seq<Member>, depth: nat, format: bool)
    requires Terminated(c) && PrintableMembers(members)
    requires At(c, o, Opening(format) + (PrintMembers(members, depth, format) + (Indent(depth, format) + [RBRACE])))
    ensures c[o] == LBRACE
    ensures ParseObject(c, o) ==
            Parsed(members,
                   o + |Opening(format)| + |PrintMembers(members, depth, format)| + |Indent(depth, format)| + 1)
    decreases members, 3
  {
    hide At, ParseMembers, SkipWhitespace, Printable, FromKey, Indent, PrintableMembers;
    var open, close := Opening(format), Indent(depth, format) + [RBRACE];
    var body := PrintMembers(members, depth, format) + close;
    AtConcat(c, o, open, body);
    AtIndex(c, o, open, 0);
    var newline := open[1..];
    assert open == [LBRACE] + newline;
    AtConcat(c, o, [LBRACE], newline);
    if members == [] {
      assert body == close;
      SkipTwo(c, o + 1, newline, Indent(depth, format), [RBRACE], depth, format);
    } else {
      var indent, rest := Indent(depth + 1, format), FromKey(members, depth, format) + close;
      KeyFirst(members, depth, format);
      assert body == indent + rest;
      AtConcat(c, o + |open|, indent, rest);
      SkipTwo(c, o + 1, newline, indent, rest, depth + 1, format);
      var first := o + |open| + |indent|;
      SkipNothing(c, first);
      AtNothing(c, first);
      ParsePrintedMembers(c, first - 1, [], members, depth, format);
    }
  }

  lemma KeyFirst(members: seq<Member>, depth: nat, format: bool)
    requires PrintableMembers(members) && members != []
    ensures FromKey(members, depth, format) != [] && FromKey(members, depth, format)[0] == QUOTE
  {
  }

  /** A newline and an indent lead to the first byte of `rest`. */
  lemma SkipTwo(c: Text, o: nat, newline: Text, indent: Text, rest: Text, depth: nat, format: bool)
    requires Terminated(c) && Blank(newline) && indent == Indent(depth, format) && rest != [] && rest[0] > 32
    requires At(c, o, newline) && At(c, o + |newline|, indent + rest)
    ensures SkipWhitespace(c, o) == o + |newline| + |indent|
    ensures c[o + |newline| + |indent|] == rest[0]
  {
    hide SkipWhitespace;
    AtConcat(c, o + |newline|, indent, rest);
    AtIndex(c, o + |newline| + |indent|, rest, 0);
    assert c[o..o + |newline + indent|] == newline + indent;
    SkipOver(c, o, newline + indent);
  }

  /** The steps of parse_object for one member, from what each call leaves. */
  lemma MemberSteps(c: Text, o: nat, m: Member, key: nat, afterKey: nat, value: nat, end: nat)
    requires Terminated(c) && o + 1 < |c| && key < afterKey < value < |c|
    requires SkipWhitespace(c, o + 1) == key && ParseString(c, key) == Parsed(m.key, afterKey)
    requires SkipWhitespace(c, afterKey) == afterKey && c[afterKey] == COLON
    requires SkipWhitespace(c, afterKey + 1) == value && ParseValue(c, value) == Parsed(m.value, end)
    ensures ParseMember(c, o) == Parsed(m, end)
  {
  }

  /** One printed member: from `blank` in front of the key to the end of the value. */
  lemma {:induction false} ParsePrintedMember(c: Text, o: nat, blank: Text, m: Member, depth: nat, format: bool)
    requires Terminated(c) && NulFree(m.key) && Printable(m.value) && Blank(blank)
    requires At(c, o + 1, blank)
    requires At(c, o + 1 + |blank|, Quoted(m.key) + (Colon(format) + Print(m.value, depth, format)))
    requires var end := o + 1 + |blank| + |Quoted(m.key)| + |Colon(format)| + |Print(m.value, depth, format)|;
             Follows(c, end)
    ensures ParseMember(c, o) ==
            Parsed(m, o + 1 + |blank| + |Quoted(m.key)| + |Colon(format)| + |Print(m.value, depth, format)|)
    decreases m.value, 2
  {
    hide At, ParseMember, ParseValue, ParseString, SkipWhitespace, Printable, Print, NulFree, Quoted, Colon, Follows;
    var start, key, colon, value := o + 1 + |blank|, Quoted(m.key), Colon(format), Print(m.value, depth, format);
    var v := start + |key| + |colon|;
    ColonShape(format);
    AtConcat(c, start, key, colon + value);
    AtConcat(c, start + |key|, colon, value);
    QuotedShape(m.key);
    AtIndex(c, start, key, 0);
    SkipOver(c, o + 1, blank);
    ParseQuoted(c, start, m.key);
    AtHead(c, start + |key|, colon);
    SkipNothing(c, start + |key|);
    PrintFirst(m.value, depth, format);
    AtIndex(c, v, value, 0);
    SkipOver(c, start + |key| + 1, colon[1..]);
    ParsePrinted(c, v, m.value, depth, format);
    MemberSteps(c, o, m, start, start + |key|, v, v + |value|);
  }

  lemma {:induction false} ParsePrintedMembers(c: Text, o: nat, blank: Text, members: seq<Member>, depth: nat,
                                               format: bool)
    requires Terminated(c) && PrintableMembers(members) && members != [] && Blank(blank)
    requires At(c, o + 1, blank)
    requires At(c, o + 1 + |blank|, FromKey(members, depth, format) + (Indent(depth, format) + [RBRACE]))
    ensures ParseMembers(c, o) ==
            Parsed(members, o + 2 + |blank| + |FromKey(members, depth, format)| + |Indent(depth, format)|)
    decreases members, 1
  {
    hide At, ParseMember, SkipWhitespace, Printable, Print, Quoted, NulFree, Indent, PrintMembers, Colon, FromKey;
    hide Blank, Terminated;
    var m, start, close := members[0], o + 1 + |blank|, Indent(depth, format) + [RBRACE];
    var head := Quoted(m.key) + (Colon(format) + Print(m.value, depth + 1, format));
    var more := PrintMembers(members[1..], depth, format) + close;
    var tail := MemberEnd(|members| == 1, format) + more;
    FromKeyShape(members, depth, format, close);
    AtConcat(c, start, head, tail);
    var end := start + |head|;
    if |members| == 1 {
      assert members == [m];
      NoMembers(members[1..], depth, format);
      assert more == close;
      LastMember(c, end, depth, format);
      ParsePrintedMember(c, o, blank, m, depth + 1, format);
    } else {
      AtIndex(c, end, tail, 0);
      ParsePrintedMember(c, o, blank, m, depth + 1, format);
      SkipNothing(c, end);
      ParsePrintedMoreMembers(c, end, members[1..], depth, format);
      assert members == [m] + members[1..];
    }
  }

  /** The first member, what follows it on its line, and the rest. */
  lemma FromKeyShape(members: seq<Member>, depth: nat, format: bool, close: Text)
    requires PrintableMembers(members) && members != []
    ensures FromKey(members, depth, format) + close ==
            Quoted(members[0].key) + (Colon(format) + Print(members[0].value, depth + 1, format))
            + (MemberEnd(|members| == 1, format) + (PrintMembers(members[1..], depth, format) + close))
  {
    hide Print, Quoted, PrintMembers, Colon, MemberEnd, Printable;
  }

  lemma NoMembers(members: seq<Member>, depth: nat, format: bool)
    requires members == []
    ensures PrintMembers(members, depth, format) == []
  {
  }

  /** After the last member: the newline and the indent lead to the closing brace. */
  lemma LastMember(c: Text, end: nat, depth: nat, format: bool)
    requires Terminated(c)
    requires At(c, end, MemberEnd(true, format) + (Indent(depth, format) + [RBRACE]))
    ensures Follows(c, end)
    ensures SkipWhitespace(c, end) == end + |MemberEnd(true, format)| + |Indent(depth, format)|
    ensures c[SkipWhitespace(c, end)] == RBRACE
  {
    hide At, SkipWhitespace;
    var newline, close := MemberEnd(true, format), Indent(depth, format) + [RBRACE];
    AtIndex(c, end, newline + close, 0);
    AtConcat(c, end, newline, close);
    SkipTwo(c, end, newline, Indent(depth, format), [RBRACE], depth, format);
  }

  /** The members after a comma. */
  lemma {:induction false} ParsePrintedMoreMembers(c: Text, o: nat, members: seq<Member>, depth: nat, format: bool)
    requires Terminated(c) && PrintableMembers(members) && members != []
    requires At(c, o, MemberEnd(false, format)
                      + (PrintMembers(members, depth, format) + (Indent(depth, format) + [RBRACE])))
    ensures ParseMembers(c, o) ==
            Parsed(members, o + |MemberEnd(false, format)| + |PrintMembers(members, depth, format)|
                            + |Indent(depth, format)| + 1)
    decreases members, 2
  {
    hide At, ParseMembers, SkipWhitespace, Printable, Print, FromKey, PrintableMembers;
    var newline, indent := (if format then [LF] else []), Indent(depth + 1, format);
    var close := Indent(depth, format) + [RBRACE];
    var rest := FromKey(members, depth, format) + close;
    var blank := newline + indent;
    assert MemberEnd(false, format) + (PrintMembers(members, depth, format) + close) == [COMMA] + (blank + rest);
    AtConcat(c, o, [COMMA], blank + rest);
    AtConcat(c, o + 1, blank, rest);
    ParsePrintedMembers(c, o, blank, members, depth, format);
  }

  // ----- the whole document -----

  /** cJSON_Parse of the text cJSON_Print or cJSON_PrintUnformatted returns: the same tree, and the NUL next. */
  lemma RoundTrip(j: Json, format: bool)
    requires Printable(j)
    ensures var t := Print(j, 0, format);
            SkipWhitespace(t + [NUL], 0) == 0 && ParseValue(t + [NUL], 0) == Parsed(j, |t|)
  {
    var t := Print(j, 0, format);
    PrintFirst(j, 0, format);
    assert (t + [NUL])[0..|t|] == t;
    SkipNothing(t + [NUL], 0);
    ParsePrinted(t + [NUL], 0, j, 0, format);
  }
}
