/**
 * The parser as it runs: `parse_buffer`, whose offset the parse_* routines advance in place, and
 * `cJSON_ParseWithOpts`.
 */
module JsonParseBuffer {
  import opened Bytes
  import opened JsonTree
  import opened JsonNumber
  import opened JsonString
  import opened JsonStringMemory
  import opened JsonPrint
  import opened JsonParse
  import opened JsonRoundTrip

  /** A routine's outcome and the offset it leaves are those of a parse result. */
  predicate Outcome<T(==)>(ok: bool, value: T, offset: nat, r: ParseResult<T>) {
    match r
    case Parsed(v, next) => ok && value == v && offset == next
    case Failed(at) => !ok && offset == at
  }

  function Behind<T>(prefix: seq<T>, r: ParseResult<seq<T>>): ParseResult<seq<T>> {
    match r
    case Parsed(v, next) => Parsed(prefix + v, next)
    case Failed(at) => Failed(at)
  }

  lemma BehindTwice<T>(a: seq<T>, x: T, r: ParseResult<seq<T>>)
    ensures Behind(a, Behind([x], r)) == Behind(a + [x], r) && Behind([], r) == r
  {
    if r.Parsed? {
      assert a + ([x] + r.value) == a + [x] + r.value;
      assert [] + r.value == r.value;
    }
  }

  class ParseBuffer {
    const content: Text
    var offset: nat

    constructor (content: Text)
      requires Terminated(content)
      ensures this.content == content && offset == 0
    {
      this.content := content;
      this.offset := 0;
    }

    /** buffer_skip_whitespace. */
    method Skip()
      requires Terminated(content) && offset <= |content|
      modifies this
      ensures offset == SkipWhitespace(content, old(offset))
    {
      ghost var start := offset;
      while offset < |content| && content[offset] <= 32
        invariant start <= offset <= |content| && SkipBlanks(content, start) == SkipBlanks(content, offset)
      {
        offset := offset + 1;
      }
      if offset == |content| { offset := offset - 1; }
    }

    /** parse_value. */
    method Value() returns (ok: bool, j: Json)
      requires Terminated(content) && offset < |content|
      modifies this
      ensures Outcome(ok, j, offset, ParseValue(content, old(offset)))
      decreases |content| - offset, 3
    {
      ok, j := true, Null;
      if At(content, offset, NULL_TEXT) {
        offset := offset + 4;
      } else if At(content, offset, FALSE_TEXT) {
        j, offset := False, offset + 5;
      } else if At(content, offset, TRUE_TEXT) {
        j, offset := True, offset + 4;
      } else if content[offset] == QUOTE {
        var text;
        ok, text := StringToken();
        j := String(text);
      } else if content[offset] == 45 || IsDigit(content[offset]) {
        var r := ParseNumberAt(content, offset);
        match r {
          case Failed(at) => ok, offset := false, at;
          case Parsed(d, next) => j, offset := Number(d), next;
        }
      } else if content[offset] == LBRACKET {
        var items;
        ok, items := ArrayItems();
        j := Array(items);
      } else if content[offset] == LBRACE {
        var members;
        ok, members := ObjectMembers();
        j := Object(members);
      } else {
        ok := false;
      }
    }

    /** parse_string, moving the offset as it does. */
    method StringToken() returns (ok: bool, text: Text)
      requires offset < |content|
      modifies this
      ensures Outcome(ok, text, offset, ParseString(content, old(offset)))
    {
      var r := ParseStringAt(content, offset);
      match r {
        case Failed(at) => ok, text, offset := false, [], at;
        case Parsed(t, next) => ok, text, offset := true, t, next;
      }
    }

    /** parse_array. */
    method ArrayItems() returns (ok: bool, items: seq<Json>)
      requires Terminated(content) && offset < |content| && content[offset] == LBRACKET
      modifies this
      ensures Outcome(ok, items, offset, ParseArray(content, old(offset)))
      decreases |content| - offset, 2
    {
      hide ParseItems, SkipWhitespace;
      offset := offset + 1;
      Skip();
      if content[offset] == RBRACKET {
        offset := offset + 1;
        return true, [];
      }
      offset := offset - 1;  // step back to the byte in front of the first element
      ok, items := ItemLoop();
    }

    /** parse_array's do-while loop and what follows it. */
    method ItemLoop() returns (ok: bool, items: seq<Json>)
      requires Terminated(content) && offset + 1 < |content|
      modifies this
      ensures Outcome(ok, items, offset, ParseItems(content, old(offset)))
      decreases |content| - offset, 1
    {
      hide ParseValue, SkipWhitespace, Terminated;
      items := [];
      ghost var start := offset;
      BehindTwice([], Null, ParseItems(content, start));
      while true
        invariant start <= offset && offset + 1 < |content|
        invariant ParseItems(content, start) == Behind(items, ParseItems(content, offset))
        decreases |content| - offset
      {
        offset := offset + 1;
        Skip();
        var item;
        ok, item := Value();
        if !ok { return; }
        Skip();
        if content[offset] != COMMA {
          items := items + [item];
          break;
        }
        CommaNotLast(content, offset);
        BehindTwice(items, item, ParseItems(content, offset));
        items := items + [item];
      }
      ok := content[offset] == RBRACKET;
      if ok { offset := offset + 1; }
    }

    /** One turn of parse_object's loop: name, colon, value. */
    method MemberToken() returns (ok: bool, m: Member)
      requires Terminated(content) && offset + 1 < |content|
      modifies this
      ensures Outcome(ok, m, offset, ParseMember(content, old(offset)))
      decreases |content| - offset, 0
    {
      hide ParseValue, ParseString, SkipWhitespace;
      m := Member([], Null);
      offset := offset + 1;
      Skip();
      var key, value;
      ok, key := StringToken();
      if !ok { return; }
      Skip();
      if content[offset] != COLON { return false, m; }
      offset := offset + 1;
      Skip();
      ok, value := Value();
      m := Member(key, value);
    }

    /** parse_object. */
    method ObjectMembers() returns (ok: bool, members: seq<Member>)
      requires Terminated(content) && offset < |content| && content[offset] == LBRACE
      modifies this
      ensures Outcome(ok, members, offset, ParseObject(content, old(offset)))
      decreases |content| - offset, 2
    {
      hide ParseMembers, SkipWhitespace;
      offset := offset + 1;
      Skip();
      if content[offset] == RBRACE {
        offset := offset + 1;
        return true, [];
      }
      offset := offset - 1;
      ok, members := MemberLoop();
    }

    /** parse_object's do-while loop and what follows it. */
    method MemberLoop() returns (ok: bool, members: seq<Member>)
      requires Terminated(content) && offset + 1 < |content|
      modifies this
      ensures Outcome(ok, members, offset, ParseMembers(content, old(offset)))
      decreases |content| - offset, 1
    {
      hide ParseMember, SkipWhitespace, Terminated;
      members := [];
      ghost var start := offset;
      BehindTwice([], Member([], Null), ParseMembers(content, start));
      while true
        invariant start <= offset && offset + 1 < |content|
        invariant ParseMembers(content, start) == Behind(members, ParseMembers(content, offset))
        decreases |content| - offset
      {
        var m;
        ok, m := MemberToken();
        if !ok { return; }
        Skip();
        if content[offset] != COMMA {
          members := members + [m];
          break;
        }
        CommaNotLast(content, offset);
        BehindTwice(members, m, ParseMembers(content, offset));
        members := members + [m];
      }
      ok := content[offset] == RBRACE;
      if ok { offset := offset + 1; }
    }
  }

  lemma CommaNotLast(c: Text, o: nat)
    requires Terminated(c) && o < |c| && c[o] == COMMA
    ensures o + 1 < |c|
  {
  }

  /** cJSON_ParseWithOpts: the tree and where parsing ended, or where the error is reported. */
  function ParseDocument(value: Text, requireEnd: bool): (r: (Option<Json>, nat)) {
    var c := value + [NUL];
    match ParseValue(c, SkipWhitespace(c, 0))
    case Failed(at) => (None, if at < |c| then at else |c| - 1)
    case Parsed(j, next) =>
      if !requireEnd then (Some(j), next)
      else
        var end := SkipWhitespace(c, next);
        if c[end] == NUL then (Some(j), end) else (None, end)
  }

  /** Parsing is total, and the position it returns or reports lies in the input or on its NUL. */
  lemma PositionInInput(value: Text, requireEnd: bool)
    requires NulFree(value)
    ensures var (item, position) := ParseDocument(value, requireEnd);
            position <= |value| && (item.Some? && requireEnd ==> position == |value|) && (item.Some? ==> position > 0)
  {
    var c := value + [NUL];
    assert forall i :: 0 <= i < |value| ==> c[i] == value[i] != NUL;
  }

  /** The printed tree parses back, with or without the end-of-input check, up to exactly its end. */
  lemma DocumentRoundTrip(j: Json, format: bool, requireEnd: bool)
    requires Printable(j)
    ensures ParseDocument(Print(j, 0, format), requireEnd) == (Some(j), |Print(j, 0, format)|)
  {
    var t := Print(j, 0, format);
    hide Print, Printable, ParseValue;
    RoundTrip(j, format);
    assert (t + [NUL])[|t|] == NUL;
  }

  method ParseWithOpts(value: Text, requireEnd: bool) returns (item: Option<Json>, position: nat)
    ensures (item, position) == ParseDocument(value, requireEnd)
  {
    var buffer := new ParseBuffer(value + [NUL]);
    buffer.Skip();
    var ok, j := buffer.Value();
    if ok && requireEnd {
      buffer.Skip();
      ok := buffer.content[buffer.offset] == NUL;
    }
    if ok {
      item, position := Some(j), buffer.offset;
    } else {
      item := None;
      position := if buffer.offset < |buffer.content| then buffer.offset else |buffer.content| - 1;
    }
  }
}
