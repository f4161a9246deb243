/**
 * `parse_value` and its mutual recursion. `c` is the buffer's content, its last byte the terminating NUL;
 * a result carries the offset the parser leaves behind, on failure as on success.
 */
module JsonParse {
  import opened Bytes
  import opened JsonTree
  import opened JsonNumber
  import opened JsonString
  import opened JsonPrint

  function SkipBlanks(c: Text, o: nat): (e: nat)
    requires o <= |c|
    ensures o <= e <= |c|
    decreases |c| - o
  {
    if o < |c| && c[o] <= 32 then SkipBlanks(c, o + 1) else o
  }

  /** buffer_skip_whitespace: the NUL counts as whitespace, and is stepped back onto. */
  function SkipWhitespace(c: Text, o: nat): (e: nat)
    requires Terminated(c) && o <= |c|
    ensures e < |c| && (o < |c| ==> o <= e) && (o == |c| ==> e == |c| - 1)
  {
    var e := SkipBlanks(c, o);
    if e == |c| then e - 1 else e
  }

  function ParseValue(c: Text, o: nat): (r: ParseResult<Json>)
    requires Terminated(c) && o < |c|
    ensures r.Parsed? ==> o < r.next < |c|
    ensures r.Failed? ==> o <= r.at <= |c|
    decreases |c| - o, 3
  {
    if At(c, o, NULL_TEXT) then Parsed(Null, o + 4)
    else if At(c, o, FALSE_TEXT) then Parsed(False, o + 5)
    else if At(c, o, TRUE_TEXT) then Parsed(True, o + 4)
    else if c[o] == QUOTE then
      match ParseString(c, o)
      case Failed(at) => Failed(at)
      case Parsed(t, next) => Parsed(String(t), next)
    else if c[o] == 45 || IsDigit(c[o]) then
      match ParseNumber(c, o)
      case Failed(at) => Failed(at)
      case Parsed(d, next) => Parsed(Number(d), next)
    else if c[o] == LBRACKET then
      match ParseArray(c, o)
      case Failed(at) => Failed(at)
      case Parsed(items, next) => Parsed(Array(items), next)
    else if c[o] == LBRACE then
      match ParseObject(c, o)
      case Failed(at) => Failed(at)
      case Parsed(members, next) => Parsed(Object(members), next)
    else Failed(o)
  }

  function ParseArray(c: Text, o: nat): (r: ParseResult<seq<Json>>)
    requires Terminated(c) && o < |c| && c[o] == LBRACKET
    ensures r.Parsed? ==> o < r.next < |c|
    ensures r.Failed? ==> o <= r.at <= |c|
    decreases |c| - o, 1
  {
    var first := SkipWhitespace(c, o + 1);
    if c[first] == RBRACKET then Parsed([], first + 1)
    else ParseItems(c, first - 1)  // step back to the byte in front of the first element
  }

  /** The element loop, from the byte before an element to the byte after the closing bracket. */
  function ParseItems(c: Text, o: nat): (r: ParseResult<seq<Json>>)
    requires Terminated(c) && o + 1 < |c|
    ensures r.Parsed? ==> o < r.next < |c|
    ensures r.Failed? ==> o <= r.at <= |c|
    decreases |c| - o, 0
  {
    match ParseValue(c, SkipWhitespace(c, o + 1))
    case Failed(at) => Failed(at)
    case Parsed(item, next) =>
      var after := SkipWhitespace(c, next);
      if c[after] == COMMA then
        match ParseItems(c, after)
        case Failed(at) => Failed(at)
        case Parsed(items, end) => Parsed([item] + items, end)
      else if c[after] == RBRACKET then Parsed([item], after + 1)
      else Failed(after)
  }

  function ParseObject(c: Text, o: nat): (r: ParseResult<seq<Member>>)
    requires Terminated(c) && o < |c| && c[o] == LBRACE
    ensures r.Parsed? ==> o < r.next < |c|
    ensures r.Failed? ==> o <= r.at <= |c|
    decreases |c| - o, 2
  {
    var first := SkipWhitespace(c, o + 1);
    if c[first] == RBRACE then Parsed([], first + 1)
    else ParseMembers(c, first - 1)
  }

  /** One member up to and including its value. */
  function ParseMember(c: Text, o: nat): (r: ParseResult<Member>)
    requires Terminated(c) && o + 1 < |c|
    ensures r.Parsed? ==> o + 1 < r.next < |c|
    ensures r.Failed? ==> o <= r.at <= |c|
    decreases |c| - o, 0
  {
    match ParseString(c, SkipWhitespace(c, o + 1))
    case Failed(at) => Failed(at)
    case Parsed(key, afterKey) =>
      var colon := SkipWhitespace(c, afterKey);
      if c[colon] != COLON then Failed(colon)
      else
        match ParseValue(c, SkipWhitespace(c, colon + 1))
        case Failed(at) => Failed(at)
        case Parsed(value, next) => Parsed(Member(key, value), next)
  }

  function ParseMembers(c: Text, o: nat): (r: ParseResult<seq<Member>>)
    requires Terminated(c) && o + 1 < |c|
    ensures r.Parsed? ==> o < r.next < |c|
    ensures r.Failed? ==> o <= r.at <= |c|
    decreases |c| - o, 1
  {
    match ParseMember(c, o)
    case Failed(at) => Failed(at)
    case Parsed(member, next) =>
      var after := SkipWhitespace(c, next);
      if c[after] == COMMA then
        match ParseMembers(c, after)
        case Failed(at) => Failed(at)
        case Parsed(members, end) => Parsed([member] + members, end)
      else if c[after] == RBRACE then Parsed([member], after + 1)
      else Failed(after)
  }
}
