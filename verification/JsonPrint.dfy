/** The text `print_value` writes for a tree, in both formats. */
module JsonPrint {
  import opened Bytes
  import opened JsonTree
  import opened JsonNumber
  import opened JsonString

  const NULL_TEXT: Text := [110, 117, 108, 108]
  const FALSE_TEXT: Text := [102, 97, 108, 115, 101]
  const TRUE_TEXT: Text := [116, 114, 117, 101]

  /** The trees whose printed form is claimed on: integers below 1.0e60 and NUL-free C strings. */
  predicate Printable(j: Json)
    decreases j, 1
  {
    match j
    case Null | False | True => true
    case Number(d) => IsPrintable(d)
    case String(t) => NulFree(t)
    case Array(items) => PrintableItems(items)
    case Object(members) => PrintableMembers(members)
  }

  predicate PrintableItems(items: seq<Json>)
    decreases items, 0
  {
    items == [] || (Printable(items[0]) && PrintableItems(items[1..]))
  }

  predicate PrintableMembers(members: seq<Member>)
    decreases members, 0
  {
    members == [] || (NulFree(members[0].key) && Printable(members[0].value) && PrintableMembers(members[1..]))
  }

  function Tabs(n: nat): (t: Text)
    ensures |t| == n
  {
    seq(n, _ => TAB)
  }

  function Opening(format: bool): Text { if format then [LBRACE, LF] else [LBRACE] }
  function Comma(format: bool): Text { if format then [COMMA, SPACE] else [COMMA] }
  function Colon(format: bool): Text { if format then [COLON, TAB] else [COLON] }
  function Indent(depth: nat, format: bool): Text { if format then Tabs(depth) else [] }

  /** What follows a member's value: a comma unless it is the last, a newline when formatted. */
  function MemberEnd(last: bool, format: bool): Text {
    (if last then [] else [COMMA]) + (if format then [LF] else [])
  }

  function Print(j: Json, depth: nat, format: bool): Text
    requires Printable(j)
    decreases j, 1
  {
    match j
    case Null => NULL_TEXT
    case False => FALSE_TEXT
    case True => TRUE_TEXT
    case Number(d) => IntegerText(d.mantissa)
    case String(t) => Quoted(t)
    case Array(items) => [LBRACKET] + (PrintItems(items, depth, format) + [RBRACKET])
    case Object(members) =>
      Opening(format) + (PrintMembers(members, depth, format) + (Indent(depth, format) + [RBRACE]))
  }

  function PrintItems(items: seq<Json>, depth: nat, format: bool): Text
    requires PrintableItems(items)
    decreases items, 1
  {
    if items == [] then []
    else Print(items[0], depth + 1, format) + ItemsAfter(items, depth, format)
  }

  /** The separator and the items after the first one. */
  function ItemsAfter(items: seq<Json>, depth: nat, format: bool): Text
    requires PrintableItems(items) && items != []
    decreases items, 0
  {
    if |items| == 1 then [] else Comma(format) + PrintItems(items[1..], depth, format)
  }

  function PrintMembers(members: seq<Member>, depth: nat, format: bool): Text
    requires PrintableMembers(members)
    decreases members, 1
  {
    if members == [] then [] else Indent(depth + 1, format) + FromKey(members, depth, format)
  }

  /** The members from the first one's key on. */
  function FromKey(members: seq<Member>, depth: nat, format: bool): Text
    requires PrintableMembers(members) && members != []
    decreases members, 0
  {
    Quoted(members[0].key) + (Colon(format) + (Print(members[0].value, depth + 1, format) +
    (MemberEnd(|members| == 1, format) + PrintMembers(members[1..], depth, format))))
  }

  /** Every value's text begins with a byte no whitespace skip and no separator test can take. */
  lemma PrintFirst(j: Json, depth: nat, format: bool)
    requires Printable(j)
    ensures var t := Print(j, depth, format);
            |t| > 0 && t[0] > 32 && t[0] != RBRACKET && t[0] != RBRACE && t[0] != COMMA
  {
  }

  lemma AfterFirst(items: seq<Json>, depth: nat, format: bool)
    requires PrintableItems(items) && items != []
    ensures var rest := ItemsAfter(items, depth, format);
            if |items| == 1 then rest == []
            else rest == Comma(format) + PrintItems(items[1..], depth, format) && rest[0] == COMMA
  {
  }

  lemma ColonShape(format: bool)
    ensures Colon(format) == [COLON] + Colon(format)[1..]
    ensures forall k :: 0 <= k < |Colon(format)[1..]| ==> Colon(format)[1..][k] == TAB
  {
  }
}
