/** Exactly how long a buffer `cJSON_PrintPreallocated` needs. */
module JsonPrintRoom {
  import opened Bytes
  import opened JsonTree
  import opened JsonNumber
  import opened JsonString
  import opened JsonPrint
  import opened JsonPrintBuffer

  /** Where the numbers of a tree begin in its text, which begins at `at`. */
  ghost function NumbersAt(j: Json, depth: nat, format: bool, at: nat): set<nat>
    requires Printable(j)
    decreases j, 1
  {
    match j
    case Number(_) => {at}
    case Array(items) => NumbersInItems(items, depth, format, at + 1)
    case Object(members) => NumbersInMembers(members, depth, format, at + if format then 2 else 1)
    case _ => {}
  }

  ghost function NumbersInItems(items: seq<Json>, depth: nat, format: bool, at: nat): set<nat>
    requires PrintableItems(items)
    decreases items, 0
  {
    if items == [] then {}
    else
      NumbersAt(items[0], depth + 1, format, at)
      + NumbersInItems(items[1..], depth, format, at + |ItemText(items[0], depth, format, |items| == 1)|)
  }

  ghost function NumbersInMembers(members: seq<Member>, depth: nat, format: bool, at: nat): set<nat>
    requires PrintableMembers(members)
    decreases members, 0
  {
    if members == [] then {}
    else
      NumbersAt(members[0].value, depth + 1, format, ValueAt(members[0], depth, format, at))
      + NumbersInMembers(members[1..], depth, format, at + |LineText(members[0], depth, format, |members| == 1)|)
  }

  /** Where the value of a member begins, whose line begins at `at`: behind the tabs, the key and the colon. */
  function ValueAt(m: Member, depth: nat, format: bool, at: nat): nat {
    if format then at + depth + 1 + |Quoted(m.key)| + 2 else at + |Quoted(m.key)| + 1
  }

  /** The text, the NUL and a byte more; and 65 bytes from where each number begins. */
  ghost predicate Roomy(numbers: set<nat>, end: nat, len: nat) {
    end + 2 <= len && AllRoom(numbers, len)
  }

  ghost predicate AllRoom(numbers: set<nat>, len: nat) { forall o :: o in numbers ==> o + 65 <= len }

  lemma NothingRoom(len: nat)
    ensures AllRoom({}, len)
  {
  }

  lemma ItemsSplit(items: seq<Json>, depth: nat, format: bool)
    requires PrintableItems(items) && items != []
    ensures |PrintItems(items, depth, format)| ==
            |ItemText(items[0], depth, format, |items| == 1)| + |PrintItems(items[1..], depth, format)|
  {
    hide Print, Printable;
  }

  lemma BothRoom(a: set<nat>, b: set<nat>, len: nat)
    ensures AllRoom(a + b, len) <==> AllRoom(a, len) && AllRoom(b, len)
  {
  }

  /** Printing into a buffer of `len` bytes succeeds exactly when the buffer is that long. */
  lemma {:induction false} ExactRoom(j: Json, depth: nat, format: bool, at: nat, len: nat)
    requires Printable(j) && len <= INT_MAX
    ensures Fits(j, depth, format, at, Some(len)) <==>
            Roomy(NumbersAt(j, depth, format, at), at + |Print(j, depth, format)|, len)
    decreases j, 1
  {
    hide Fits, NumbersAt, Print, AllRoom, Printable;
    match j {
      case Array(items) =>
        ArrayRoom(items, depth, format, at, len);
        ExactItems(items, depth, format, at + 1, len);
      case Object(members) =>
        ObjectRoom(members, depth, format, at, len);
        ExactMembers(members, depth, format, at + |Opening(format)|, len);
      case _ => ExactLeaf(j, depth, format, at, len);
    }
  }

  lemma ArrayRoom(items: seq<Json>, depth: nat, format: bool, at: nat, len: nat)
    requires Printable(Array(items)) && len <= INT_MAX
    ensures PrintableItems(items)
    ensures Fits(Array(items), depth, format, at, Some(len)) <==>
            at + 2 <= len && FitsItems(items, depth, format, at + 1, Some(len))
    ensures NumbersAt(Array(items), depth, format, at) == NumbersInItems(items, depth, format, at + 1)
    ensures |Print(Array(items), depth, format)| == |PrintItems(items, depth, format)| + 2
  {
    hide FitsItems, NumbersInItems, PrintItems, PrintableItems;
  }

  lemma ObjectRoom(members: seq<Member>, depth: nat, format: bool, at: nat, len: nat)
    requires Printable(Object(members)) && len <= INT_MAX
    ensures PrintableMembers(members)
    ensures var next := at + |Opening(format)|;
            && (Fits(Object(members), depth, format, at, Some(len)) <==>
                next + 2 <= len && FitsMembers(members, depth, format, next, Some(len)))
            && NumbersAt(Object(members), depth, format, at) == NumbersInMembers(members, depth, format, next)
            && at + |Print(Object(members), depth, format)| ==
               next + |PrintMembers(members, depth, format)| + |Indent(depth, format)| + 1
  {
    hide FitsMembers, NumbersInMembers, PrintMembers, PrintableMembers, Indent;
  }

  lemma ExactLeaf(j: Json, depth: nat, format: bool, at: nat, len: nat)
    requires Printable(j) && len <= INT_MAX && !j.Array? && !j.Object?
    ensures Fits(j, depth, format, at, Some(len)) <==>
            Roomy(NumbersAt(j, depth, format, at), at + |Print(j, depth, format)|, len)
  {
    if j.Number? { IntegerTextLength(j.num); }
    hide Quoted, IntegerText, Pow10;
  }

  lemma {:induction false} ExactItems(items: seq<Json>, depth: nat, format: bool, at: nat, len: nat)
    requires PrintableItems(items) && len <= INT_MAX
    ensures FitsItems(items, depth, format, at, Some(len)) <==>
            Roomy(NumbersInItems(items, depth, format, at), at + |PrintItems(items, depth, format)| + 1, len)
    decreases items, 0
  {
    hide Print, Printable, Fits, NumbersAt, AllRoom;
    NothingRoom(len);
    if items != [] {
      ItemsSplit(items, depth, format);
      var next := at + |ItemText(items[0], depth, format, |items| == 1)|;
      ExactRoom(items[0], depth + 1, format, at, len);
      ExactItems(items[1..], depth, format, next, len);
      BothRoom(NumbersAt(items[0], depth + 1, format, at), NumbersInItems(items[1..], depth, format, next), len);
    }
  }

  lemma {:induction false} ExactMembers(members: seq<Member>, depth: nat, format: bool, at: nat, len: nat)
    requires PrintableMembers(members) && len <= INT_MAX
    ensures FitsMembers(members, depth, format, at, Some(len)) <==>
            Roomy(NumbersInMembers(members, depth, format, at),
                  at + |PrintMembers(members, depth, format)| + |Indent(depth, format)| + 1, len)
    decreases members, 0
  {
    if members == [] {
      NoMembersRoom(depth, format, at, len);
    } else if at + |PrintMembers(members, depth, format)| + |Indent(depth, format)| + 3 <= len {
      hide PrintMembers, Indent, NumbersInMembers, FitsMembers;
      ExactSplit(members, depth, format, at, len);
      ExactMembers(members[1..], depth, format, at + |LineText(members[0], depth, format, |members| == 1)|, len);
    } else if FitsMembers(members, depth, format, at, Some(len)) {
      NeedsForMembers(members, depth, format, at, len);
    }
  }

  /** One line more, there being room for the text. */
  lemma {:induction false} ExactSplit(members: seq<Member>, depth: nat, format: bool, at: nat, len: nat)
    requires PrintableMembers(members) && members != [] && len <= INT_MAX
    requires at + |PrintMembers(members, depth, format)| + |Indent(depth, format)| + 3 <= len
    ensures var next := at + |LineText(members[0], depth, format, |members| == 1)|;
            var line := NumbersAt(members[0].value, depth + 1, format, ValueAt(members[0], depth, format, at));
            && at + |PrintMembers(members, depth, format)| == next + |PrintMembers(members[1..], depth, format)|
            && (FitsMembers(members, depth, format, at, Some(len)) <==>
                AllRoom(line, len) && FitsMembers(members[1..], depth, format, next, Some(len)))
            && (AllRoom(NumbersInMembers(members, depth, format, at), len) <==>
                AllRoom(line, len) && AllRoom(NumbersInMembers(members[1..], depth, format, next), len))
    decreases members[0].value, 4
  {
    MembersText(members, depth, format);
    hide PrintMembers, LineText, FitsLine, Printable, NumbersAt, Print, AllRoom, Indent;
    var last := |members| == 1;
    var next := at + |LineText(members[0], depth, format, last)|;
    ExactLine(members[0], depth, format, at, last, len);
    BothRoom(NumbersAt(members[0].value, depth + 1, format, ValueAt(members[0], depth, format, at)),
             NumbersInMembers(members[1..], depth, format, next), len);
  }

  lemma NoMembersRoom(depth: nat, format: bool, at: nat, len: nat)
    requires len <= INT_MAX
    ensures FitsMembers([], depth, format, at, Some(len)) <==>
            at + |PrintMembers([], depth, format)| + |Indent(depth, format)| + 3 <= len
    ensures AllRoom(NumbersInMembers([], depth, format, at), len)
  {
  }

  lemma {:induction false} ExactLine(m: Member, depth: nat, format: bool, at: nat, last: bool, len: nat)
    requires Printable(m.value) && len <= INT_MAX && at + |LineText(m, depth, format, last)| + 2 <= len
    ensures FitsLine(m, depth, format, at, last, Some(len)) <==>
            AllRoom(NumbersAt(m.value, depth + 1, format, ValueAt(m, depth, format, at)), len)
    decreases m.value, 3
  {
    hide Print, Printable, Fits, NumbersAt, Quoted, AllRoom;
    ExactRoom(m.value, depth + 1, format, ValueAt(m, depth, format, at), len);
  }
}
