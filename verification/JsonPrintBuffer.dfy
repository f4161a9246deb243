/**
 * The printer as it runs: `printbuffer`, `ensure`, `update_offset` and the print_* routines, writing
 * through a fixed or a growing buffer.
 */
module JsonPrintBuffer {
  import opened Bytes
  import opened JsonTree
  import opened JsonNumber
  import opened JsonString
  import opened JsonPrint

  const INT_MAX: nat := 2147483647

  /** When `ensure(needed)` succeeds at offset `at`; `cap` is the length of a buffer that may not grow. */
  predicate Ensures(needed: nat, at: nat, cap: Option<nat>) {
    needed <= INT_MAX && (cap.Some? ==> at + needed + 1 <= cap.value)
  }

  /** Every `ensure` call made while printing `j` from offset `at` succeeds. */
  predicate Fits(j: Json, depth: nat, format: bool, at: nat, cap: Option<nat>)
    requires Printable(j)
    decreases j, 1
  {
    match j
    case Null => Ensures(5, at, cap)
    case False => Ensures(6, at, cap)
    case True => Ensures(5, at, cap)
    case Number(_) => Ensures(64, at, cap)
    case String(t) => Ensures(|Quoted(t)| + 1, at, cap)
    case Array(items) => Ensures(1, at, cap) && FitsItems(items, depth, format, at + 1, cap)
    case Object(members) =>
      Ensures(|Opening(format)| + 1, at, cap) && FitsMembers(members, depth, format, at + |Opening(format)|, cap)
  }

  predicate FitsItems(items: seq<Json>, depth: nat, format: bool, at: nat, cap: Option<nat>)
    requires PrintableItems(items)
    decreases items, 0
  {
    if items == [] then Ensures(2, at, cap)
    else
      && FitsItem(items[0], depth, format, at, |items| == 1, cap)
      && FitsItems(items[1..], depth, format, at + |ItemText(items[0], depth, format, |items| == 1)|, cap)
  }

  /** An array element and, unless it is the last, its separator. */
  function ItemText(item: Json, depth: nat, format: bool, last: bool): Text
    requires Printable(item)
    decreases item, 2
  {
    if last then Print(item, depth + 1, format) else Print(item, depth + 1, format) + Comma(format)
  }

  predicate FitsItem(item: Json, depth: nat, format: bool, at: nat, last: bool, cap: Option<nat>)
    requires Printable(item)
    decreases item, 2
  {
    && Fits(item, depth + 1, format, at, cap)
    && (last || Ensures(|Comma(format)| + 1, at + |Print(item, depth + 1, format)|, cap))
  }

  predicate FitsMembers(members: seq<Member>, depth: nat, format: bool, at: nat, cap: Option<nat>)
    requires PrintableMembers(members)
    decreases members, 0
  {
    if members == [] then Ensures(if format then depth + 2 else 2, at, cap)
    else
      && FitsLine(members[0], depth, format, at, |members| == 1, cap)
      && FitsMembers(members[1..], depth, format, at + |LineText(members[0], depth, format, |members| == 1)|, cap)
  }

  /** One turn of print_object's loop: the indent, the member and what ends it. */
  function LineText(m: Member, depth: nat, format: bool, last: bool): Text
    requires Printable(m.value)
    decreases m.value, 3
  {
    Indent(depth + 1, format) + (MemberText(m, depth, format) + MemberEnd(last, format))
  }

  predicate FitsLine(m: Member, depth: nat, format: bool, at: nat, last: bool, cap: Option<nat>)
    requires Printable(m.value)
    decreases m.value, 3
  {
    && (format ==> Ensures(depth + 1, at, cap))
    && FitsMember(m, depth, format, at + |Indent(depth + 1, format)|, last, cap)
  }

  function MemberText(m: Member, depth: nat, format: bool): Text
    requires Printable(m.value)
    decreases m.value, 2
  {
    Quoted(m.key) + (Colon(format) + Print(m.value, depth + 1, format))
  }

  predicate FitsMember(m: Member, depth: nat, format: bool, at: nat, last: bool, cap: Option<nat>)
    requires Printable(m.value)
    decreases m.value, 2
  {
    && Ensures(|Quoted(m.key)| + 1, at, cap)
    && Ensures(|Colon(format)|, at + |Quoted(m.key)|, cap)
    && Fits(m.value, depth + 1, format, at + |Quoted(m.key)| + |Colon(format)|, cap)
    && Ensures(|MemberEnd(last, format)| + 1, at + |MemberText(m, depth, format)|, cap)
  }

  // ----- how much room printing takes -----

  /** The header's "63 bytes bigger than the printed JSON", counting the NUL: text length + 64 always suffices. */
  lemma {:induction false} EnoughRoom(j: Json, depth: nat, format: bool, at: nat, len: nat)
    requires Printable(j) && at + |Print(j, depth, format)| + 64 <= len <= INT_MAX
    ensures Fits(j, depth, format, at, Some(len))
    decreases j, 1
  {
    match j {
      case Array(items) => EnoughForItems(items, depth, format, at + 1, len);
      case Object(members) => EnoughForMembers(members, depth, format, at + |Opening(format)|, len);
      case _ =>
    }
  }

  lemma {:induction false} EnoughForItems(items: seq<Json>, depth: nat, format: bool, at: nat, len: nat)
    requires PrintableItems(items) && at + |PrintItems(items, depth, format)| + 64 <= len <= INT_MAX
    ensures FitsItems(items, depth, format, at, Some(len))
    decreases items, 0
  {
    if items != [] {
      EnoughRoom(items[0], depth + 1, format, at, len);
      EnoughForItems(items[1..], depth, format, at + |ItemText(items[0], depth, format, |items| == 1)|, len);
    }
  }

  lemma {:induction false} EnoughForMembers(members: seq<Member>, depth: nat, format: bool, at: nat, len: nat)
    requires PrintableMembers(members)
    requires at + |PrintMembers(members, depth, format)| + |Indent(depth, format)| + 64 <= len <= INT_MAX
    ensures FitsMembers(members, depth, format, at, Some(len))
    decreases members, 0
  {
    if members != [] {
      MembersText(members, depth, format);
      hide PrintMembers, LineText, FitsLine, Printable, Indent;
      EnoughForLine(members[0], depth, format, at, |members| == 1, len);
      EnoughForMembers(members[1..], depth, format, at + |LineText(members[0], depth, format, |members| == 1)|, len);
    }
  }

  lemma {:induction false} EnoughForLine(m: Member, depth: nat, format: bool, at: nat, last: bool, len: nat)
    requires Printable(m.value) && at + |LineText(m, depth, format, last)| + 64 <= len <= INT_MAX
    ensures FitsLine(m, depth, format, at, last, Some(len))
    decreases m.value, 3
  {
    hide MemberText, FitsMember;
    EnoughForMember(m, depth, format, at + |Indent(depth + 1, format)|, last, len);
  }

  lemma {:induction false} EnoughForMember(m: Member, depth: nat, format: bool, at: nat, last: bool, len: nat)
    requires Printable(m.value)
    requires at + |MemberText(m, depth, format)| + |MemberEnd(last, format)| + 64 <= len <= INT_MAX
    ensures FitsMember(m, depth, format, at, last, Some(len))
    decreases m.value, 2
  {
    hide Fits, Print, Quoted;
    EnoughRoom(m.value, depth + 1, format, at + |Quoted(m.key)| + |Colon(format)|, len);
  }

  /** Success needs the text, its NUL and one byte more, whatever the tree. */
  lemma {:induction false} NeedsRoom(j: Json, depth: nat, format: bool, at: nat, len: nat)
    requires Printable(j) && Fits(j, depth, format, at, Some(len))
    ensures at + |Print(j, depth, format)| + 2 <= len
    decreases j, 1
  {
    match j {
      case Array(items) => NeedsForItems(items, depth, format, at + 1, len);
      case Object(members) => NeedsForMembers(members, depth, format, at + |Opening(format)|, len);
      case Number(d) => IntegerTextLength(d);
      case _ =>
    }
  }

  lemma {:induction false} NeedsForItems(items: seq<Json>, depth: nat, format: bool, at: nat, len: nat)
    requires PrintableItems(items) && FitsItems(items, depth, format, at, Some(len))
    ensures at + |PrintItems(items, depth, format)| + 1 + 2 <= len
    decreases items, 0
  {
    if items != [] {
      NeedsForItems(items[1..], depth, format, at + |ItemText(items[0], depth, format, |items| == 1)|, len);
    }
  }

  lemma {:induction false} NeedsForMembers(members: seq<Member>, depth: nat, format: bool, at: nat, len: nat)
    requires PrintableMembers(members) && FitsMembers(members, depth, format, at, Some(len))
    ensures at + |PrintMembers(members, depth, format)| + |Indent(depth, format)| + 1 + 2 <= len
    decreases members, 0
  {
    if members != [] {
      MembersText(members, depth, format);
      NeedsForMembers(members[1..], depth, format, at + |LineText(members[0], depth, format, |members| == 1)|, len);
    }
  }

  /** The 64 is tight: a one-digit number fails in a buffer of text length + 63. */
  lemma RoomIsTight(n: int, depth: nat, format: bool)
    requires 0 <= n < 10
    ensures var j := Number(Decimal(n, 0));
            Printable(j) && |Print(j, depth, format)| == 1
            && Fits(j, depth, format, 0, Some(1 + 64)) && !Fits(j, depth, format, 0, Some(1 + 63))
  {
    assert Pow10(60) == 10 * Pow10(59);
    assert Pow10(59) > 0;
  }

  /**
   * The header's 63 taken as it stands, the NUL not counted apart: it suffices for every tree but one that is
   * nothing but a number of one digit.
   */
  lemma HeaderRoom(j: Json, depth: nat, format: bool, at: nat)
    requires Printable(j) && at + |Print(j, depth, format)| + 63 <= INT_MAX
    ensures Fits(j, depth, format, at, Some(at + |Print(j, depth, format)| + 63)) <==>
            !(j.Number? && |Print(j, depth, format)| == 1)
  {
    var len := at + |Print(j, depth, format)| + 63;
    match j {
      case Array(items) => EnoughForItems(items, depth, format, at + 1, len);
      case Object(members) => EnoughForMembers(members, depth, format, at + |Opening(format)|, len);
      case Number(d) => IntegerTextLength(d);
      case _ =>
    }
  }

  /** What fits a fixed buffer is printed by the growing printer too. */
  lemma {:induction false} FixedFitsGrowing(j: Json, depth: nat, format: bool, at: nat, len: nat)
    requires Printable(j) && Fits(j, depth, format, at, Some(len))
    ensures Fits(j, depth, format, at, None)
    decreases j, 1
  {
    match j {
      case Array(items) => FixedItemsGrowing(items, depth, format, at + 1, len);
      case Object(members) => FixedMembersGrowing(members, depth, format, at + |Opening(format)|, len);
      case _ =>
    }
  }

  lemma {:induction false} FixedItemsGrowing(items: seq<Json>, depth: nat, format: bool, at: nat, len: nat)
    requires PrintableItems(items) && FitsItems(items, depth, format, at, Some(len))
    ensures FitsItems(items, depth, format, at, None)
    decreases items, 0
  {
    if items != [] {
      FixedFitsGrowing(items[0], depth + 1, format, at, len);
      FixedItemsGrowing(items[1..], depth, format, at + |ItemText(items[0], depth, format, |items| == 1)|, len);
    }
  }

  lemma {:induction false} FixedMembersGrowing(members: seq<Member>, depth: nat, format: bool, at: nat, len: nat)
    requires PrintableMembers(members) && FitsMembers(members, depth, format, at, Some(len))
    ensures FitsMembers(members, depth, format, at, None)
    decreases members, 0
  {
    if members != [] {
      hide LineText, FitsLine;
      FixedLineGrowing(members[0], depth, format, at, |members| == 1, len);
      FixedMembersGrowing(members[1..], depth, format, at + |LineText(members[0], depth, format, |members| == 1)|, len);
    }
  }

  lemma {:induction false} FixedLineGrowing(m: Member, depth: nat, format: bool, at: nat, last: bool, len: nat)
    requires Printable(m.value) && FitsLine(m, depth, format, at, last, Some(len))
    ensures FitsLine(m, depth, format, at, last, None)
    decreases m.value, 3
  {
    var key := at + |Indent(depth + 1, format)|;
    assert FitsMember(m, depth, format, key, last, Some(len));
    FixedFitsGrowing(m.value, depth + 1, format, key + |Quoted(m.key)| + |Colon(format)|, len);
  }

  // ----- printbuffer -----

  class PrintBuffer {
    var buffer: array<byte>
    var length: nat
    var offset: nat
    const noalloc: bool

    constructor (buffer: array<byte>, length: nat, noalloc: bool)
      requires length <= buffer.Length
      ensures this.buffer == buffer && this.length == length && this.noalloc == noalloc && Flushed([])
    {
      this.buffer, this.length, this.offset, this.noalloc := buffer, length, 0, noalloc;
    }

    function Cap(): Option<nat>
      reads this
    {
      if noalloc then Some(length) else None
    }

    /** `t` has been written and the offset stands at its end. */
    ghost predicate Flushed(t: Text)
      reads this, buffer
    {
      && NulFree(t) && offset == |t| <= buffer.Length && length <= buffer.Length
      && (length == 0 || offset < length)
      && buffer[..|t|] == t
    }

    /** `t` has been written with its NUL; the offset may lag behind. */
    ghost predicate Holds(t: Text)
      reads this, buffer
    {
      && NulFree(t) && offset <= |t| < length <= buffer.Length
      && buffer[..|t|] == t && buffer[|t|] == NUL
    }

    /** A fixed buffer stays where it is, and nothing at or beyond its length is written. */
    twostate predicate Kept()
      reads this, buffer
    {
      if noalloc then
        && buffer == old(buffer) && length == old(length)
        && forall k :: length <= k < buffer.Length ==> buffer[k] == old(buffer[k])
      else buffer == old(buffer) || fresh(buffer)
    }

    /** `ensure`: room for `needed` bytes and one more behind the offset, growing the buffer if it may grow. */
    method Ensure(needed: nat, ghost t: Text) returns (ok: bool)
      requires Flushed(t)
      modifies this
      ensures ok <==> Ensures(needed, |t|, old(Cap()))
      ensures Kept() && Flushed(t) && offset == old(offset)
      ensures ok ==> offset + needed < length
    {
      if length > 0 && offset >= length { return false; }
      if needed > INT_MAX { return false; }
      if offset + needed + 1 <= length { return true; }
      if noalloc { return false; }
      var newsize := (offset + needed + 1) * 2;
      var newbuffer := new byte[newsize];
      var copied := if buffer.Length < newsize then buffer.Length else newsize;
      forall k | 0 <= k < copied { newbuffer[k] := buffer[k]; }
      length, buffer := newsize, newbuffer;
      return true;
    }

    /** Copies `s` to `buffer[at..]`. */
    method Store(at: nat, s: Text)
      requires at + |s| <= length <= buffer.Length
      modifies buffer
      ensures forall k :: 0 <= k < buffer.Length ==>
                buffer[k] == if at <= k < at + |s| then s[k - at] else old(buffer[k])
    {
      for i := 0 to |s|
        invariant forall k :: 0 <= k < buffer.Length ==>
                    buffer[k] == if at <= k < at + i then s[k - at] else old(buffer[k])
      {
        buffer[at + i] := s[i];
      }
    }

    /** `update_offset`: strlen from the offset. */
    method UpdateOffset(ghost t: Text)
      requires Holds(t)
      modifies this`offset
      ensures Flushed(t)
    {
      var p := offset;
      while buffer[p] != NUL
        invariant offset <= p <= |t|
        invariant p < |t| ==> buffer[p] == t[p]
        decreases |t| - p
      {
        p := p + 1;
        assert p < |t| ==> buffer[..|t|][p] == t[p];
      }
      offset := p;
    }

    /** Writes `s` at the offset and moves the offset past it. */
    method Advance(s: Text, ghost t: Text)
      requires Flushed(t) && NulFree(s) && offset + |s| < length
      modifies this`offset, buffer
      ensures Kept() && Flushed(t + s)
    {
      Store(offset, s);
      offset := offset + |s|;
    }

    /** Writes `s` and a NUL at the offset, which stays (strcpy). */
    method Finish(s: Text, ghost t: Text)
      requires Flushed(t) && NulFree(s) && offset + |s| < length
      modifies buffer
      ensures Kept() && Holds(t + s)
    {
      Store(offset, s + [NUL]);
    }

    /** The counting loop of print_string_ptr. */
    method CountEscapes(s: Text) returns (escapes: nat)
      ensures |s| + escapes == |Escape(s)|
    {
      escapes := 0;
      var i := 0;
      while i < |s|
        invariant i <= |s| && i + escapes + |Escape(s[i..])| == |Escape(s)|
      {
        if s[i] == QUOTE || s[i] == BACKSLASH || s[i] == BS || s[i] == FF || s[i] == LF || s[i] == CR || s[i] == TAB {
          escapes := escapes + 1;
        } else if s[i] < 32 {
          escapes := escapes + 5;
        }
        assert s[i..][1..] == s[i + 1..];
        i := i + 1;
      }
    }

    /** The copying loop of print_string_ptr: `Escape(s)` at `buffer[at..]`. */
    method StoreEscaped(at: nat, s: Text)
      requires at + |Escape(s)| <= length <= buffer.Length
      modifies buffer
      ensures forall k :: 0 <= k < buffer.Length ==>
                buffer[k] == if at <= k < at + |Escape(s)| then Escape(s)[k - at] else old(buffer[k])
    {
      hide Escape, EscapeByte;
      var p, i := at, 0;
      ghost var done: Text := [];
      EscapeEnd(s);
      while i < |s|
        invariant i <= |s| && p == at + |done| && done + Escape(s[i..]) == Escape(s)
        invariant forall k :: 0 <= k < buffer.Length ==>
                    buffer[k] == if at <= k < p then done[k - at] else old(buffer[k])
      {
        var e := EscapeByte(s[i]);
        EscapeStep(s, i);
        assert done + Escape(s[i..]) == done + e + Escape(s[i + 1..]);
        Store(p, e);
        p, done, i := p + |e|, done + e, i + 1;
      }
    }

    /** print_string_ptr. */
    method PrintString(s: Text, ghost t: Text) returns (ok: bool)
      requires Flushed(t) && NulFree(s)
      modifies this, buffer
      ensures ok <==> Ensures(|Quoted(s)| + 1, |t|, old(Cap()))
      ensures Kept() && (ok ==> Holds(t + Quoted(s)))
    {
      var escapes := CountEscapes(s);
      var outputLength := |s| + escapes;
      ok := Ensure(outputLength + 3, t);
      if !ok { return; }
      EscapeNulFree(s);
      if escapes == 0 {
        PlainEscape(s);
        Finish([QUOTE] + s + [QUOTE], t);
      } else {
        PrintEscaped(s, t);
      }
    }

    method PrintEscaped(s: Text, ghost t: Text)
      requires Flushed(t) && NulFree(Escape(s)) && offset + |Quoted(s)| < length
      modifies buffer
      ensures Kept() && Holds(t + Quoted(s))
    {
      var n := |Escape(s)|;
      Store(offset, [QUOTE]);
      StoreEscaped(offset + 1, s);
      Store(offset + 1 + n, [QUOTE, NUL]);
      assert buffer[..|t| + n + 2] == t + Quoted(s);
    }

    /** print_number, integer branch: "%.0f" into 64 ensured bytes, and the offset moves on. */
    method PrintNumber(d: Decimal, ghost t: Text) returns (ok: bool)
      requires Flushed(t) && IsPrintable(d)
      modifies this, buffer
      ensures ok <==> Ensures(64, |t|, old(Cap()))
      ensures Kept() && (ok ==> Holds(t + IntegerText(d.mantissa)))
    {
      ok := Ensure(64, t);
      if !ok { return; }
      IntegerTextLength(d);
      IntegerNulFree(d.mantissa);
      Finish(IntegerText(d.mantissa), t);
      offset := offset + |IntegerText(d.mantissa)|;
    }

    method PrintWord(word: Text, needed: nat, ghost t: Text) returns (ok: bool)
      requires Flushed(t) && NulFree(word) && |word| <= needed
      modifies this, buffer
      ensures ok <==> Ensures(needed, |t|, old(Cap()))
      ensures Kept() && (ok ==> Holds(t + word))
    {
      ok := Ensure(needed, t);
      if ok { Finish(word, t); }
    }

    /** print_value. */
    method PrintValue(j: Json, depth: nat, format: bool, ghost t: Text) returns (ok: bool)
      requires Flushed(t) && Printable(j)
      modifies this, buffer
      ensures ok <==> Fits(j, depth, format, |t|, old(Cap()))
      ensures Kept() && (ok ==> Holds(t + Print(j, depth, format)))
      decreases j, 3
    {
      match j {
        case Null => ok := PrintWord(NULL_TEXT, 5, t);
        case False => ok := PrintWord(FALSE_TEXT, 6, t);
        case True => ok := PrintWord(TRUE_TEXT, 5, t);
        case Number(d) => ok := PrintNumber(d, t);
        case String(s) => ok := PrintString(s, t);
        case Array(items) => ok := PrintArray(items, depth, format, t);
        case Object(members) => ok := PrintObject(members, depth, format, t);
      }
    }

    /** Ensure, then write and advance: a separator. */
    method Separator(s: Text, needed: nat, ghost t: Text) returns (ok: bool)
      requires Flushed(t) && NulFree(s) && |s| <= needed
      modifies this, buffer
      ensures ok <==> Ensures(needed, |t|, old(Cap()))
      ensures Kept() && (ok ==> Flushed(t + s))
    {
      ok := Ensure(needed, t);
      if ok { Advance(s, t); }
    }

    /** print_array. */
    method PrintArray(items: seq<Json>, depth: nat, format: bool, ghost t: Text) returns (ok: bool)
      requires Flushed(t) && PrintableItems(items)
      modifies this, buffer
      ensures ok <==> Fits(Array(items), depth, format, |t|, old(Cap()))
      ensures Kept() && (ok ==> Holds(t + Print(Array(items), depth, format)))
      decreases items, 2
    {
      hide Flushed, Holds, Print, PrintItems, Ensures, Fits, FitsItem, ItemText;
      ArrayShape(items, depth, format, |t|, Cap());
      ok := Separator([LBRACKET], 1, t);
      if !ok { return; }
      ghost var whole := t + [LBRACKET] + PrintItems(items, depth, format);
      ghost var now := t + [LBRACKET];
      var i := 0;
      while i < |items|
        invariant i <= |items| && Flushed(now) && Kept() && PrintableItems(items[i..])
        invariant now + PrintItems(items[i..], depth, format) == whole
        invariant Fits(Array(items), depth, format, |t|, old(Cap())) ==
                  FitsItems(items[i..], depth, format, |now|, old(Cap()))
      {
        ghost var rest := items[i..];
        assert rest[0] == items[i] && rest[1..] == items[i + 1..];
        ItemsText(rest, depth, format);
        ok := PrintItem(items[i], depth, format, i + 1 == |items|, now);
        if !ok { return; }
        now := now + ItemText(items[i], depth, format, i + 1 == |items|);
        i := i + 1;
      }
      assert now + [] == now && now + [RBRACKET] == t + Print(Array(items), depth, format);
      ok := PrintWord([RBRACKET], 2, now);
    }

    /** One turn of print_array's loop. */
    method PrintItem(item: Json, depth: nat, format: bool, last: bool, ghost t: Text) returns (ok: bool)
      requires Flushed(t) && Printable(item)
      modifies this, buffer
      ensures ok <==> FitsItem(item, depth, format, |t|, last, old(Cap()))
      ensures Kept() && (ok ==> Flushed(t + ItemText(item, depth, format, last)))
      decreases item, 4
    {
      hide Flushed, Holds, Print, Ensures, Fits, Printable;
      ok := PrintValue(item, depth + 1, format, t);
      if !ok { return; }
      UpdateOffset(t + Print(item, depth + 1, format));
      if !last {
        ok := Separator(Comma(format), |Comma(format)| + 1, t + Print(item, depth + 1, format));
      }
      assert t + Print(item, depth + 1, format) + Comma(format) == t + (Print(item, depth + 1, format) + Comma(format));
    }

    /** print_object. */
    method PrintObject(members: seq<Member>, depth: nat, format: bool, ghost t: Text) returns (ok: bool)
      requires Flushed(t) && PrintableMembers(members)
      modifies this, buffer
      ensures ok <==> Fits(Object(members), depth, format, |t|, old(Cap()))
      ensures Kept() && (ok ==> Holds(t + Print(Object(members), depth, format)))
      decreases members, 3
    {
      hide Flushed, Holds, Print, Ensures, Fits, FitsLine, LineText, PrintMembers, Opening;
      ObjectShape(members, depth, format, |t|, Cap());
      ok := Separator(Opening(format), |Opening(format)| + 1, t);
      if !ok { return; }
      ghost var now := t + Opening(format);
      ghost var close := Indent(depth, format) + [RBRACE];
      ghost var whole := now + PrintMembers(members, depth, format);
      var i := 0;
      while i < |members|
        invariant i <= |members| && Flushed(now) && Kept() && PrintableMembers(members[i..])
        invariant now + PrintMembers(members[i..], depth, format) == whole
        invariant Fits(Object(members), depth, format, |t|, old(Cap())) ==
                  FitsMembers(members[i..], depth, format, |now|, old(Cap()))
      {
        ghost var rest := members[i..];
        assert rest[0] == members[i] && rest[1..] == members[i + 1..];
        MembersText(rest, depth, format);
        ok := PrintLine(members[i], depth, format, i + 1 == |members|, now);
        if !ok { return; }
        now := now + LineText(members[i], depth, format, i + 1 == |members|);
        i := i + 1;
      }
      assert now + [] == now && now + close == t + Print(Object(members), depth, format);
      ok := PrintWord(Indent(depth, format) + [RBRACE], if format then depth + 2 else 2, now);
    }

    /** One turn of print_object's loop. */
    method PrintLine(m: Member, depth: nat, format: bool, last: bool, ghost t: Text) returns (ok: bool)
      requires Flushed(t) && NulFree(m.key) && Printable(m.value)
      modifies this, buffer
      ensures ok <==> FitsLine(m, depth, format, |t|, last, old(Cap()))
      ensures Kept() && (ok ==> Flushed(t + LineText(m, depth, format, last)))
      decreases m.value, 6
    {
      hide Flushed, Ensures, FitsMember, MemberText, Printable, NulFree, MemberEnd;
      if format {
        TextsNulFree(format, last);
        ok := Separator(Tabs(depth + 1), depth + 1, t);
        if !ok { return; }
      }
      ghost var now := t + Indent(depth + 1, format);
      assert !format ==> now == t;
      ok := PrintMember(m, depth, format, last, now);
      assert now + (MemberText(m, depth, format) + MemberEnd(last, format)) == t + LineText(m, depth, format, last);
    }

    /** The member of one line, from the key on. */
    method PrintMember(m: Member, depth: nat, format: bool, last: bool, ghost t: Text) returns (ok: bool)
      requires Flushed(t) && NulFree(m.key) && Printable(m.value)
      modifies this, buffer
      ensures ok <==> FitsMember(m, depth, format, |t|, last, old(Cap()))
      ensures Kept() && (ok ==> Flushed(t + (MemberText(m, depth, format) + MemberEnd(last, format))))
      decreases m.value, 5
    {
      hide Flushed, Holds, Print, Ensures, Fits, Printable, NulFree, Quoted, Colon, MemberEnd;
      ghost var value, end := Print(m.value, depth + 1, format), MemberEnd(last, format);
      ok := PrintKey(m.key, format, t);
      if !ok { return; }
      ghost var now := t + Quoted(m.key) + Colon(format);
      ok := PrintMemberValue(m.value, depth, format, last, now);
      assert now + value == t + MemberText(m, depth, format);
      assert now + value + end == t + (MemberText(m, depth, format) + end);
    }

    method PrintKey(key: Text, format: bool, ghost t: Text) returns (ok: bool)
      requires Flushed(t) && NulFree(key)
      modifies this, buffer
      ensures ok <==> Ensures(|Quoted(key)| + 1, |t|, old(Cap()))
                      && Ensures(|Colon(format)|, |t + Quoted(key)|, old(Cap()))
      ensures Kept() && (ok ==> Flushed(t + Quoted(key) + Colon(format)))
    {
      hide Flushed, Holds, Ensures, NulFree, Quoted, Colon;
      TextsNulFree(format, true);
      ok := PrintString(key, t);
      if !ok { return; }
      UpdateOffset(t + Quoted(key));
      ok := Separator(Colon(format), |Colon(format)|, t + Quoted(key));
    }

    method PrintMemberValue(value: Json, depth: nat, format: bool, last: bool, ghost t: Text) returns (ok: bool)
      requires Flushed(t) && Printable(value)
      modifies this, buffer
      ensures ok <==> Fits(value, depth + 1, format, |t|, old(Cap()))
                      && Ensures(|MemberEnd(last, format)| + 1, |t + Print(value, depth + 1, format)|, old(Cap()))
      ensures Kept() && (ok ==> Flushed(t + Print(value, depth + 1, format) + MemberEnd(last, format)))
      decreases value, 4
    {
      hide Flushed, Holds, Print, Ensures, Fits, Printable, NulFree, MemberEnd;
      TextsNulFree(format, last);
      ok := PrintValue(value, depth + 1, format, t);
      if !ok { return; }
      UpdateOffset(t + Print(value, depth + 1, format));
      ok := Separator(MemberEnd(last, format), |MemberEnd(last, format)| + 1, t + Print(value, depth + 1, format));
    }
  }

  // ----- the entry points -----

  /** A fixed buffer that works also works for the growing printer. */
  predicate PrintSucceeds(j: Json, format: bool)
    requires Printable(j)
  {
    Fits(j, 0, format, 0, None)
  }

  /**
   * cJSON_PrintPreallocated: never writes at or beyond `len`, succeeds exactly when every `ensure` fits,
   * and on success the buffer holds the text and its NUL.
   */
  method PrintPreallocated(j: Json, buf: array<byte>, len: nat, format: bool) returns (ok: bool)
    requires Printable(j) && len <= buf.Length && len <= INT_MAX
    modifies buf
    ensures ok <==> Fits(j, 0, format, 0, Some(len))
    ensures ok ==> var t := Print(j, 0, format); |t| < len && buf[..|t|] == t && buf[|t|] == NUL
    ensures buf[len..] == old(buf[len..])
  {
    var p := new PrintBuffer(buf, len, true);
    ok := p.PrintValue(j, 0, format, []);
    assert [] + Print(j, 0, format) == Print(j, 0, format);
  }

  /** print: starts from a 256-byte block recorded with length 0, so that the first `ensure` reallocates. */
  method PrintGrowing(j: Json, format: bool) returns (printed: array?<byte>)
    requires Printable(j)
    ensures printed != null <==> PrintSucceeds(j, format)
    ensures printed != null ==>
              var t := Print(j, 0, format);
              |t| < printed.Length && printed[..|t|] == t && printed[|t|] == NUL
  {
    var block := new byte[256];
    var p := new PrintBuffer(block, 0, false);
    var ok := p.PrintValue(j, 0, format, []);
    assert [] + Print(j, 0, format) == Print(j, 0, format);
    if !ok { return null; }
    p.UpdateOffset(Print(j, 0, format));
    printed := p.buffer;
  }

  lemma EscapeStep(s: Text, i: nat)
    requires i < |s|
    ensures Escape(s[i..]) == EscapeByte(s[i]) + Escape(s[i + 1..])
  {
    assert s[i..][1..] == s[i + 1..];
  }

  lemma EscapeEnd(s: Text)
    ensures Escape(s[|s|..]) == [] && s[0..] == s && [] + Escape(s) == Escape(s)
  {
  }

  lemma EscapeNulFree(s: Text)
    requires NulFree(s)
    ensures NulFree(Escape(s))
  {
    if s != [] { EscapeNulFree(s[1..]); }
  }

  lemma PlainEscape(s: Text)
    requires |Escape(s)| == |s|
    ensures Escape(s) == s
  {
    EscapeLonger(s);
  }

  lemma EscapeLonger(s: Text)
    ensures |Escape(s)| >= |s| && (|Escape(s)| == |s| ==> Escape(s) == s)
  {
    if s != [] {
      EscapeLonger(s[1..]);
      assert [s[0]] + s[1..] == s;
    }
  }

  lemma IntegerNulFree(n: int)
    ensures NulFree(IntegerText(n))
  {
  }

  lemma ArrayShape(items: seq<Json>, depth: nat, format: bool, at: nat, cap: Option<nat>)
    requires PrintableItems(items)
    ensures Print(Array(items), depth, format) == [LBRACKET] + PrintItems(items, depth, format) + [RBRACKET]
    ensures Fits(Array(items), depth, format, at, cap) ==
            (Ensures(1, at, cap) && FitsItems(items, depth, format, at + 1, cap))
    ensures PrintItems([], depth, format) == []
  {
  }

  lemma ItemsText(items: seq<Json>, depth: nat, format: bool)
    requires PrintableItems(items) && items != []
    ensures PrintItems(items, depth, format) ==
            ItemText(items[0], depth, format, |items| == 1) + PrintItems(items[1..], depth, format)
  {
    hide Print, Printable;
    AfterFirst(items, depth, format);
  }

  lemma ObjectShape(members: seq<Member>, depth: nat, format: bool, at: nat, cap: Option<nat>)
    requires PrintableMembers(members)
    ensures Print(Object(members), depth, format) ==
            Opening(format) + PrintMembers(members, depth, format) + (Indent(depth, format) + [RBRACE])
    ensures Fits(Object(members), depth, format, at, cap) ==
            (Ensures(|Opening(format)| + 1, at, cap)
             && FitsMembers(members, depth, format, at + |Opening(format)|, cap))
    ensures NulFree(Opening(format)) && PrintMembers([], depth, format) == []
  {
  }

  lemma TextsNulFree(format: bool, last: bool)
    ensures NulFree(Colon(format)) && NulFree(MemberEnd(last, format)) && forall n :: NulFree(Tabs(n))
  {
  }

  lemma MembersText(members: seq<Member>, depth: nat, format: bool)
    requires PrintableMembers(members) && members != []
    ensures PrintMembers(members, depth, format) ==
            LineText(members[0], depth, format, |members| == 1) + PrintMembers(members[1..], depth, format)
  {
    hide Quoted, Colon, Print, MemberEnd, Indent, Printable;
    var m, rest := members[0], PrintMembers(members[1..], depth, format);
    var key, colon := Quoted(m.key), Colon(format);
    var value, end := Print(m.value, depth + 1, format), MemberEnd(|members| == 1, format);
    assert key + (colon + (value + (end + rest))) == (key + (colon + value) + end) + rest;
  }
}
