/**
 * `skip_and_expand_character_refs`: expansion of character references and condensing of whitespace,
 * written over the very text that is still being read.
 */
module XmlExpand {
  import opened Bytes
  import opened Utf8

  const LT: byte := 60
  const GT: byte := 62
  const AMP: byte := 38
  const APOS: byte := 39
  const SEMICOLON: byte := 59
  const HASH: byte := 35

  /** The parse flags the routine looks at. */
  datatype Flags = Flags(noEntities: bool, normalize: bool, trim: bool, noUtf8: bool)

  /** What is being skipped: character data, or an attribute value up to its quote. */
  datatype Region = Data | Quoted(quote: byte)

  predicate IsWhitespace(b: byte) { b == SPACE || b == LF || b == CR || b == TAB }

  /** StopPred: the bytes that belong to the region. */
  predicate Inside(r: Region, b: byte) {
    b != NUL && match r case Data => b != LT case Quoted(q) => b != q
  }

  /** StopPredPure: the bytes the fast skip may pass over. */
  predicate Pure(r: Region, f: Flags, b: byte) {
    Inside(r, b) && b != AMP && (Condenses(r, f) ==> !IsWhitespace(b))
  }

  /** Attribute values are expanded with whitespace normalization switched off. */
  predicate Condenses(r: Region, f: Flags) { r.Data? && f.normalize }

  // ----- character references -----

  const AMP_REF: Text := [38, 97, 109, 112, 59]
  const APOS_REF: Text := [38, 97, 112, 111, 115, 59]
  const QUOT_REF: Text := [38, 113, 117, 111, 116, 59]
  const GT_REF: Text := [38, 103, 116, 59]
  const LT_REF: Text := [38, 108, 116, 59]

  /** lookup_digits: hexadecimal digits, whatever the base. */
  function DigitValue(b: byte): (r: Option<nat>)
    ensures r.Some? ==> r.value < 16
  {
    if 48 <= b <= 57 then Some(b - 48)
    else if 65 <= b <= 70 then Some(b - 55)
    else if 97 <= b <= 102 then Some(b - 87)
    else None
  }

  const WORD: nat := 0x1_0000_0000_0000_0000  // unsigned long, 64 bits

  /** The digit loop: the code read so far, continued from `i`, and where the digits end. */
  function ReadCode(c: Text, i: nat, base: nat, code: nat): (r: (nat, nat))
    requires Terminated(c) && i < |c|
    ensures i <= r.1 < |c|
    decreases |c| - i
  {
    match DigitValue(c[i])
    case None => (code, i)
    case Some(d) => ReadCode(c, i + 1, base, (code * base + d) % WORD)
  }

  datatype Reference = NoReference | Replaced(bytes: Text, next: nat) | BadCode | NoSemicolon(at: nat)

  /** insert_coded_character. */
  function Coded(code: nat, noUtf8: bool): Option<Text> {
    if noUtf8 then Some([code % 256]) else if code < 0x110000 then Some(Encode(code)) else None
  }

  /** The code a numeric reference names, and where its digits end: hexadecimal after "&#x", else decimal. */
  function NumericCode(c: Text, i: nat): (r: (nat, nat))
    requires Terminated(c) && At(c, i, [AMP, HASH])
    ensures i + 2 <= r.1 < |c|
  {
    assert c[i..i + 2][0] == AMP && c[i..i + 2][1] == HASH;
    if c[i + 2] == 120 then ReadCode(c, i + 3, 16, 0) else ReadCode(c, i + 2, 10, 0)
  }

  function NumericReference(c: Text, i: nat, noUtf8: bool): (r: Reference)
    requires Terminated(c) && At(c, i, [AMP, HASH])
    ensures r.Replaced? ==> i < r.next < |c| && 0 < |r.bytes| <= r.next - i
    ensures r.NoSemicolon? ==> i < r.at < |c|
  {
    var (code, e) := NumericCode(c, i);
    NumericRoom(c, i, noUtf8);
    match Coded(code, noUtf8)
    case None => BadCode
    case Some(bytes) => if c[e] == SEMICOLON then Replaced(bytes, e + 1) else NoSemicolon(e)
  }

  lemma NumericRoom(c: Text, i: nat, noUtf8: bool)
    requires Terminated(c) && At(c, i, [AMP, HASH])
    ensures var (code, e) := NumericCode(c, i);
            Coded(code, noUtf8).Some? ==> 0 < |Coded(code, noUtf8).value| <= e - i
  {
    assert c[i..i + 2][0] == AMP && c[i..i + 2][1] == HASH;
    if c[i + 2] == 120 { ShortCode(c, i + 3, 16); } else { ShortCode(c, i + 2, 10); }
  }

  /** The encoded code is never longer than "&#" and its digits. */
  lemma ShortCode(c: Text, i: nat, base: nat)
    requires Terminated(c) && i < |c| && (base == 10 || base == 16)
    ensures var (code, e) := ReadCode(c, i, base, 0);
            (code >= 0x80 ==> e >= i + 2) && (code >= 0x800 ==> e >= i + 3) && (code >= 0x10000 ==> e >= i + 4)
  {
    if DigitValue(c[i]).Some? {
      var v0 := AfterDigit(c, i, base, 0);
      if DigitValue(c[i + 1]).Some? {
        var v1 := AfterDigit(c, i + 1, base, v0);
        if DigitValue(c[i + 2]).Some? {
          var v2 := AfterDigit(c, i + 2, base, v1);
        }
      }
    }
  }

  /** One turn of the digit loop, while the code is small. */
  lemma AfterDigit(c: Text, i: nat, base: nat, code: nat) returns (v: nat)
    requires Terminated(c) && i < |c| && (base == 10 || base == 16) && code < 0x1000 && DigitValue(c[i]).Some?
    ensures i + 1 < |c| && v <= code * 16 + 15 && ReadCode(c, i, base, code) == ReadCode(c, i + 1, base, v)
  {
    hide DigitValue;
    var digit := DigitValue(c[i]).value;
    v := code * base + digit;
    SmallProduct(code, base, digit);
    DigitIsNotLast(c, i);
  }

  lemma DigitIsNotLast(c: Text, i: nat)
    requires Terminated(c) && i < |c| && DigitValue(c[i]).Some?
    ensures i + 1 < |c|
  {
  }

  lemma SmallProduct(code: nat, base: nat, digit: nat)
    requires code < 0x1000 && (base == 10 || base == 16) && digit < 16
    ensures code * base + digit <= code * 16 + 15 && (code * base + digit) % WORD == code * base + digit
  {
  }

  function ReferenceAt(c: Text, i: nat, noUtf8: bool): (r: Reference)
    requires Terminated(c) && i < |c| && c[i] == AMP
    ensures r.Replaced? ==> i < r.next < |c| && 0 < |r.bytes| <= r.next - i
    ensures r.NoSemicolon? ==> i < r.at < |c|
  {
    if At(c, i, AMP_REF) then Replaced([AMP], i + 5)
    else if At(c, i, APOS_REF) then Replaced([APOS], i + 6)
    else if At(c, i, QUOT_REF) then Replaced([QUOTE], i + 6)
    else if At(c, i, GT_REF) then Replaced([GT], i + 4)
    else if At(c, i, LT_REF) then Replaced([LT], i + 4)
    else if c[i + 1] == HASH then NumericReference(c, i, noUtf8)
    else NoReference
  }

  // ----- the expansion as a function of the original text -----

  datatype Expansion = Expanded(text: Text, next: nat) | Failed(at: nat)

  function Glue(t: Text, e: Expansion): Expansion {
    if e.Expanded? then Expanded(t + e.text, e.next) else e
  }

  lemma GlueTwice(a: Text, b: Text, e: Expansion)
    ensures Glue(a, Glue(b, e)) == Glue(a + b, e) && Glue([], e) == e
  {
    if e.Expanded? {
      assert a + (b + e.text) == a + b + e.text;
      assert [] + e.text == e.text;
    }
  }

  function SkipBlanks(c: Text, i: nat): (e: nat)
    requires Terminated(c) && i < |c|
    ensures i <= e < |c|
    decreases |c| - i
  {
    if IsWhitespace(c[i]) then SkipBlanks(c, i + 1) else i
  }

  /** One turn of the loop at a byte inside the region: the bytes it yields and where it goes on. */
  function Turn(c: Text, i: nat, r: Region, f: Flags): (t: Reference)
    requires Terminated(c) && i < |c| && Inside(r, c[i])
    ensures t.Replaced? ==> i < t.next < |c| && 0 < |t.bytes| <= t.next - i
    ensures t.NoSemicolon? ==> i < t.at < |c|
    ensures !t.NoReference?
  {
    var reference := if !f.noEntities && c[i] == AMP then ReferenceAt(c, i, f.noUtf8) else NoReference;
    if !reference.NoReference? then reference
    else if Condenses(r, f) && IsWhitespace(c[i]) then Replaced([SPACE], SkipBlanks(c, i + 1))
    else Replaced([c[i]], i + 1)
  }

  /** The expansion from `i` on, the write position being `d`: an invalid code is reported there. */
  function Expand(c: Text, i: nat, d: nat, r: Region, f: Flags): (e: Expansion)
    requires Terminated(c) && i < |c|
    ensures e.Expanded? ==> i <= e.next < |c| && |e.text| <= e.next - i && !Inside(r, c[e.next])
    decreases |c| - i
  {
    if !Inside(r, c[i]) then Expanded([], i)
    else
      match Turn(c, i, r, f)
      case Replaced(bytes, next) => Glue(bytes, Expand(c, next, d + |bytes|, r, f))
      case NoSemicolon(at) => Failed(at)
      case _ => Failed(d)
  }

  // ----- the routine, in place -----

  /** The buffer: untouched up to `start`, then what has been written, then the text still to be read. */
  predicate Layout(s: Text, c: Text, start: nat, out: Text) {
    && start + |out| <= |s| == |c|
    && (forall k :: 0 <= k < start ==> s[k] == c[k])
    && (forall k :: start <= k < start + |out| ==> s[k] == out[k - start])
    && (forall k :: start + |out| <= k < |s| ==> s[k] == c[k])
  }

  /** Writes `bytes` behind what has been written. */
  method Put(a: array<byte>, at: nat, bytes: Text, ghost c: Text, ghost start: nat, ghost out: Text)
    requires Layout(a[..], c, start, out) && at == start + |out| && at + |bytes| <= |c|
    modifies a
    ensures Layout(a[..], c, start, out + bytes)
  {
    for k := 0 to |bytes|
      invariant Layout(a[..], c, start, out + bytes[..k])
    {
      a[at + k] := bytes[k];
      assert bytes[..k + 1] == bytes[..k] + [bytes[k]];
    }
    assert bytes[..|bytes|] == bytes;
  }

  /** insert_coded_character: the bytes, last one first. */
  method InsertCoded(a: array<byte>, text: nat, code: nat, noUtf8: bool) returns (n: nat)
    requires Coded(code, noUtf8).Some? ==> text + |Coded(code, noUtf8).value| <= a.Length
    modifies a
    ensures match Coded(code, noUtf8)
            case None => n == 0 && a[..] == old(a[..])
            case Some(bytes) => n == |bytes| && a[text..text + n] == bytes
                                && (forall k :: 0 <= k < a.Length && !(text <= k < text + n) ==> a[k] == old(a[k]))
  {
    if noUtf8 {
      a[text] := code % 256;
      n := 1;
    } else if code < 0x80 {
      a[text] := code;
      n := 1;
    } else if code < 0x800 {
      a[text + 1] := Continuation(code);
      a[text] := 0xC0 + code / 64;
      n := 2;
    } else if code < 0x10000 {
      a[text + 2] := Continuation(code);
      a[text + 1] := Continuation(code / 64);
      a[text] := 0xE0 + code / 64 / 64;
      n := 3;
    } else if code < 0x110000 {
      a[text + 3] := Continuation(code);
      a[text + 2] := Continuation(code / 64);
      a[text + 1] := Continuation(code / 64 / 64);
      a[text] := 0xF0 + code / 64 / 64 / 64;
      n := 4;
    } else {
      n := 0;
    }
  }

  /** The digit loop. */
  method TakeDigits(a: array<byte>, i: nat, base: nat, ghost c: Text) returns (code: nat, e: nat)
    requires Terminated(c) && i < |c| == a.Length && forall k :: i <= k < |c| ==> a[k] == c[k]
    ensures (code, e) == ReadCode(c, i, base, 0)
  {
    code, e := 0, i;
    while DigitValue(a[e]).Some?
      invariant i <= e < |c| && ReadCode(c, i, base, 0) == ReadCode(c, e, base, code)
      decreases |c| - e
    {
      code, e := (code * base + DigitValue(a[e]).value) % WORD, e + 1;
    }
  }

  /** `word` stands at `i`, which is not behind the write position. */
  method Sees(a: array<byte>, i: nat, word: Text, ghost c: Text, ghost start: nat, ghost out: Text) returns (sees: bool)
    requires Layout(a[..], c, start, out) && start + |out| <= i
    ensures sees == At(c, i, word)
  {
    sees := i + |word| <= a.Length && a[i..i + |word|] == word;
    if i + |word| <= |c| {
      assert a[i..i + |word|] == c[i..i + |word|];
    }
  }

  /** The base and the digits of a numeric reference. */
  method TakeCode(a: array<byte>, i: nat, ghost c: Text) returns (code: nat, e: nat)
    requires Terminated(c) && At(c, i, [AMP, HASH]) && |c| == a.Length
    requires forall k :: i <= k < |c| ==> a[k] == c[k]
    ensures (code, e) == NumericCode(c, i)
  {
    assert c[i] == c[i..i + 2][0] == AMP && c[i + 1] == c[i..i + 2][1] == HASH;
    if a[i + 2] == 120 {
      code, e := TakeDigits(a, i + 3, 16, c);
    } else {
      code, e := TakeDigits(a, i + 2, 10, c);
    }
  }

  /** insert_coded_character at the write position. */
  method Insert(a: array<byte>, d: nat, code: nat, noUtf8: bool, ghost c: Text, ghost start: nat, ghost out: Text)
    returns (n: nat)
    requires Layout(a[..], c, start, out) && d == start + |out|
    requires Coded(code, noUtf8).Some? ==> d + |Coded(code, noUtf8).value| <= |c|
    modifies a
    ensures match Coded(code, noUtf8)
            case None => n == 0 && Layout(a[..], c, start, out)
            case Some(bytes) => n == |bytes| > 0 && Layout(a[..], c, start, out + bytes)
  {
    hide Coded;
    n := InsertCoded(a, d, code, noUtf8);
    CodedNotEmpty(code, noUtf8);
    if n > 0 {
      ghost var bytes := Coded(code, noUtf8).value;
      assert forall k :: d <= k < d + n ==> a[k] == a[d..d + n][k - d] == bytes[k - d];
    }
  }

  lemma CodedNotEmpty(code: nat, noUtf8: bool)
    ensures Coded(code, noUtf8).Some? ==> |Coded(code, noUtf8).value| > 0
  {
  }

  /** The numeric branch: the code is written before the semicolon is looked for. */
  method TakeNumeric(a: array<byte>, i: nat, d: nat, noUtf8: bool, ghost c: Text, ghost start: nat, ghost out: Text)
    returns (t: Reference, n: nat)
    requires Terminated(c) && Layout(a[..], c, start, out) && d == start + |out| <= i && At(c, i, [AMP, HASH])
    modifies a
    ensures SameKind(t, NumericReference(c, i, noUtf8), n)
    ensures t.Replaced? ==> Layout(a[..], c, start, out + NumericReference(c, i, noUtf8).bytes)
    ensures forall k :: 0 <= k < start ==> a[k] == c[k]
  {
    var code, e := TakeCode(a, i, c);
    NumericRoom(c, i, noUtf8);
    n := Insert(a, d, code, noUtf8, c, start, out);
    if n == 0 { return BadCode, 0; }
    assert a[..][e] == c[e];
    t := if a[e] == SEMICOLON then Replaced([], e + 1) else NoSemicolon(e);
  }

  /** The outcome a step reports, its bytes having gone to the buffer: their number is `n`. */
  predicate SameKind(t: Reference, r: Reference, n: nat) {
    match r
    case Replaced(bytes, next) => t.Replaced? && t.next == next && n == |bytes|
    case _ => t == r
  }

  /** The switch over what follows an ampersand. */
  method TakeReference(a: array<byte>, i: nat, d: nat, noUtf8: bool, ghost c: Text, ghost start: nat, ghost out: Text)
    returns (t: Reference, n: nat)
    requires Terminated(c) && Layout(a[..], c, start, out) && d == start + |out| <= i < |c| && c[i] == AMP
    modifies a
    ensures SameKind(t, ReferenceAt(c, i, noUtf8), n)
    ensures t.Replaced? ==> Layout(a[..], c, start, out + ReferenceAt(c, i, noUtf8).bytes)
    ensures t.NoReference? ==> Layout(a[..], c, start, out)
    ensures forall k :: 0 <= k < start ==> a[k] == c[k]
  {
    assert a[..][i + 1] == c[i + 1];
    if a[i + 1] == HASH {
      HashOnly(c, i);
      t, n := TakeNumeric(a, i, d, noUtf8, c, start, out);
      return;
    }
    var word, length := [], 0;
    var sees := Sees(a, i, AMP_REF, c, start, out);
    if sees {
      word, length := [AMP], 5;
    } else {
      sees := Sees(a, i, APOS_REF, c, start, out);
      if sees {
        word, length := [APOS], 6;
      } else {
        sees := Sees(a, i, QUOT_REF, c, start, out);
        if sees {
          word, length := [QUOTE], 6;
        } else {
          sees := Sees(a, i, GT_REF, c, start, out);
          if sees {
            word, length := [GT], 4;
          } else {
            sees := Sees(a, i, LT_REF, c, start, out);
            if sees { word, length := [LT], 4; }
          }
        }
      }
    }
    if length == 0 { return NoReference, 0; }
    Put(a, d, word, c, start, out);
    t, n := Replaced([], i + length), 1;
  }

  lemma HashOnly(c: Text, i: nat)
    requires Terminated(c) && i < |c| && c[i] == AMP && c[i + 1] == HASH
    ensures At(c, i, [AMP, HASH])
    ensures !At(c, i, AMP_REF) && !At(c, i, APOS_REF) && !At(c, i, QUOT_REF) && !At(c, i, GT_REF) && !At(c, i, LT_REF)
  {
    assert c[i..i + 2] == [AMP, HASH];
    Second(c, i, AMP_REF);
    Second(c, i, APOS_REF);
    Second(c, i, QUOT_REF);
    Second(c, i, GT_REF);
    Second(c, i, LT_REF);
  }

  lemma Second(c: Text, i: nat, word: Text)
    requires i + 1 < |c| && |word| >= 2
    ensures At(c, i, word) ==> c[i + 1] == word[1]
  {
    if At(c, i, word) { assert c[i..i + |word|][1] == word[1]; }
  }

  /** One turn of the translation loop. */
  method TakeTurn(a: array<byte>, i: nat, d: nat, r: Region, f: Flags, ghost c: Text, ghost start: nat, ghost out: Text)
    returns (t: Reference, n: nat)
    requires Terminated(c) && Layout(a[..], c, start, out) && d == start + |out| <= i < |c| && Inside(r, c[i])
    modifies a
    ensures SameKind(t, Turn(c, i, r, f), n)
    ensures t.Replaced? ==> Layout(a[..], c, start, out + Turn(c, i, r, f).bytes)
    ensures forall k :: 0 <= k < start ==> a[k] == c[k]
  {
    assert a[..][i] == c[i];
    t, n := NoReference, 0;
    if !f.noEntities && a[i] == AMP {
      t, n := TakeReference(a, i, d, f.noUtf8, c, start, out);
      if !t.NoReference? { return; }
      assert a[..][i] == c[i];
    }
    if Condenses(r, f) && IsWhitespace(a[i]) {
      Put(a, d, [SPACE], c, start, out);
      var e := SkipBlanksAt(a, i + 1, c, start, out + [SPACE]);
      return Replaced([], e), 1;
    }
    Put(a, d, [a[i]], c, start, out);
    return Replaced([], i + 1), 1;
  }

  method SkipBlanksAt(a: array<byte>, i: nat, ghost c: Text, ghost start: nat, ghost out: Text) returns (e: nat)
    requires Terminated(c) && Layout(a[..], c, start, out) && start + |out| <= i < |c|
    ensures e == SkipBlanks(c, i)
  {
    e := i;
    while IsWhitespace(a[..][e])
      invariant i <= e < |c| && SkipBlanks(c, i) == SkipBlanks(c, e)
      decreases |c| - e
    {
      e := e + 1;
    }
  }

  lemma PureTurn(c: Text, i: nat, r: Region, f: Flags)
    requires Terminated(c) && i < |c| && Inside(r, c[i])
    requires Pure(r, f, c[i]) || (f.noEntities && !Condenses(r, f))
    ensures i + 1 < |c| && Turn(c, i, r, f) == Replaced([c[i]], i + 1)
  {
  }

  /** A turn that copies one byte, in front of everything after it. */
  lemma CopiedTurn(c: Text, start: nat, i: nat, r: Region, f: Flags)
    requires Terminated(c) && start <= i && i + 1 < |c| && Inside(r, c[i])
    requires Turn(c, i, r, f) == Replaced([c[i]], i + 1)
    ensures Glue(c[start..i], Expand(c, i, i, r, f)) == Glue(c[start..i + 1], Expand(c, i + 1, i + 1, r, f))
  {
    hide Turn, Expand;
    ExpandTurn(c, i, i, r, f);
    assert c[start..i + 1] == c[start..i] + [c[i]];
    GlueTwice(c[start..i], [c[i]], Expand(c, i + 1, i + 1, r, f));
  }

  /** skip<StopPredPure>: up to the first byte that may need processing; the text so far expands to itself. */
  method SkipPure(a: array<byte>, start: nat, r: Region, f: Flags) returns (i: nat)
    requires Terminated(a[..]) && start < a.Length
    ensures start <= i < a.Length
    ensures Expand(a[..], start, start, r, f) == Glue(a[start..i], Expand(a[..], i, i, r, f))
  {
    hide Turn;
    i := start;
    ghost var c := a[..];
    GlueTwice([], [], Expand(c, start, start, r, f));
    while Pure(r, f, a[i])
      invariant start <= i < a.Length
      invariant Expand(c, start, start, r, f) == Glue(c[start..i], Expand(c, i, i, r, f))
      decreases a.Length - i
    {
      PureTurn(c, i, r, f);
      CopiedTurn(c, start, i, r, f);
      i := i + 1;
    }
  }

  /** skip<StopPred>: the plain skip used when nothing is to be translated, condensed or trimmed. */
  method SkipInside(a: array<byte>, start: nat, r: Region, f: Flags) returns (i: nat)
    requires Terminated(a[..]) && start < a.Length && !MayTranslate(r, f)
    ensures start <= i < a.Length && Expand(a[..], start, start, r, f) == Expanded(a[start..i], i)
  {
    hide Turn;
    i := start;
    ghost var c := a[..];
    GlueTwice([], [], Expand(c, start, start, r, f));
    while Inside(r, a[i])
      invariant start <= i < a.Length
      invariant Expand(c, start, start, r, f) == Glue(c[start..i], Expand(c, i, i, r, f))
      decreases a.Length - i
    {
      PureTurn(c, i, r, f);
      CopiedTurn(c, start, i, r, f);
      i := i + 1;
    }
    assert c[start..i] + [] == c[start..i];
  }

  lemma Untouched(c: Text, start: nat, src: nat)
    requires start <= src <= |c|
    ensures Layout(c, c, start, c[start..src])
  {
  }

  lemma LayoutAt(s: Text, c: Text, start: nat, out: Text, i: nat)
    requires Layout(s, c, start, out) && start + |out| <= i < |c|
    ensures |s| == |c| && s[i] == c[i]
  {
  }

  lemma LayoutText(s: Text, c: Text, start: nat, out: Text)
    requires Layout(s, c, start, out)
    ensures start + |out| <= |c| && s == c[..start] + out + c[start + |out|..] && s[..start] == c[..start]
  {
  }

  /**
   * skip_and_expand_character_refs. The write position never passes the read position, nothing from the
   * returned end on is altered, and the bytes up to it are the expansion of the original text.
   */
  method ExpandInPlace(a: array<byte>, start: nat, r: Region, f: Flags) returns (result: Expansion, end: nat)
    requires Terminated(a[..]) && start < a.Length
    modifies a
    ensures match Expand(old(a[..]), start, start, r, f)
            case Failed(at) => result == Failed(at)
            case Expanded(text, next) =>
              && result == Expanded([], next) && start <= end == start + |text| <= next
              && Layout(a[..], old(a[..]), start, text)
    ensures forall k :: 0 <= k < start ==> a[k] == old(a[k])
  {
    hide *;
    ghost var c := a[..];
    if MayTranslate(r, f) {
      var src := SkipPure(a, start, r, f);
      Untouched(c, start, src);
      ghost var out;
      result, end, out := TranslateLoop(a, src, r, f, c, start, c[start..src]);
    } else {
      var i := SkipInside(a, start, r, f);
      Untouched(c, start, i);
      return Expanded([], i), i;
    }
  }

  /** Whether anything is to be translated, condensed or trimmed; if not, a plain skip does. */
  predicate MayTranslate(r: Region, f: Flags) { !f.noEntities || Condenses(r, f) || f.trim }

  /** The translation loop, from a read position that is also the write position. */
  method TranslateLoop(a: array<byte>, from: nat, r: Region, f: Flags, ghost c: Text, ghost start: nat,
                       ghost copied: Text)
    returns (result: Expansion, end: nat, ghost out: Text)
    requires Terminated(c) && start + |copied| == from < |c| && Layout(a[..], c, start, copied)
    requires Expand(c, start, start, r, f) == Glue(copied, Expand(c, from, from, r, f))
    modifies a
    ensures match Expand(c, start, start, r, f)
            case Failed(at) => result == Failed(at)
            case Expanded(text, next) =>
              && result == Expanded([], next) && out == text && start <= end == start + |text| <= next
              && Layout(a[..], c, start, text)
    ensures forall k :: 0 <= k < start ==> a[k] == c[k]
  {
    hide Expand, Turn, Layout, Inside;
    var src, dest := from, from;
    out := copied;
    LayoutAt(a[..], c, start, out, src);
    while Inside(r, a[src])
      invariant start <= dest <= src < |c| == a.Length && dest == start + |out| && Layout(a[..], c, start, out)
      invariant a[src] == c[src]
      invariant Expand(c, start, start, r, f) == Glue(out, Expand(c, src, dest, r, f))
      decreases |c| - src
    {
      ExpandTurn(c, src, dest, r, f);
      var t, n := TakeTurn(a, src, dest, r, f, c, start, out);
      if t.NoSemicolon? { return Failed(t.at), 0, out; }
      if !t.Replaced? { return Failed(dest), 0, out; }
      ghost var bytes := Turn(c, src, r, f).bytes;
      GlueTwice(out, bytes, Expand(c, t.next, dest + n, r, f));
      out := out + bytes;
      src, dest := t.next, dest + n;
      LayoutAt(a[..], c, start, out, src);
    }
    ExpandEnd(c, src, dest, r, f);
    LayoutText(a[..], c, start, out);
    assert out + [] == out;
    result, end := Expanded([], src), dest;
  }

  lemma ExpandTurn(c: Text, i: nat, d: nat, r: Region, f: Flags)
    requires Terminated(c) && i < |c| && Inside(r, c[i])
    ensures Expand(c, i, d, r, f) ==
            match Turn(c, i, r, f)
            case Replaced(bytes, next) => Glue(bytes, Expand(c, next, d + |bytes|, r, f))
            case NoSemicolon(at) => Failed(at)
            case _ => Failed(d)
  {
    hide Turn, Glue, Inside, Terminated;
  }

  lemma ExpandEnd(c: Text, i: nat, d: nat, r: Region, f: Flags)
    requires Terminated(c) && i < |c| && !Inside(r, c[i])
    ensures Expand(c, i, d, r, f) == Expanded([], i)
  {
  }
}
