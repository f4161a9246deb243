/**
 * `parse_string` as it runs: one pass to size the output, one pass to fill it. A bad hex digit lets a
 * \u literal swallow bytes the first pass counted as escapes, so the passes can fall out of step; the
 * output still stays inside the allocation.
 */
module JsonStringMemory {
  import opened Bytes
  import opened JsonTree
  import opened Utf8
  import opened JsonString

  /** How many escapes the first pass, starting at `i`, finds to begin before `p`. */
  function Escapes(c: Text, i: nat, p: nat): (n: nat)
    requires i <= |c|
    decreases |c| - i
  {
    if i >= p || i >= |c| then 0
    else if c[i] == BACKSLASH then if i + 1 >= |c| then 1 else 1 + Escapes(c, i + 2, p)
    else Escapes(c, i + 1, p)
  }

  lemma {:induction false} ScanCountsEscapes(c: Text, i: nat, skipped: nat)
    requires i <= |c| && ScanFrom(c, i, skipped).Closed?
    ensures var r := ScanFrom(c, i, skipped);
            r.skipped == skipped + Escapes(c, i, r.end) && Escapes(c, i, r.end + 1) == Escapes(c, i, r.end)
    decreases |c| - i
  {
    if c[i] == BACKSLASH {
      ScanCountsEscapes(c, i + 2, skipped + 1);
    } else if c[i] != QUOTE {
      ScanCountsEscapes(c, i + 1, skipped);
    } else {
      assert Escapes(c, i + 1, i + 1) == 0;
    }
  }

  /** Escapes begin at least two bytes apart. */
  lemma {:induction false} EscapesSpread(c: Text, i: nat, p: nat)
    requires i <= |c| && i <= p
    ensures Escapes(c, i, p + 1) <= Escapes(c, i, p) + 1
    ensures Escapes(c, i, p + 2) <= Escapes(c, i, p) + 1
    ensures p < |c| && c[p] != BACKSLASH ==> Escapes(c, i, p + 1) == Escapes(c, i, p)
    decreases |c| - i
  {
    if i < |c| {
      if c[i] != BACKSLASH {
        EscapesSpread(c, i + 1, if p > i then p else p + 1);
      } else if i + 1 < |c| {
        EscapesSpread(c, i + 2, if p >= i + 2 then p else i + 2);
      }
    }
  }

  /** Input bytes up to `p` less the escapes among them: what the allocation allows for them. */
  function Room(c: Text, start: nat, p: nat): int
    requires start <= |c|
  {
    p - start - Escapes(c, start, p)
  }

  lemma {:induction false} RoomGrows(c: Text, start: nat, p: nat, q: nat)
    requires start <= |c| && start <= p <= q
    ensures Room(c, start, q) - Room(c, start, p) >= (q - p) / 2
    decreases q - p
  {
    if q - p == 1 {
      EscapesSpread(c, start, p);
    } else if q - p >= 2 {
      EscapesSpread(c, start, q - 2);
      RoomGrows(c, start, p, q - 2);
    }
  }

  lemma RoomPlain(c: Text, start: nat, p: nat)
    requires start <= p < |c| && c[p] != BACKSLASH
    ensures Room(c, start, p + 1) == Room(c, start, p) + 1
  {
    EscapesSpread(c, start, p);
  }

  lemma {:induction false} UnescapeFits(c: Text, start: nat, p: nat, end: nat)
    requires start <= p && start <= |c| && end < |c| && Unescape(c, p, end).Done?
    ensures Room(c, start, p) + |Unescape(c, p, end).text| <= Room(c, start, if p > end then p else end + 1)
    decreases if p <= end then end + 1 - p else 0
  {
    if p < end {
      if c[p] != BACKSLASH {
        EscapesSpread(c, start, p);
        UnescapeFits(c, start, p + 1, end);
      } else if c[p + 1] == 117 {
        var u := ReadUtf16(c, p, end);
        RoomGrows(c, start, p, p + u.length);
        UnescapeFits(c, start, p + u.length, end);
      } else {
        RoomGrows(c, start, p, p + 2);
        UnescapeFits(c, start, p + 2, end);
      }
    } else {
      RoomGrows(c, start, p, if p > end then p else end + 1);
    }
  }

  /** The bytes written and their NUL never exceed (input_end - start) - skipped_bytes + 1. */
  lemma OutputFitsAllocation(c: Text, o: nat)
    requires o < |c| && ParseString(c, o).Parsed?
    ensures var scan := ScanFrom(c, o + 1, 0);
            scan.Closed? && |ParseString(c, o).value| + 1 <= (scan.end - o) - scan.skipped + 1
  {
    var scan := ScanFrom(c, o + 1, 0);
    ScanCountsEscapes(c, o + 1, 0);
    UnescapeFits(c, o + 1, o + 1, scan.end);
    assert Escapes(c, o + 1, o + 1) == 0;
  }

  function Digit(c: Text, i: nat): nat
    requires i < |c|
  {
    if HexValue(c[i]).Some? then HexValue(c[i]).value else 0
  }

  /** The loop of parse_hex4. */
  method ParseHex4(c: Text, p: nat) returns (h: nat)
    requires p + 4 <= |c|
    ensures h == Hex4(c, p)
  {
    h := 0;
    var i := 0;
    while i < 4
      invariant i <= 4
      invariant forall j :: p <= j < p + i ==> HexValue(c[j]).Some?
      invariant i == 0 ==> h == 0
      invariant i == 1 ==> h == Digit(c, p) * 16
      invariant i == 2 ==> h == (Digit(c, p) * 16 + Digit(c, p + 1)) * 16
      invariant i == 3 ==> h == ((Digit(c, p) * 16 + Digit(c, p + 1)) * 16 + Digit(c, p + 2)) * 16
      invariant i == 4 ==> h == Hex4(c, p)
    {
      if HexValue(c[p + i]).None? { return 0; }
      h := h + HexValue(c[p + i]).value;
      if i < 3 { h := h * 16; }
      i := i + 1;
    }
  }

  /** utf16_literal_to_utf8: writes `n` bytes at `at`; length 0 means the literal is no good. */
  method Utf16LiteralToUtf8(c: Text, p: nat, end: nat, output: array<byte>, at: nat)
    returns (length: nat, n: nat)
    requires p <= end <= |c|
    requires ReadUtf16(c, p, end).Utf16? ==> at + EncodedLength(ReadUtf16(c, p, end).cp) <= output.Length
    modifies output
    ensures var u := ReadUtf16(c, p, end);
            if u.BadLiteral? then length == 0
            else
              && length == u.length && n == EncodedLength(u.cp)
              && output[at..at + n] == Encode(u.cp) && output[..at] == old(output[..at])
  {
    n := 0;
    if end - p < 6 { return 0, 0; }
    var first := ParseHex4(c, p + 2);
    if IsLow(first) { return 0, 0; }
    var cp := first;
    length := 6;
    if IsHigh(first) {
      length := 12;
      if end - (p + 6) < 6 { return 0, 0; }
      if c[p + 6] != BACKSLASH || c[p + 7] != 117 { return 0, 0; }
      var second := ParseHex4(c, p + 8);
      if !IsLow(second) { return 0, 0; }
      cp := Combine(first, second);
    }
    n := EncodedLength(cp);
    EncodeInto(cp, output, at);
  }

  /** The "encode as UTF-8" loop: continuation bytes from the last to the second, then the first byte. */
  method EncodeInto(codepoint: nat, output: array<byte>, at: nat)
    requires codepoint < 0x110000 && at + EncodedLength(codepoint) <= output.Length
    modifies output
    ensures output[at..at + EncodedLength(codepoint)] == Encode(codepoint)
    ensures output[..at] == old(output[..at])
  {
    ghost var encoded := Encode(codepoint);
    var length := EncodedLength(codepoint);
    var mark := if length == 1 then 0 else if length == 2 then 0xC0 else if length == 3 then 0xE0 else 0xF0;
    var cp := codepoint;
    var position := length - 1;
    while position > 0
      invariant 0 <= position < length
      invariant cp == Shifted(codepoint, length - 1 - position)
      invariant forall k :: at + position < k < at + length ==> output[k] == encoded[k - at]
      invariant forall k :: 0 <= k < at ==> output[k] == old(output[k])
    {
      EncodeByte(codepoint, position);
      output[at + position] := Continuation(cp);
      cp := cp / 64;
      position := position - 1;
    }
    FirstByte(codepoint);
    output[at] := mark + cp;
  }

  lemma FirstByte(cp: nat)
    requires cp < 0x110000
    ensures var n := EncodedLength(cp);
            Encode(cp)[0] == (if n == 1 then 0 else if n == 2 then 0xC0 else if n == 3 then 0xE0 else 0xF0)
                             + Shifted(cp, n - 1)
  {
  }

  /** The code point after `k` right shifts by six. */
  function Shifted(cp: nat, k: nat): nat {
    if k == 0 then cp else if k == 1 then cp / 64 else if k == 2 then cp / 64 / 64 else cp / 64 / 64 / 64
  }

  lemma EncodeByte(cp: nat, position: nat)
    requires cp < 0x110000 && 0 < position < EncodedLength(cp)
    ensures Encode(cp)[position] == Continuation(Shifted(cp, EncodedLength(cp) - 1 - position))
  {
  }

  /** parse_string. */
  method ParseStringAt(c: Text, o: nat) returns (r: ParseResult<Text>)
    requires o < |c|
    ensures r == ParseString(c, o)
  {
    var inputPointer, inputEnd := o + 1, o + 1;
    if c[o] != QUOTE { return Failed(inputPointer); }
    var skipped := 0;
    while inputEnd < |c| && c[inputEnd] != QUOTE
      invariant o + 1 <= inputEnd <= |c|
      invariant ScanFrom(c, o + 1, 0) == ScanFrom(c, inputEnd, skipped)
    {
      if c[inputEnd] == BACKSLASH {
        if inputEnd + 1 >= |c| { return Failed(inputPointer); }
        skipped := skipped + 1;
        inputEnd := inputEnd + 1;
      }
      inputEnd := inputEnd + 1;
    }
    if inputEnd >= |c| { return Failed(inputPointer); }
    ScanCountsEscapes(c, o + 1, 0);
    RoomGrows(c, o + 1, o + 1, inputEnd + 1);
    r := Fill(c, o, inputEnd, skipped);
  }

  /** The second pass, into an output of the size the first pass computed. */
  method Fill(c: Text, o: nat, end: nat, skipped: nat) returns (r: ParseResult<Text>)
    requires o < end < |c| && skipped == Escapes(c, o + 1, end + 1) <= end - o
    ensures r == match Unescape(c, o + 1, end)
                 case Bad(at) => Failed(at)
                 case Done(text) => Parsed(text, end + 1)
  {
    ghost var start := o + 1;
    assert Escapes(c, start, start) == 0;
    var output := new byte[end - o - skipped + 1];
    var p, k := o + 1, 0;
    ghost var text: Text := [];
    while p < end
      invariant start <= p <= end + 1 && k <= Room(c, start, p)
      invariant k == |text| <= output.Length && output[..k] == text
      invariant Unescape(c, start, end) == Prepend(text, Unescape(c, p, end))
    {
      var length, n := Step(c, start, p, end, output, k);
      if length == 0 { return Failed(p); }
      ghost var piece := output[k..k + n];
      assert output[..k + n] == text + piece;
      PrependTwice(text, piece, Unescape(c, p + length, end));
      text := text + piece;
      p, k := p + length, k + n;
    }
    RoomGrows(c, start, p, end + 1);
    output[k] := NUL;
    assert output[..k] == text == text + [];
    r := Parsed(output[..k], end + 1);
  }

  /** One turn of the second pass: `length` input bytes become `n` output bytes at `k`; 0 means failure. */
  method Step(c: Text, ghost start: nat, p: nat, end: nat, output: array<byte>, k: nat) returns (length: nat, n: nat)
    requires start <= |c| && start <= p < end < |c|
    requires k <= Room(c, start, p) && Room(c, start, end + 1) < output.Length
    modifies output
    ensures length == 0 ==> Unescape(c, p, end) == Bad(p)
    ensures length > 0 ==>
              && p + length <= end + 1 && k + n <= Room(c, start, p + length) && k + n <= output.Length
              && output[..k] == old(output[..k])
              && Unescape(c, p, end) == Prepend(output[k..k + n], Unescape(c, p + length, end))
  {
    hide Room, ReadUtf16, Encode;
    if c[p] != BACKSLASH {
      RoomPlain(c, start, p);
      RoomGrows(c, start, p, end + 1);
      output[k] := c[p];
      assert output[k..k + 1] == [c[p]];
      length, n := 1, 1;
    } else if c[p + 1] == 117 {
      ghost var u := ReadUtf16(c, p, end);
      if u.Utf16? {
        RoomGrows(c, start, p, p + u.length);
        RoomGrows(c, start, p + u.length, end + 1);
      }
      length, n := Utf16LiteralToUtf8(c, p, end, output, k);
    } else {
      var b := SimpleEscape(c[p + 1]);
      if b.None? { return 0, 0; }
      RoomGrows(c, start, p, p + 2);
      RoomGrows(c, start, p + 2, end + 1);
      output[k] := b.value;
      assert output[k..k + 1] == [b.value];
      length, n := 2, 1;
    }
  }
}
