/** What whitespace normalization leaves: when no two spaces stand in a row. */
module XmlCondense {
  import opened Bytes
  import opened Utf8
  import opened XmlExpand
  import opened XmlEscape

  /** No tab or line break, and no two spaces in a row. */
  predicate Condensed(t: Text) {
    forall k :: 0 <= k < |t| && IsWhitespace(t[k]) ==> t[k] == SPACE && (k + 1 < |t| ==> !IsWhitespace(t[k + 1]))
  }

  lemma AfterBlanks(c: Text, i: nat)
    requires Terminated(c) && i < |c|
    ensures !IsWhitespace(c[SkipBlanks(c, i)])
    decreases |c| - i
  {
    if IsWhitespace(c[i]) { AfterBlanks(c, i + 1); }
  }

  predicate NoWhitespace(t: Text) { forall k :: 0 <= k < |t| ==> !IsWhitespace(t[k]) }

  lemma CondensedBehind(a: Text, t: Text)
    requires Condensed(t) && (NoWhitespace(a) || (a == [SPACE] && (t == [] || !IsWhitespace(t[0]))))
    ensures Condensed(a + t)
  {
    var s := a + t;
    forall k | 0 <= k < |s| && IsWhitespace(s[k])
      ensures s[k] == SPACE && (k + 1 < |s| ==> !IsWhitespace(s[k + 1]))
    {
      if k >= |a| {
        assert s[k] == t[k - |a|];
        if k + 1 < |s| { assert s[k + 1] == t[k + 1 - |a|]; }
      }
    }
  }

  /** No reference from `i` on, if references are translated, stands for whitespace. */
  predicate NoBlankReferences(c: Text, i: nat, f: Flags)
    requires Terminated(c)
  {
    f.noEntities || forall k {:trigger ReferenceAt(c, k, f.noUtf8)} ::
      i <= k < |c| && c[k] == AMP && ReferenceAt(c, k, f.noUtf8).Replaced? ==>
        NoWhitespace(ReferenceAt(c, k, f.noUtf8).bytes)
  }

  lemma TurnLeaves(c: Text, i: nat, f: Flags)
    requires Terminated(c) && i < |c| && f.normalize && NoBlankReferences(c, i, f) && Inside(Data, c[i])
    ensures var t := Turn(c, i, Data, f);
            t.Replaced? ==>
              && t.bytes != [] && (NoWhitespace(t.bytes) || (t.bytes == [SPACE] && IsWhitespace(c[i])))
              && (IsWhitespace(c[i]) ==> !IsWhitespace(c[t.next]))
  {
    if IsWhitespace(c[i]) { AfterBlanks(c, i + 1); }
    hide ReferenceAt;
  }

  /** With normalization on, what is left is condensed unless a reference brings whitespace in. */
  lemma {:induction false} NormalizedIsCondensed(c: Text, i: nat, d: nat, f: Flags)
    requires Terminated(c) && i < |c| && f.normalize && NoBlankReferences(c, i, f)
    ensures var e := Expand(c, i, d, Data, f);
            && (f.noEntities ==> e.Expanded?)
            && (e.Expanded? ==> Condensed(e.text) && (!IsWhitespace(c[i]) && e.text != [] ==> !IsWhitespace(e.text[0])))
    decreases |c| - i
  {
    hide ReferenceAt, Expand, Condensed;
    if Inside(Data, c[i]) {
      TurnLeaves(c, i, f);
      ExpandTurn(c, i, d, Data, f);
      var t := Turn(c, i, Data, f);
      if t.Replaced? {
        NormalizedIsCondensed(c, t.next, d + |t.bytes|, f);
        var rest := Expand(c, t.next, d + |t.bytes|, Data, f);
        if rest.Expanded? { CondensedBehind(t.bytes, rest.text); }
      }
    } else {
      ExpandEnd(c, i, d, Data, f);
      NothingCondensed();
    }
  }

  lemma NothingCondensed()
    ensures Condensed([])
  {
  }

  /** "&#32;&#32;": two spaces in a row come out of a normalized text. */
  lemma ReferencesBringBlanks()
    ensures var c := [AMP, HASH, 51, 50, SEMICOLON, AMP, HASH, 51, 50, SEMICOLON, NUL];
            Expand(c, 0, 0, Data, Flags(false, true, false, false)) == Expanded([SPACE, SPACE], 10)
  {
    var c := [AMP, HASH, 51, 50, SEMICOLON, AMP, HASH, 51, 50, SEMICOLON, NUL];
    var f := Flags(false, true, false, false);
    SpaceReference(c, 5);
    SpaceReference(c, 0);
    hide Expand, Turn, ReferenceAt;
    ExpandEnd(c, 10, 2, Data, f);
    ExpandTurn(c, 5, 1, Data, f);
    ExpandTurn(c, 0, 0, Data, f);
  }

  lemma SpaceReference(c: Text, i: nat)
    requires Terminated(c) && i + 5 < |c| && c[i..i + 5] == [AMP, HASH, 51, 50, SEMICOLON]
    ensures c[i] == AMP && Turn(c, i, Data, Flags(false, true, false, false)) == Replaced([SPACE], i + 5)
  {
    assert c[i] == c[i..i + 5][0] && c[i + 1] == c[i..i + 5][1] && c[i + 2] == c[i..i + 5][2];
    assert c[i + 3] == c[i..i + 5][3] && c[i + 4] == c[i..i + 5][4];
    HashOnly(c, i);
    assert ReadCode(c, i + 4, 10, 32) == (32, i + 4);
    assert ReadCode(c, i + 3, 10, 3) == ReadCode(c, i + 4, 10, 32);
    assert ReadCode(c, i + 2, 10, 0) == ReadCode(c, i + 3, 10, 3);
    assert Encode(32) == [SPACE];
    hide At, ReadCode;
  }

  // ----- exactly when -----

  /** The reference at `k`, if there is one and it is translated, stands for whitespace. */
  predicate BringsBlank(c: Text, k: nat, f: Flags)
    requires Terminated(c) && k < |c|
  {
    !f.noEntities && c[k] == AMP && ReferenceAt(c, k, f.noUtf8).Replaced?
    && IsWhitespace(ReferenceAt(c, k, f.noUtf8).bytes[0])
  }

  predicate StartsBlank(c: Text, k: nat, f: Flags)
    requires Terminated(c) && k < |c|
  {
    IsWhitespace(c[k]) || BringsBlank(c, k, f)
  }

  /** The reference at `k` stands for one space and has no whitespace on either side, written or referred to. */
  predicate StandsAlone(c: Text, i: nat, k: nat, f: Flags)
    requires Terminated(c) && i <= k < |c| && BringsBlank(c, k, f)
  {
    && ReferenceAt(c, k, f.noUtf8).bytes == [SPACE]
    && !StartsBlank(c, ReferenceAt(c, k, f.noUtf8).next, f)
    && (k > i ==> !IsWhitespace(c[k - 1]))
  }

  /** Every reference to whitespace from `i` up to `end` does. */
  predicate BlanksAlone(c: Text, i: nat, end: nat, f: Flags)
    requires Terminated(c) && end < |c|
  {
    forall k :: i <= k < end && BringsBlank(c, k, f) ==> StandsAlone(c, i, k, f)
  }

  lemma NamedInterior(c: Text, i: nat, word: Text)
    requires At(c, i, word) && word in {AMP_REF, APOS_REF, QUOT_REF, GT_REF, LT_REF}
    ensures c[i + |word| - 1] == SEMICOLON && forall k :: i < k < i + |word| ==> c[k] != AMP
  {
    forall k: nat | k < |word| ensures c[i + k] == word[k] { AtIndex(c, i, word, k); }
    forall k | i < k < i + |word| ensures c[k] != AMP { assert c[i + (k - i)] == word[k - i]; }
    assert c[i + (|word| - 1)] == SEMICOLON;
  }

  /** Inside a reference there is no other one, it ends with a semicolon, and it is one character. */
  lemma Interior(c: Text, i: nat, noUtf8: bool)
    requires Terminated(c) && i < |c| && c[i] == AMP && ReferenceAt(c, i, noUtf8).Replaced?
    ensures var t := ReferenceAt(c, i, noUtf8);
            && c[t.next - 1] == SEMICOLON && (forall k :: i < k < t.next ==> c[k] != AMP)
            && (|t.bytes| == 1 || NoWhitespace(t.bytes))
  {
    hide ReadCode, At;
    if At(c, i, AMP_REF) { NamedInterior(c, i, AMP_REF); }
    else if At(c, i, APOS_REF) { NamedInterior(c, i, APOS_REF); }
    else if At(c, i, QUOT_REF) { NamedInterior(c, i, QUOT_REF); }
    else if At(c, i, GT_REF) { NamedInterior(c, i, GT_REF); }
    else if At(c, i, LT_REF) { NamedInterior(c, i, LT_REF); }
    else {
      HashThere(c, i);
      NumericInterior(c, i, noUtf8);
    }
  }

  lemma HashThere(c: Text, i: nat)
    requires i + 1 < |c| && c[i] == AMP && c[i + 1] == HASH
    ensures At(c, i, [AMP, HASH])
  {
  }

  lemma NumericInterior(c: Text, i: nat, noUtf8: bool)
    requires Terminated(c) && At(c, i, [AMP, HASH]) && NumericReference(c, i, noUtf8).Replaced?
    ensures var t := NumericReference(c, i, noUtf8);
            && c[t.next - 1] == SEMICOLON && (forall k :: i < k < t.next ==> c[k] != AMP)
            && (|t.bytes| == 1 || NoWhitespace(t.bytes))
  {
    AtIndex(c, i, [AMP, HASH], 1);
    var (base, start) := if c[i + 2] == 120 then (16, i + 3) else (10, i + 2);
    ReadCodeDenotes(c, start, base, 0);
    hide ReadCode, Encode;
    var (code, e) := NumericCode(c, i);
    assert forall k :: start <= k < e ==> DigitValue(c[k]).Some?;
    if !noUtf8 { EncodedBytes(code); }
  }

  lemma EncodedBytes(code: nat)
    ensures code < 0x110000 ==> |Encode(code)| == 1 || NoWhitespace(Encode(code))
  {
  }

  /** The interior of a run of whitespace. */
  lemma {:induction false} RunInterior(c: Text, i: nat)
    requires Terminated(c) && i < |c|
    ensures forall k :: i <= k < SkipBlanks(c, i) ==> IsWhitespace(c[k])
    decreases |c| - i
  {
    if IsWhitespace(c[i]) { RunInterior(c, i + 1); }
  }

  /** One turn: no reference between here and where it goes on. */
  lemma TurnSpan(c: Text, i: nat, f: Flags)
    requires Terminated(c) && i < |c| && f.normalize && Inside(Data, c[i]) && Turn(c, i, Data, f).Replaced?
    ensures var t := Turn(c, i, Data, f);
            && (forall k :: i < k < t.next ==> !BringsBlank(c, k, f))
            && (IsWhitespace(c[t.next - 1]) <==> IsWhitespace(c[i]))
            && (if IsWhitespace(c[i]) then t.bytes == [SPACE] && !IsWhitespace(c[t.next])
                else if BringsBlank(c, i, f) then t == ReferenceAt(c, i, f.noUtf8) && |t.bytes| == 1
                else NoWhitespace(t.bytes))
            && (IsWhitespace(t.bytes[0]) <==> StartsBlank(c, i, f))
  {
    if c[i] == AMP && ReferenceAt(c, i, f.noUtf8).Replaced? { Interior(c, i, f.noUtf8); }
    if IsWhitespace(c[i]) {
      AfterBlanks(c, i + 1);
      RunInterior(c, i + 1);
    }
    hide ReferenceAt, SkipBlanks;
  }

  /** What a piece in front of a text does to it. */
  lemma CondensedIffBehind(a: Text, t: Text)
    requires |a| == 1 || (a != [] && NoWhitespace(a))
    ensures Condensed(a + t) <==>
            Condensed(t) && (IsWhitespace(a[0]) ==> a == [SPACE] && (t == [] || !IsWhitespace(t[0])))
  {
    var s := a + t;
    assert forall k :: 0 <= k < |t| ==> s[|a| + k] == t[k];
    if Condensed(s) {
      forall k | 0 <= k < |t| && IsWhitespace(t[k])
        ensures t[k] == SPACE && (k + 1 < |t| ==> !IsWhitespace(t[k + 1]))
      {
        assert s[|a| + k] == t[k];
        if k + 1 < |t| { assert s[|a| + (k + 1)] == t[k + 1]; }
      }
      if IsWhitespace(a[0]) {
        assert s[0] == a[0] == SPACE && a == [SPACE];
        if t != [] { assert s[1] == t[0]; }
      }
    }
    if Condensed(t) && (IsWhitespace(a[0]) ==> a == [SPACE] && (t == [] || !IsWhitespace(t[0]))) {
      CondensedBehind(a, t);
    }
  }

  /** What is left begins as the text does. */
  lemma FirstLeft(c: Text, i: nat, d: nat, f: Flags)
    requires Terminated(c) && i < |c| && f.normalize && Expand(c, i, d, Data, f).Expanded?
    ensures var e := Expand(c, i, d, Data, f);
            e.text != [] && IsWhitespace(e.text[0]) <==> Inside(Data, c[i]) && StartsBlank(c, i, f)
  {
    hide Expand, ReferenceAt;
    if Inside(Data, c[i]) {
      ExpandTurn(c, i, d, Data, f);
      if Turn(c, i, Data, f).Replaced? { TurnSpan(c, i, f); }
    } else {
      ExpandEnd(c, i, d, Data, f);
    }
  }

  lemma EndIsNoBlank(c: Text, k: nat, f: Flags)
    requires Terminated(c) && k < |c| && !Inside(Data, c[k])
    ensures !StartsBlank(c, k, f)
  {
  }

  /** The condition, one turn further. */
  lemma BlanksAloneTurn(c: Text, i: nat, end: nat, f: Flags)
    requires Terminated(c) && i < |c| && f.normalize && Inside(Data, c[i]) && Turn(c, i, Data, f).Replaced?
    requires Turn(c, i, Data, f).next <= end < |c| && !Inside(Data, c[end])
    ensures var t := Turn(c, i, Data, f);
            BlanksAlone(c, i, end, f) <==>
            BlanksAlone(c, t.next, end, f)
            && (StartsBlank(c, i, f) ==> t.bytes == [SPACE] && !StartsBlank(c, t.next, f))
  {
    TurnSpan(c, i, f);
    var t := Turn(c, i, Data, f);
    EndIsNoBlank(c, end, f);
    hide ReferenceAt, Turn, BringsBlank, BlanksAlone, IsWhitespace;
    BlanksAloneBehind(c, i, t.next, t.bytes, end, f);
    if BlanksAlone(c, t.next, end, f) && (StartsBlank(c, i, f) ==> t.bytes == [SPACE] && !StartsBlank(c, t.next, f)) {
      BlanksAloneFrom(c, i, t.next, t.bytes, end, f);
    }
  }

  /** From `i` to `next` there is one turn, which gives `bytes`. */
  predicate Spans(c: Text, i: nat, next: nat, bytes: Text, f: Flags)
    requires Terminated(c) && i < next < |c|
  {
    && (forall k :: i < k < next ==> !BringsBlank(c, k, f))
    && (IsWhitespace(c[next - 1]) <==> IsWhitespace(c[i]))
    && (IsWhitespace(c[i]) ==> bytes == [SPACE] && !IsWhitespace(c[next]) && !BringsBlank(c, i, f))
    && (BringsBlank(c, i, f) ==> ReferenceAt(c, i, f.noUtf8).bytes == bytes && ReferenceAt(c, i, f.noUtf8).next == next)
  }

  lemma BlanksAloneBehind(c: Text, i: nat, next: nat, bytes: Text, end: nat, f: Flags)
    requires Terminated(c) && i < next <= end < |c| && Spans(c, i, next, bytes, f) && !StartsBlank(c, end, f)
    ensures BlanksAlone(c, i, end, f) ==>
              BlanksAlone(c, next, end, f)
              && (StartsBlank(c, i, f) ==> bytes == [SPACE] && !StartsBlank(c, next, f))
  {
    hide ReferenceAt, BringsBlank, IsWhitespace;
    if BlanksAlone(c, i, end, f) {
      forall k | next <= k < end && BringsBlank(c, k, f) ensures StandsAlone(c, next, k, f) {
        assert StandsAlone(c, i, k, f);
      }
      if StartsBlank(c, i, f) {
        if BringsBlank(c, i, f) { assert StandsAlone(c, i, i, f); }
        assert BringsBlank(c, next, f) && next < end ==> StandsAlone(c, i, next, f);
      }
    }
  }

  lemma BlanksAloneFrom(c: Text, i: nat, next: nat, bytes: Text, end: nat, f: Flags)
    requires Terminated(c) && i < next <= end < |c| && Spans(c, i, next, bytes, f)
    requires BlanksAlone(c, next, end, f) && (StartsBlank(c, i, f) ==> bytes == [SPACE] && !StartsBlank(c, next, f))
    ensures BlanksAlone(c, i, end, f)
  {
    hide ReferenceAt, BringsBlank, IsWhitespace;
    forall k | i <= k < end && BringsBlank(c, k, f) ensures StandsAlone(c, i, k, f) {
      if k >= next { assert StandsAlone(c, next, k, f); }
    }
  }

  /**
   * A normalized text is condensed if and only if every reference to whitespace in it is one to a space and has
   * no whitespace beside it, neither written nor referred to.
   */
  lemma {:induction false} CondensedIff(c: Text, i: nat, d: nat, f: Flags)
    requires Terminated(c) && i < |c| && f.normalize && Expand(c, i, d, Data, f).Expanded?
    ensures var e := Expand(c, i, d, Data, f);
            Condensed(e.text) <==> BlanksAlone(c, i, e.next, f)
    decreases |c| - i
  {
    hide ReferenceAt, Expand, Condensed, BlanksAlone, Turn, StartsBlank;
    if Inside(Data, c[i]) {
      ExpandTurn(c, i, d, Data, f);
      TurnSpan(c, i, f);
      var t := Turn(c, i, Data, f);
      var rest := Expand(c, t.next, d + |t.bytes|, Data, f);
      CondensedIff(c, t.next, d + |t.bytes|, f);
      FirstLeft(c, t.next, d + |t.bytes|, f);
      CondensedIffBehind(t.bytes, rest.text);
      BlanksAloneTurn(c, i, rest.next, f);
      if !Inside(Data, c[t.next]) { EndIsNoBlank(c, t.next, f); }
    } else {
      ExpandEnd(c, i, d, Data, f);
      NothingCondensed();
      NothingBetween(c, i, f);
    }
  }

  lemma NothingBetween(c: Text, i: nat, f: Flags)
    requires Terminated(c) && i < |c|
    ensures BlanksAlone(c, i, i, f)
  {
  }
}
