/** Number literals: `parse_number` (with the part of strtod it uses) and the integer branch of `print_number`. */
module JsonNumber {
  import opened Bytes
  import opened JsonTree

  const NUMBER_BUFFER := 64  // sizeof(number_c_string)

  /** The bytes parse_number copies into its buffer. */
  predicate IsNumberByte(b: byte) {
    IsDigit(b) || b == 43 || b == 45 || b == 101 || b == 69 || b == 46
  }

  // ----- printing an integer ("%.0f") -----

  function Digits(n: nat): (t: Text)
    ensures |t| > 0
    ensures forall i :: 0 <= i < |t| ==> IsDigit(t[i])
  {
    if n < 10 then [48 + n] else Digits(n / 10) + [48 + n % 10]
  }

  function IntegerText(n: int): (t: Text)
    ensures |t| > 0
    ensures forall i :: 0 <= i < |t| ==> IsNumberByte(t[i])
    ensures IsDigit(t[0]) || t[0] == 45
  {
    if n < 0 then [45] + Digits(-n) else Digits(n)
  }

  function Pow10(k: nat): (p: nat)
    ensures p > 0
  {
    if k == 0 then 1 else 10 * Pow10(k - 1)
  }

  /** The integers print_number writes with "%.0f": whole, and below 1.0e60 in magnitude. */
  predicate IsPrintable(d: Decimal) {
    d.exp10 == 0 && d.mantissa < Pow10(60) && -d.mantissa < Pow10(60)
  }

  lemma {:induction false} DigitsLength(n: nat, k: nat)
    requires k > 0 && n < Pow10(k)
    ensures |Digits(n)| <= k
  {
    if n >= 10 {
      assert Pow10(1) == 10 * Pow10(0) == 10;
      DigitsLength(n / 10, k - 1);
    }
  }

  /** A printed integer and its terminator fit the parser's 64-byte buffer. */
  lemma IntegerTextLength(d: Decimal)
    requires IsPrintable(d)
    ensures |IntegerText(d.mantissa)| <= 61 < NUMBER_BUFFER - 1
  {
    DigitsLength(if d.mantissa < 0 then -d.mantissa else d.mantissa, 60);
  }

  // ----- reading a number -----

  /** How many bytes the copy loop takes: number bytes only, at most 63, never past the buffer's length. */
  function CopyLength(c: Text, o: nat, i: nat): (k: nat)
    requires o <= |c| && i <= NUMBER_BUFFER - 1 && o + i <= |c|
    ensures i <= k <= NUMBER_BUFFER - 1 && o + k <= |c|
    ensures forall j :: o + i <= j < o + k ==> IsNumberByte(c[j])
    decreases |c| - o - i
  {
    if i < NUMBER_BUFFER - 1 && o + i < |c| && IsNumberByte(c[o + i]) then CopyLength(c, o, i + 1) else i
  }

  /** End of the run of digits starting at `i`. */
  function DigitRun(t: Text, i: nat): (e: nat)
    requires i <= |t|
    ensures i <= e <= |t|
    ensures forall j :: i <= j < e ==> IsDigit(t[j])
    decreases |t| - i
  {
    if i < |t| && IsDigit(t[i]) then DigitRun(t, i + 1) else i
  }

  function DigitsValue(t: Text): (n: int)
    requires forall i :: 0 <= i < |t| ==> IsDigit(t[i])
    ensures n >= 0
  {
    if t == [] then 0 else assert IsDigit(t[|t| - 1]); 10 * DigitsValue(t[..|t| - 1]) + (t[|t| - 1] as int - 48)
  }

  predicate SignAt(t: Text, i: nat) { i < |t| && (t[i] == 43 || t[i] == 45) }

  function SkipSign(t: Text, i: nat): (e: nat)
    requires i <= |t|
    ensures i <= e <= |t|
  {
    if SignAt(t, i) then i + 1 else i
  }

  /** The exponent part at `i`, if a complete one is there: its value and its end. */
  function Exponent(t: Text, i: nat): (r: (int, nat))
    requires i <= |t|
    ensures i <= r.1 <= |t|
  {
    if i < |t| && (t[i] == 101 || t[i] == 69) then
      var s := SkipSign(t, i + 1);
      var e := DigitRun(t, s);
      if e == s then (0, i)
      else (if t[i + 1] == 45 then -DigitsValue(t[s..e]) else DigitsValue(t[s..e]), e)
    else (0, i)
  }

  /** strtod on decimal literals (C11 section 7.22.1.3): the longest valid prefix, and where it ends. */
  function StrToD(t: Text): (r: Option<(Decimal, nat)>)
    ensures r.Some? ==> 0 < r.value.1 <= |t|
  {
    var s := SkipSign(t, 0);
    var i := DigitRun(t, s);
    var f := if i < |t| && t[i] == 46 then DigitRun(t, i + 1) else i;
    var fraction := if f > i then t[i + 1..f] else [];
    if i - s + |fraction| == 0 then None
    else
      var m := DigitsValue(t[s..i] + fraction);
      var (x, e) := Exponent(t, f);
      Some((Decimal(if SignAt(t, 0) && t[0] == 45 then -m else m, x - |fraction|), e))
  }

  function ParseNumber(c: Text, o: nat): (r: ParseResult<Decimal>)
    requires o <= |c|
    ensures r.Parsed? ==> o < r.next <= |c| && IsNumberByte(c[r.next - 1])
    ensures r.Failed? ==> r.at == o
  {
    var k := CopyLength(c, o, 0);
    Converted(c[o..o + k], o)
  }

  // ----- an integer text reads back -----

  lemma {:induction false} DigitsValueInverse(n: nat)
    ensures DigitsValue(Digits(n)) == n
  {
    var t := Digits(n);
    if n >= 10 {
      assert t[..|t| - 1] == Digits(n / 10);
      DigitsValueInverse(n / 10);
    } else {
      assert t[..0] == [];
    }
  }

  lemma {:induction false} DigitRunAll(t: Text, i: nat)
    requires i <= |t| && forall j :: i <= j < |t| ==> IsDigit(t[j])
    ensures DigitRun(t, i) == |t|
    decreases |t| - i
  {
    if i < |t| { DigitRunAll(t, i + 1); }
  }

  lemma StrToDInteger(n: int)
    ensures StrToD(IntegerText(n)) == Some((Decimal(n, 0), |IntegerText(n)|))
  {
    var t := IntegerText(n);
    var s := SkipSign(t, 0);
    var ds := Digits(if n < 0 then -n else n);
    assert s == if n < 0 then 1 else 0;
    assert t[s..] == ds;
    DigitRunAll(t, s);
    DigitsValueInverse(if n < 0 then -n else n);
    assert t[s..|t|] + [] == ds;
  }

  lemma {:induction false} CopyLengthExact(c: Text, o: nat, k: nat, i: nat)
    requires i <= k < NUMBER_BUFFER - 1 && o + k < |c|
    requires forall j :: o <= j < o + k ==> IsNumberByte(c[j])
    requires !IsNumberByte(c[o + k])
    ensures CopyLength(c, o, i) == k
    decreases k - i
  {
    if i < k { CopyLengthExact(c, o, k, i + 1); }
  }

  /** Number follow set: a printed integer reads back whole when the next byte is no number byte. */
  lemma ParsePrintedNumber(c: Text, o: nat, d: Decimal)
    requires IsPrintable(d)
    requires At(c, o, IntegerText(d.mantissa))
    requires o + |IntegerText(d.mantissa)| < |c| && !IsNumberByte(c[o + |IntegerText(d.mantissa)|])
    ensures ParseNumber(c, o) == Parsed(d, o + |IntegerText(d.mantissa)|)
  {
    var t := IntegerText(d.mantissa);
    IntegerTextLength(d);
    forall j | o <= j < o + |t| ensures IsNumberByte(c[j]) { AtIndex(c, o, t, j - o); }
    CopyLengthExact(c, o, |t|, 0);
    StrToDInteger(d.mantissa);
    hide StrToD, CopyLength;
  }

  /** The copy loop of parse_number, into its 64-byte buffer. */
  method CopyNumber(c: Text, o: nat) returns (number: Text)
    requires o <= |c|
    ensures number == c[o..o + CopyLength(c, o, 0)]
  {
    var numberString := new byte[NUMBER_BUFFER];
    var i := 0;
    while i < NUMBER_BUFFER - 1 && o + i < |c| && IsNumberByte(c[o + i])
      invariant i <= NUMBER_BUFFER - 1 && o + i <= |c|
      invariant forall j :: 0 <= j < i ==> numberString[j] == c[o + j]
      invariant CopyLength(c, o, 0) == CopyLength(c, o, i)
    {
      numberString[i] := c[o + i];
      i := i + 1;
    }
    numberString[i] := NUL;
    number := numberString[..i];
  }

  /** parse_number: copy, then strtod. */
  method ParseNumberAt(c: Text, o: nat) returns (r: ParseResult<Decimal>)
    requires o <= |c|
    ensures r == ParseNumber(c, o)
  {
    hide StrToD, CopyLength;
    var number := CopyNumber(c, o);
    r := Converted(number, o);
  }

  function Converted(number: Text, o: nat): ParseResult<Decimal> {
    match StrToD(number)
    case None => Failed(o)
    case Some((d, e)) => Parsed(d, o + e)
  }
}
