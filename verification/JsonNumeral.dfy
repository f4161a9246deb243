/** Number texts by their parts, and that `parse_number` reads exactly these, with the value the parts denote. */
module JsonNumeral {
  import opened Bytes
  import opened JsonTree
  import opened JsonNumber

  /** `mark` is the e or E, empty when there is no exponent. */
  datatype Numeral = Numeral(sign: Text, whole: Text, point: bool, fraction: Text, mark: Text, expSign: Text, exp: Text)

  predicate AllDigits(t: Text) { forall k :: 0 <= k < |t| ==> 48 <= t[k] <= 57 }

  predicate Sign(t: Text) { t == [] || t == [43] || t == [45] }

  function Spell(n: Numeral): Text {
    n.sign + (n.whole + ((if n.point then [46] else []) + n.fraction + ExponentText(n)))
  }

  function ExponentText(n: Numeral): Text { n.mark + n.expSign + n.exp }

  /** What the code takes: a sign, digits with at most one point among them, an exponent. */
  predicate Loose(n: Numeral) {
    && Sign(n.sign) && AllDigits(n.whole) && AllDigits(n.fraction) && AllDigits(n.exp) && Sign(n.expSign)
    && n.whole + n.fraction != [] && (n.fraction != [] ==> n.point)
    && (if n.mark == [] then n.expSign == [] && n.exp == [] else (n.mark == [101] || n.mark == [69]) && n.exp != [])
  }

  /** RFC 8259 section 6: no plus in front, no needless zero, digits on both sides of the point. */
  predicate Standard(n: Numeral) {
    && Loose(n) && n.sign != [43] && n.whole != [] && (n.whole[0] == 48 ==> |n.whole| == 1)
    && (n.point ==> n.fraction != [])
  }

  /** The number the digits denote, most significant first. */
  function Value(t: Text): int {
    if t == [] then 0 else (t[0] - 48) * Pow10(|t| - 1) + Value(t[1..])
  }

  /** The mantissa and the power of ten, the point moved behind the fraction. */
  function Denoted(n: Numeral): Decimal {
    var m := Value(n.whole + n.fraction);
    Decimal(if n.sign == [45] then -m else m, ExpOf(n) - |n.fraction|)
  }

  // ----- what it denotes, as a real number -----

  function Power(k: int): (r: real)
    ensures r > 0.0
  {
    if k >= 0 then Pow10(k) as real else 1.0 / Pow10(-k) as real
  }

  lemma {:induction false} PowerStep(k: int)
    ensures Power(k + 1) == 10.0 * Power(k)
  {
    if k < 0 {
      var p, q := Pow10(-k) as real, Pow10(-k - 1) as real;
      assert p == 10.0 * q;
      assert 10.0 * (1.0 / p) == 1.0 / q;
    }
  }

  lemma {:induction false} PowerSum(a: int, b: nat)
    ensures Power(a + b) == Power(a) * Power(b)
    decreases b
  {
    PowerZero();
    hide Power;
    if b > 0 {
      PowerSum(a, b - 1);
      PowerStep(a + b - 1);
      PowerStep(b - 1);
      Regroup(Power(a), Power(b - 1));
    }
  }

  lemma PowerZero()
    ensures Power(0) == 1.0
  {
  }

  lemma PowerNat(k: nat)
    ensures Power(k) == Pow10(k) as real
  {
  }

  lemma Regroup(x: real, y: real)
    ensures 10.0 * (x * y) == x * (10.0 * y)
  {
  }

  lemma {:induction false} PowSum(a: nat, b: nat)
    ensures Pow10(a + b) == Pow10(a) * Pow10(b)
  {
    if a > 0 {
      PowSum(a - 1, b);
      assert Pow10(a + b) == 10 * Pow10(a - 1 + b);
      assert 10 * (Pow10(a - 1) * Pow10(b)) == (10 * Pow10(a - 1)) * Pow10(b);
    }
  }

  lemma {:induction false} ValueConcat(a: Text, b: Text)
    ensures Value(a + b) == Value(a) * Pow10(|b|) + Value(b)
  {
    if a == [] {
      assert a + b == b;
    } else {
      assert (a + b)[1..] == a[1..] + b;
      ValueConcat(a[1..], b);
      PowSum(|a| - 1, |b|);
      var d: int := a[0] as int - 48;
      Distribute(d, Pow10(|a| - 1), Pow10(|b|), Value(a[1..]));
    }
  }

  lemma Distribute(d: int, p: int, q: int, v: int)
    ensures d * (p * q) + v * q == (d * p + v) * q
  {
  }

  function ExpOf(n: Numeral): int { if n.expSign == [45] then -Value(n.exp) else Value(n.exp) }

  /** The whole part plus the fraction, times the power of ten of the exponent. */
  function Magnitude(n: Numeral): real {
    (Value(n.whole) as real + Value(n.fraction) as real * Power(-|n.fraction|)) * Power(ExpOf(n))
  }

  lemma DenotesReal(n: Numeral)
    ensures Denoted(n).mantissa as real * Power(Denoted(n).exp10) ==
            if n.sign == [45] then -Magnitude(n) else Magnitude(n)
  {
    PowersFit(n);
    DigitsFit(n);
    DenotedParts(n);
    hide Power, Pow10, Value, ExpOf, Denoted;
    var f, x := |n.fraction|, ExpOf(n);
    var m, w, u := Value(n.whole + n.fraction), Value(n.whole), Value(n.fraction);
    Sides(n.sign == [45], m, w as real, u as real, Power(f), Power(-f), Power(x - f), Power(x));
  }

  lemma PowersFit(n: Numeral)
    ensures Power(ExpOf(n)) == Power(ExpOf(n) - |n.fraction|) * Power(|n.fraction|)
    ensures Power(-|n.fraction|) * Power(|n.fraction|) == 1.0
  {
    hide Power, ExpOf;
    PowerSum(ExpOf(n) - |n.fraction|, |n.fraction|);
    PowerSum(-|n.fraction|, |n.fraction|);
    PowerZero();
  }

  lemma DigitsFit(n: Numeral)
    ensures Value(n.whole + n.fraction) as real ==
            Value(n.whole) as real * Power(|n.fraction|) + Value(n.fraction) as real
  {
    hide Power, Pow10, Value;
    var w, u, p := Value(n.whole), Value(n.fraction), Pow10(|n.fraction|);
    ValueConcat(n.whole, n.fraction);
    PowerNat(|n.fraction|);
    AsReals(Value(n.whole + n.fraction), w, p, u);
  }

  lemma DenotedParts(n: Numeral)
    ensures Denoted(n).exp10 == ExpOf(n) - |n.fraction|
    ensures var m := Value(n.whole + n.fraction); Denoted(n).mantissa == if n.sign == [45] then -m else m
  {
  }

  lemma Sides(neg: bool, m: int, w: real, u: real, p: real, q: real, r: real, s: real)
    requires m as real == w * p + u && s == r * p && q * p == 1.0
    ensures (if neg then -m else m) as real * r == if neg then -((w + u * q) * s) else (w + u * q) * s
  {
    Scale(w, u, p, q, r, s);
    var x := m as real;
    assert (-m) as real == -x && -x * r == -(x * r);
  }

  lemma AsReals(m: int, a: int, b: int, c: int)
    requires m == a * b + c
    ensures m as real == a as real * b as real + c as real
  {
    assert (a * b) as real == a as real * b as real;
  }

  lemma Scale(w: real, u: real, p: real, q: real, r: real, s: real)
    requires s == r * p && q * p == 1.0
    ensures (w * p + u) * r == (w + u * q) * s
  {
    assert (w + u * q) * (r * p) == w * (r * p) + u * q * (r * p);
    assert u * q * (r * p) == u * r * (q * p);
    assert (w * p + u) * r == w * (r * p) + u * r;
  }

  // ----- strtod on the parts -----

  lemma {:induction false} ValueIs(t: Text)
    requires AllDigits(t)
    ensures DigitsValue(t) == Value(t)
    decreases |t|
  {
    if t != [] {
      var a, b := t[..|t| - 1], t[|t| - 1..];
      ValueIs(a);
      assert a + b == t && b[1..] == [];
      assert Pow10(0) == 1 && Pow10(1) == 10 * Pow10(0);
      ValueConcat(a, b);
    }
  }

  lemma {:induction false} RunIs(t: Text, i: nat, e: nat)
    requires i <= e <= |t| && (forall k :: i <= k < e ==> 48 <= t[k] <= 57) && (e < |t| ==> !(48 <= t[e] <= 57))
    ensures DigitRun(t, i) == e
    decreases e - i
  {
    if i < e { RunIs(t, i + 1, e); }
  }

  function WholeEnd(n: Numeral): nat { |n.sign| + |n.whole| }

  function FractionEnd(n: Numeral): nat { WholeEnd(n) + (if n.point then 1 else 0) + |n.fraction| }

  /** Where the parts of a numeral stand. */
  lemma Parts(n: Numeral)
    ensures WholeEnd(n) <= FractionEnd(n) <= |Spell(n)| == FractionEnd(n) + |ExponentText(n)|
    ensures Spell(n)[..|n.sign|] == n.sign && Spell(n)[|n.sign|..WholeEnd(n)] == n.whole
    ensures n.point ==> Spell(n)[WholeEnd(n)] == 46 && Spell(n)[WholeEnd(n) + 1..FractionEnd(n)] == n.fraction
    ensures Spell(n)[FractionEnd(n)..] == ExponentText(n)
  {
    var t, i, f := Spell(n), WholeEnd(n), FractionEnd(n);
    var point := if n.point then [46] else [];
    assert t == n.sign + n.whole + (point + n.fraction) + ExponentText(n);
    hide ExponentText;
    assert t[|n.sign|..i] == n.whole;
    assert t[i..f] == point + n.fraction;
    if n.point {
      assert t[i] == t[i..f][0] == 46;
      assert t[i + 1..f] == t[i..f][1..] == n.fraction;
    }
    assert t[f..] == ExponentText(n);
  }

  lemma ExponentIs(t: Text, n: Numeral, f: nat)
    requires Loose(n) && f <= |t| && t[f..] == ExponentText(n)
    ensures Exponent(t, f) == (ExpOf(n), |t|)
  {
    var s := f + |n.mark| + |n.expSign|;
    assert |ExponentText(n)| == |n.mark| + |n.expSign| + |n.exp|;
    if n.mark != [] {
      assert t[f] == t[f..][0] && t[f + 1] == t[f..][1];
      assert t[f..] == n.mark + n.expSign + n.exp;
      assert t[s..|t|] == n.exp;
      assert SkipSign(t, f + 1) == s;
      RunOf(t, s, |t|, n.exp);
      ValueIs(n.exp);
    }
  }

  lemma RunOf(t: Text, i: nat, e: nat, w: Text)
    requires i <= e <= |t| && t[i..e] == w && AllDigits(w) && (e < |t| ==> !(48 <= t[e] <= 57))
    ensures DigitRun(t, i) == e
  {
    forall k | i <= k < e ensures 48 <= t[k] <= 57 { assert t[k] == w[k - i]; }
    RunIs(t, i, e);
  }

  /** strtod from what its parts give. */
  lemma FromParts(t: Text, s: nat, i: nat, point: bool, f: nat, fraction: Text, x: int, e: nat)
    requires SkipSign(t, 0) == s <= |t| && DigitRun(t, s) == i <= f <= |t| && point == (i < |t| && t[i] == 46)
    requires f == (if point then DigitRun(t, i + 1) else i) && Exponent(t, f) == (x, e)
    requires fraction == if f > i then t[i + 1..f] else []
    requires AllDigits(t[s..i] + fraction)
    ensures StrToD(t) ==
            if t[s..i] + fraction == [] then None
            else
              var m := Value(t[s..i] + fraction);
              Some((Decimal(if SignAt(t, 0) && t[0] == 45 then -m else m, x - |fraction|), e))
  {
    hide DigitRun, Exponent, DigitsValue, Value;
    ValueIs(t[s..i] + fraction);
    assert |t[s..i] + fraction| == i - s + |fraction|;
  }

  /** A numeral is read to its end, as what it denotes. */
  lemma NumeralReads(n: Numeral)
    requires Loose(n)
    ensures StrToD(Spell(n)) == Some((Denoted(n), |Spell(n)|))
  {
    hide DigitRun, Exponent, DigitsValue, Value, StrToD, SkipSign, AllDigits, ExpOf;
    var t, i, f := Spell(n), WholeEnd(n), FractionEnd(n);
    Parts(n);
    SignRead(n);
    RunsRead(n);
    ExponentIs(t, n, f);
    PointThere(n);
    BothDigits(n);
    hide Spell, ExponentText, WholeEnd, FractionEnd;
    FromParts(t, |n.sign|, i, n.point, f, n.fraction, ExpOf(n), |t|);
  }

  lemma BothDigits(n: Numeral)
    requires Loose(n)
    ensures AllDigits(n.whole + n.fraction) && n.whole + n.fraction != []
  {
  }

  lemma SignRead(n: Numeral)
    requires Loose(n)
    ensures SkipSign(Spell(n), 0) == |n.sign| && (SignAt(Spell(n), 0) && Spell(n)[0] == 45 <==> n.sign == [45])
  {
    Parts(n);
    var t := Spell(n);
    if n.sign != [] {
      assert t[0] == t[..1][0];
    } else if n.whole != [] {
      assert t[0] == t[0..|n.whole|][0];
    }
  }

  /** No digit stands behind the whole part, nor behind the fraction. */
  lemma BehindWhole(n: Numeral)
    requires Loose(n)
    ensures var t, i, f := Spell(n), WholeEnd(n), FractionEnd(n);
            && i <= f <= |t| && (i < |t| ==> !(48 <= t[i] <= 57)) && (f < |t| ==> !(48 <= t[f] <= 57))
            && (!n.point && i < |t| ==> t[i] != 46)
  {
    Parts(n);
    var t, f := Spell(n), FractionEnd(n);
    if n.mark != [] { assert t[f] == t[f..][0]; }
  }

  lemma PointThere(n: Numeral)
    requires Loose(n)
    ensures var t, i, f := Spell(n), WholeEnd(n), FractionEnd(n);
            && i <= f <= |t| && (n.point <==> i < |t| && t[i] == 46) && (f > i ==> t[i + 1..f] == n.fraction)
            && (f <= i ==> n.fraction == []) && (!n.point ==> f == i) && t[|n.sign|..i] == n.whole
  {
    Parts(n);
    BehindWhole(n);
    hide Spell;
  }

  lemma RunsRead(n: Numeral)
    requires Loose(n)
    ensures var t, i, f := Spell(n), WholeEnd(n), FractionEnd(n);
            && i <= f <= |t| && DigitRun(t, |n.sign|) == i && (n.point ==> i < f && DigitRun(t, i + 1) == f)
  {
    Parts(n);
    BehindWhole(n);
    hide Spell, DigitRun, AllDigits;
    var t, i, f := Spell(n), WholeEnd(n), FractionEnd(n);
    RunOf(t, |n.sign|, i, n.whole);
    if n.point { RunOf(t, i + 1, f, n.fraction); }
  }

  /** The exponent read at `f` is the exponent of a numeral. */
  lemma ReadExponent(t: Text, f: nat) returns (mark: Text, expSign: Text, exp: Text)
    requires f <= |t|
    ensures var (x, e) := Exponent(t, f);
            && f <= e <= |t| && t[f..e] == mark + expSign + exp && Sign(expSign) && AllDigits(exp)
            && (if mark == [] then expSign == [] && exp == [] else (mark == [101] || mark == [69]) && exp != [])
            && x == if expSign == [45] then -Value(exp) else Value(exp)
  {
    hide DigitRun, DigitsValue;
    var (x, e) := Exponent(t, f);
    if e == f {
      mark, expSign, exp := [], [], [];
    } else {
      var m := SkipSign(t, f + 1);
      mark, expSign, exp := [t[f]], t[f + 1..m], t[m..e];
      ValueIs(exp);
      assert t[f..e] == mark + expSign + exp;
    }
  }

  /** Whatever is read is a numeral, and read as what it denotes. */
  lemma ReadIsNumeral(t: Text) returns (n: Numeral)
    requires StrToD(t).Some?
    ensures Loose(n) && StrToD(t) == Some((Denoted(n), |Spell(n)|)) && Spell(n) <= t
  {
    hide DigitRun, DigitsValue, Value, StrToD, Exponent, ExponentText, Spell, Loose, Denoted, AllDigits;
    var s := SkipSign(t, 0);
    var i := DigitRun(t, s);
    var point := i < |t| && t[i] == 46;
    var f := if point then DigitRun(t, i + 1) else i;
    var fraction := if f > i then t[i + 1..f] else [];
    var (x, e) := Exponent(t, f);
    var mark, expSign, exp := ReadExponent(t, f);
    DigitsOnly(t, s, i);
    if point { DigitsOnly(t, i + 1, f); }
    DigitsTogether(t[s..i], fraction);
    FromParts(t, s, i, point, f, fraction, x, e);
    n := Numeral(t[..s], t[s..i], point, fraction, mark, expSign, exp);
    Together(t, s, i, f, e, n);
    Concluded(n, x, SignAt(t, 0) && t[0] == 45);
  }

  lemma DigitsTogether(a: Text, b: Text)
    ensures AllDigits([])
    ensures AllDigits(a) && AllDigits(b) ==> AllDigits(a + b)
  {
  }

  lemma DigitsOnly(t: Text, i: nat, e: nat)
    requires i <= |t| && e == DigitRun(t, i)
    ensures AllDigits(t[i..e])
  {
    assert forall k :: i <= k < e ==> IsDigit(t[k]);
  }

  lemma Together(t: Text, s: nat, i: nat, f: nat, e: nat, n: Numeral)
    requires s <= i <= f <= e <= |t| && n.sign == t[..s] && n.whole == t[s..i]
    requires t[f..e] == n.mark + n.expSign + n.exp
    requires if n.point then i < f && t[i] == 46 && n.fraction == t[i + 1..f] else f == i && n.fraction == []
    ensures Spell(n) == t[..e]
  {
    var point: Text := if n.point then [46] else [];
    assert t[i..f] == point + n.fraction by { PointFraction(t, i, f, n.point, n.fraction); }
    FourParts(t, s, i, f, e);
  }

  lemma PointFraction(t: Text, i: nat, f: nat, point: bool, fraction: Text)
    requires i <= f <= |t|
    requires if point then i < f && t[i] == 46 && fraction == t[i + 1..f] else f == i && fraction == []
    ensures t[i..f] == (if point then [46] else []) + fraction
  {
  }

  lemma FourParts(t: Text, s: nat, i: nat, f: nat, e: nat)
    requires s <= i <= f <= e <= |t|
    ensures t[..e] == t[..s] + (t[s..i] + (t[i..f] + t[f..e]))
  {
    assert t[i..f] + t[f..e] == t[i..e];
    assert t[s..i] + t[i..e] == t[s..e];
  }

  lemma Concluded(n: Numeral, x: int, minus: bool)
    requires Sign(n.sign) && AllDigits(n.whole) && AllDigits(n.fraction) && AllDigits(n.exp) && Sign(n.expSign)
    requires n.whole + n.fraction != [] && (n.fraction != [] ==> n.point)
    requires if n.mark == [] then n.expSign == [] && n.exp == [] else (n.mark == [101] || n.mark == [69]) && n.exp != []
    requires x == (if n.expSign == [45] then -Value(n.exp) else Value(n.exp)) && (minus <==> n.sign == [45])
    ensures Loose(n)
    ensures var m := Value(n.whole + n.fraction);
            Denoted(n) == Decimal(if minus then -m else m, x - |n.fraction|)
  {
  }

  /** strtod takes the whole of `t` as `d` exactly when `t` is a numeral that denotes `d`. */
  lemma ReadIffNumeral(t: Text, d: Decimal)
    ensures StrToD(t) == Some((d, |t|)) <==> exists n :: Loose(n) && Spell(n) == t && Denoted(n) == d
  {
    hide StrToD, Loose, Denoted, Spell;
    if StrToD(t) == Some((d, |t|)) {
      var n := ReadIsNumeral(t);
      assert Spell(n) == t[..|t|] == t;
    }
    forall n | Loose(n) && Spell(n) == t ensures StrToD(t) == Some((Denoted(n), |t|)) { NumeralReads(n); }
  }
}
