/**
 Which spelling is the canonical one: the notation follows from the value alone, and with it the
 spelling is the only one of that shape.
 */
module NumberNotation {
  import opened DecimalNumbers

  /** The values written without an exponent: zero, and magnitudes from 1e-6 to below 1e21. */
  predicate PlainRange(x: real) {
    x == 0.0 || 0.000001 <= x < 1000000000000000000000.0 || 0.000001 <= -x < 1000000000000000000000.0
  }

  predicate NoTrailingZero(fraction: string) { fraction != "" ==> fraction[|fraction| - 1] != '0' }

  predicate Plain(n: Numeral) { n.exponent.Absent? && NoTrailingZero(n.fraction) }

  /** One nonzero digit before the point, and an exponent without a plus sign or a leading zero. */
  predicate Scientific(n: Numeral) {
    && |n.whole| == 1 && n.whole[0] != '0' && NoTrailingZero(n.fraction)
    && n.exponent.Exponent? && n.exponent.letter == 'e' && (n.exponent.sign == "" || n.exponent.sign == "-")
    && n.exponent.digits != "" && n.exponent.digits[0] != '0'
  }

  predicate Shape(n: Numeral)
    requires WellFormed(n)
  {
    (if PlainRange(Value(n)) then Plain(n) else Scientific(n)) && (n.negative ==> Value(n) != 0.0)
  }

  // ---------------------------------------------------------------- magnitudes

  lemma {:induction false} ScaledLess(m: nat, n: nat, k: int)
    ensures m < n <==> Scaled(m, k) < Scaled(n, k)
    decreases if k < 0 then -k else k
  {
    if k > 0 { ScaledLess(m, n, k - 1); } else if k < 0 { ScaledLess(m, n, k + 1); }
  }

  lemma {:induction false} PowersGrow(i: int, j: int)
    requires i <= j
    ensures Scaled(1, i) <= Scaled(1, j) && (i < j ==> Scaled(1, i) < Scaled(1, j))
    decreases j - i
  {
    if i < j {
      PowersGrow(i, j - 1);
      ScaledShift(1, j - 1);
      ScaledLess(1, 10, j - 1);
    }
  }

  lemma {:induction false} NaturalBounds(d: string)
    requires d != "" && AllDigits(d) && d[0] != '0'
    ensures Shifted(1, |d| - 1) <= Natural(d) < Shifted(1, |d|)
  {
    if |d| > 1 { NaturalBounds(d[..|d| - 1]); } else { assert d[..0] == ""; }
  }

  /** The leading digit of `d * 10^e` stands at the power of ten `e + |d| - 1`. */
  lemma LeadingPower(d: string, e: int)
    requires d != "" && AllDigits(d) && d[0] != '0'
    ensures Scaled(1, e + |d| - 1) <= Scaled(Natural(d), e) < Scaled(1, e + |d|)
  {
    NaturalBounds(d);
    ScaledByShift(1, e, |d| - 1);
    ScaledByShift(1, e, |d|);
    ScaledLess(Natural(d), Shifted(1, |d| - 1), e);
    ScaledLess(Natural(d), Shifted(1, |d|), e);
  }

  lemma Bounds()
    ensures Scaled(1, -6) == 0.000001 && Scaled(1, 21) == 1000000000000000000000.0
  {
    assert Scaled(1, -3) == 0.001;
    assert Scaled(1, 5) == 100000.0;
    assert Scaled(1, 10) == 10000000000.0;
    assert Scaled(1, 15) == 1000000000000000.0;
    assert Scaled(1, 20) == 100000000000000000000.0;
  }

  lemma RangeByPower(d: string, e: int, x: real)
    requires d != "" && AllDigits(d) && d[0] != '0' && (x == Scaled(Natural(d), e) || x == -Scaled(Natural(d), e))
    ensures PlainRange(x) <==> -6 <= e + |d| - 1 < 21
  {
    var s := e + |d| - 1;
    Bounds();
    LeadingPower(d, e);
    if s < -6 { PowersGrow(s + 1, -6); } else { PowersGrow(-6, s); }
    if s >= 21 { PowersGrow(21, s); } else { PowersGrow(s + 1, 21); }
  }

  // ---------------------------------------------------------------- the canonical numeral has the shape

  lemma LayoutShaped(negative: bool, digits: string, exponent: int)
    requires Significant(digits)
    ensures var n := Layout(negative, digits, exponent);
            if -6 <= exponent + |digits| - 1 < 21 then Plain(n) else Scientific(n)
  {
    var point := exponent + |digits|;
    var n := Layout(negative, digits, exponent);
    if -6 <= point - 1 < 21 {
      if n.fraction != "" { assert n.fraction[|n.fraction| - 1] == digits[|digits| - 1]; }
    } else {
      if n.fraction != "" { assert n.fraction[|n.fraction| - 1] == digits[|digits| - 1]; }
    }
  }

  /** Plain or scientific by the value alone, with no superfluous zero, sign or exponent. */
  lemma CanonicalShaped(n: Numeral)
    requires WellFormed(n)
    ensures WellFormed(Canonical(n)) && Shape(Canonical(n))
  {
    CanonicalKeepsValue(n);
    MagnitudeZero(n);
    if Mantissa(n) != "" {
      KeptMagnitude(n);
      LayoutMagnitude(n.negative, Kept(n), KeptExponent(n));
      LayoutShaped(n.negative, Kept(n), KeptExponent(n));
      RangeByPower(Kept(n), KeptExponent(n), Value(n));
    }
  }

  // ---------------------------------------------------------------- no other numeral has it

  lemma {:induction false} NothingToTrim(s: string)
    requires s != ""
    ensures s[0] != '0' ==> TrimLeftZeros(s) == s
    ensures s[|s| - 1] != '0' ==> TrimRightZeros(s) == s
  {
  }

  lemma {:induction false} TrimZeros(zeros: nat, d: string)
    requires d == "" || d[0] != '0'
    ensures TrimLeftZeros(Zeros(zeros) + d) == d
  {
    if zeros == 0 {
      assert Zeros(0) + d == d;
    } else {
      TrimZeros(zeros - 1, d);
      assert (Zeros(zeros) + d)[1..] == Zeros(zeros - 1) + d;
    }
  }

  lemma ExponentUnique(e: Exponent)
    requires ExponentWellFormed(e) && e.Exponent? && e.letter == 'e' && (e.sign == "" || e.sign == "-")
    requires e.digits[0] != '0'
    ensures DecimalExponent(ExponentValue(e)) == e
  {
    LeadingDigit(e.digits);
    NaturalInjective(Decimal(Natural(e.digits)), e.digits);
  }

  lemma ZeroShaped(m: Numeral)
    requires WellFormed(m) && Shape(m) && Value(m) == 0.0
    ensures Canonical(m) == m
  {
    MagnitudeZero(m);
    var all := m.whole + m.fraction;
    TrimLeftFacts(all);
    assert all == Zeros(|all|) + "";
    assert m.whole[0] == all[0] == '0';
    LastOf(m.whole, m.fraction);
  }

  lemma LastOf(a: string, b: string)
    ensures b != "" ==> (a + b)[|a + b| - 1] == b[|b| - 1]
  {
  }

  lemma ScientificKept(m: Numeral)
    requires WellFormed(m) && Scientific(m)
    ensures var all := m.whole + m.fraction;
            && Mantissa(m) == all && Kept(m) == all && all[..1] == m.whole && all[1..] == m.fraction
  {
    var all := m.whole + m.fraction;
    assert all[0] == m.whole[0];
    assert all[|all| - 1] == if m.fraction == "" then m.whole[0] else m.fraction[|m.fraction| - 1];
    NothingToTrim(all);
  }

  lemma ScientificFixed(m: Numeral)
    requires WellFormed(m) && Scientific(m) && !PlainRange(Value(m))
    ensures Canonical(m) == m
  {
    ScientificKept(m);
    KeptMagnitude(m);
    RangeByPower(Kept(m), KeptExponent(m), Value(m));
    ExponentUnique(m.exponent);
  }

  lemma {:induction false} TrimmedWhole(s: string)
    requires AllDigits(s) && s != "" && s[0] != '0'
    ensures var t := TrimRightZeros(s); t != "" && |t| <= |s| && s == t + Zeros(|s| - |t|)
  {
    TrimRightFacts(s);
  }

  lemma WholeFixed(m: Numeral)
    requires WellFormed(m) && Plain(m) && m.fraction == "" && m.whole != "0" && PlainRange(Value(m))
    ensures Canonical(m) == m
  {
    assert m.whole + m.fraction == m.whole;
    NothingToTrim(m.whole);
    TrimmedWhole(m.whole);
    KeptMagnitude(m);
    RangeByPower(Kept(m), KeptExponent(m), Value(m));
  }

  lemma MixedFixed(m: Numeral)
    requires WellFormed(m) && Plain(m) && m.fraction != "" && m.whole != "0" && PlainRange(Value(m))
    ensures Canonical(m) == m
  {
    var all := m.whole + m.fraction;
    assert all[0] == m.whole[0] && all[|all| - 1] == m.fraction[|m.fraction| - 1];
    NothingToTrim(all);
    KeptMagnitude(m);
    RangeByPower(Kept(m), KeptExponent(m), Value(m));
    assert all[..|m.whole|] == m.whole && all[|m.whole|..] == m.fraction;
  }

  lemma {:induction false} TrimKeepsLast(s: string)
    requires s != "" && s[|s| - 1] != '0'
    ensures var t := TrimLeftZeros(s); t != "" && t[|t| - 1] == s[|s| - 1]
  {
    if s[0] == '0' { TrimKeepsLast(s[1..]); }
  }

  lemma FractionFixed(m: Numeral)
    requires WellFormed(m) && Plain(m) && m.fraction != "" && m.whole == "0" && PlainRange(Value(m))
    ensures Canonical(m) == m
  {
    var all, d := m.whole + m.fraction, TrimLeftZeros(m.fraction);
    TrimLeftFacts(m.fraction);
    var zeros := |m.fraction| - |d|;
    assert all == Zeros(1 + zeros) + d;
    TrimKeepsLast(m.fraction);
    TrimZeros(1 + zeros, d);
    NothingToTrim(d);
    KeptMagnitude(m);
    RangeByPower(Kept(m), KeptExponent(m), Value(m));
  }

  lemma NonzeroWhole(m: Numeral)
    requires WellFormed(m) && m.fraction == "" && Value(m) != 0.0
    ensures m.whole != "0"
  {
    MagnitudeZero(m);
    TrimZeros(1, "");
    assert Zeros(1) + "" == "0" && m.whole + m.fraction == m.whole;
  }

  lemma ShapeFixed(m: Numeral)
    requires WellFormed(m) && Shape(m)
    ensures Canonical(m) == m
  {
    if Value(m) == 0.0 {
      ZeroShaped(m);
    } else if !PlainRange(Value(m)) {
      ScientificFixed(m);
    } else if m.fraction == "" {
      NonzeroWhole(m);
      WholeFixed(m);
    } else if m.whole == "0" {
      FractionFixed(m);
    } else {
      MixedFixed(m);
    }
  }

  /** `t` is the canonical spelling of a number: of its value, and of the shape that value calls for. */
  ghost predicate CanonicalSpelling(t: string, x: real) {
    exists m :: WellFormed(m) && Spell(m) == t && Value(m) == x && Shape(m)
  }

  /**
   What `canonicalNumber` returns, for every text: nothing if the grammar does not generate the text, and
   otherwise the one spelling of the number that has the shape its value calls for.
   */
  lemma CanonicalExactly(n: Numeral, t: string)
    requires WellFormed(n)
    ensures CanonicalText(Spell(n)) == Some(t) <==> CanonicalSpelling(t, Value(n))
  {
    ParseSpell(n);
    CanonicalShaped(n);
    CanonicalKeepsValue(n);
    if m :| WellFormed(m) && Spell(m) == t && Value(m) == Value(n) && Shape(m) {
      ShapeFixed(m);
      CanonicalIffSameValue(m, n);
    }
  }

  lemma NotANumber(s: string)
    ensures CanonicalText(s) == None <==> forall n | WellFormed(n) :: Spell(n) != s
  {
    forall n | WellFormed(n) && Spell(n) == s ensures Parse(s) == Some(n) { GrammarIsExact(s, n); }
    if Parse(s).Some? { GrammarIsExact(s, Parse(s).value); }
  }
}
