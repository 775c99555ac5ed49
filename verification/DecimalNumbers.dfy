/**
 Decimal numbers of JSON (RFC 8259, section 6): their grammar, their exact value, and the one
 canonical spelling `canonicalNumber` gives to each value.

 Digit counts and exponents are unbounded, as they are in the source, which keeps the exponent in a
 `big.Int`. Values are exact reals; nothing is ever rounded.
 */
module DecimalNumbers {

  datatype Option<+T> = None | Some(value: T)

  // ---------------------------------------------------------------- digits

  predicate IsDigit(c: char) { '0' <= c <= '9' }

  predicate AllDigits(s: string) { forall i | 0 <= i < |s| :: IsDigit(s[i]) }

  function DigitValue(c: char): (d: int)
    requires IsDigit(c)
    ensures 0 <= d <= 9
  {
    c as int - '0' as int
  }

  /** The natural number a digit string denotes; the empty string denotes 0. */
  function Natural(s: string): nat
    requires AllDigits(s)
  {
    if s == "" then 0 else 10 * Natural(s[..|s| - 1]) + DigitValue(s[|s| - 1])
  }

  function Zeros(n: nat): (s: string)
    ensures |s| == n && AllDigits(s) && forall i | 0 <= i < n :: s[i] == '0'
  {
    seq(n, _ => '0')
  }

  function TrimLeftZeros(s: string): string {
    if s != "" && s[0] == '0' then TrimLeftZeros(s[1..]) else s
  }

  function TrimRightZeros(s: string): string {
    if s != "" && s[|s| - 1] == '0' then TrimRightZeros(s[..|s| - 1]) else s
  }

  /** Digits of a nonzero number with neither a leading nor a trailing zero. */
  predicate Significant(s: string) {
    s != "" && AllDigits(s) && s[0] != '0' && s[|s| - 1] != '0'
  }

  // ---------------------------------------------------------------- powers of ten

  /** The number `m * 10^k`, for any integer exponent. */
  function Scaled(m: nat, k: int): (r: real)
    ensures r >= 0.0 && (r == 0.0 <==> m == 0)
    decreases if k < 0 then -k else k
  {
    if k == 0 then m as real else if k > 0 then 10.0 * Scaled(m, k - 1) else Scaled(m, k + 1) / 10.0
  }

  /** A factor of ten moves between the coefficient and the exponent. */
  lemma {:induction false} ScaledShift(m: nat, k: int)
    ensures Scaled(10 * m, k) == Scaled(m, k + 1)
    decreases if k < 0 then -k else k
  {
    if k > 0 { ScaledShift(m, k - 1); } else if k < 0 { ScaledShift(m, k + 1); }
  }

  lemma {:induction false} ScaledInjective(m: nat, n: nat, k: int)
    requires Scaled(m, k) == Scaled(n, k)
    ensures m == n
    decreases if k < 0 then -k else k
  {
    if k > 0 { ScaledInjective(m, n, k - 1); } else if k < 0 { ScaledInjective(m, n, k + 1); }
  }

  /** The coefficient after moving `n` factors of ten into it. */
  function Shifted(m: nat, n: nat): (r: nat)
    ensures n > 0 ==> r % 10 == 0
  {
    if n == 0 then m else Shifted(m, n - 1) * 10
  }

  lemma {:induction false} ScaledByShift(m: nat, k: int, n: nat)
    ensures Scaled(Shifted(m, n), k) == Scaled(m, k + n)
    decreases n
  {
    if n > 0 {
      ScaledShift(Shifted(m, n - 1), k);
      ScaledByShift(m, k + 1, n - 1);
    }
  }

  // ---------------------------------------------------------------- the grammar

  datatype Exponent = Absent | Exponent(letter: char, sign: string, digits: string)

  /** The parts of a number; an absent fraction is the empty string. */
  datatype Numeral = Numeral(negative: bool, whole: string, fraction: string, exponent: Exponent)

  predicate ExponentWellFormed(e: Exponent) {
    e.Exponent? ==>
      (e.letter == 'e' || e.letter == 'E') && (e.sign == "" || e.sign == "+" || e.sign == "-")
      && e.digits != "" && AllDigits(e.digits)
  }

  predicate WellFormed(n: Numeral) {
    && n.whole != "" && AllDigits(n.whole) && (n.whole == "0" || n.whole[0] != '0')
    && AllDigits(n.fraction)
    && ExponentWellFormed(n.exponent)
  }

  function SpellExponent(e: Exponent): string {
    if e.Absent? then "" else [e.letter] + e.sign + e.digits
  }

  /** The text of a numeral: the grammar of RFC 8259, section 6, read as a generator. */
  function Spell(n: Numeral): string {
    if n.negative then "-" + SpellUnsigned(n) else SpellUnsigned(n)
  }

  function SpellUnsigned(n: Numeral): string {
    n.whole + PointAndFraction(n) + SpellExponent(n.exponent)
  }

  function PointAndFraction(n: Numeral): string {
    if n.fraction == "" then "" else "." + n.fraction
  }

  function ExponentValue(e: Exponent): int
    requires ExponentWellFormed(e)
  {
    if e.Absent? then 0 else if e.sign == "-" then -(Natural(e.digits) as int) else Natural(e.digits)
  }

  function Magnitude(n: Numeral): real
    requires WellFormed(n)
  {
    Scaled(Natural(n.whole + n.fraction), ExponentValue(n.exponent) - |n.fraction|)
  }

  /** The exact number a numeral denotes. */
  function Value(n: Numeral): real
    requires WellFormed(n)
  {
    if n.negative then -Magnitude(n) else Magnitude(n)
  }

  // ---------------------------------------------------------------- reading

  /** First position at which one of `stops` occurs, or the length of the text. */
  function Find(s: string, stops: string): (k: nat)
    ensures k <= |s| && (forall i | 0 <= i < k :: s[i] !in stops) && (k < |s| ==> s[k] in stops)
  {
    if s == "" || s[0] in stops then 0 else 1 + Find(s[1..], stops)
  }

  function ReadExponent(s: string): Exponent
    requires s != ""
  {
    var signed := |s| > 1 && (s[1] == '+' || s[1] == '-');
    Exponent(s[0], if signed then [s[1]] else "", s[if signed then 2 else 1..])
  }

  function Split(s: string): Numeral {
    if s != "" && s[0] == '-' then SplitUnsigned(s[1..]).(negative := true) else SplitUnsigned(s)
  }

  function SplitUnsigned(unsigned: string): Numeral {
    var mark := Find(unsigned, "eE");
    var mantissa := unsigned[..mark];
    var point := Find(mantissa, ".");
    Numeral(false, mantissa[..point],
            if point < |mantissa| then mantissa[point + 1..] else "",
            if mark < |unsigned| then ReadExponent(unsigned[mark..]) else Absent)
  }

  /** The numeral a text spells, if any. */
  function Parse(s: string): Option<Numeral> {
    var n := Split(s);
    if WellFormed(n) && Spell(n) == s then Some(n) else None
  }

  /** `jsonNumberPattern` matches `s`. */
  predicate Grammatical(s: string) { Parse(s).Some? }

  lemma {:induction false} FindAt(s: string, stops: string, k: nat)
    requires k <= |s| && (forall i | 0 <= i < k :: s[i] !in stops) && (k < |s| ==> s[k] in stops)
    ensures Find(s, stops) == k
  {
    if k > 0 { FindAt(s[1..], stops, k - 1); }
  }

  lemma SplitMantissa(n: Numeral)
    requires WellFormed(n)
    ensures var mantissa := n.whole + PointAndFraction(n);
            && Find(mantissa, ".") == |n.whole|
            && mantissa[..|n.whole|] == n.whole
            && n.fraction == (if |n.whole| < |mantissa| then mantissa[|n.whole| + 1..] else "")
  {
    FindAt(n.whole + PointAndFraction(n), ".", |n.whole|);
  }

  lemma SplitExponent(n: Numeral)
    requires WellFormed(n)
    ensures var mantissa := n.whole + PointAndFraction(n);
            var unsigned := SpellUnsigned(n);
            && Find(unsigned, "eE") == |mantissa|
            && unsigned[..|mantissa|] == mantissa
            && n.exponent == (if |mantissa| < |unsigned| then ReadExponent(unsigned[|mantissa|..]) else Absent)
  {
    var mantissa := n.whole + PointAndFraction(n);
    var unsigned := SpellUnsigned(n);
    FindAt(unsigned, "eE", |mantissa|);
    assert unsigned[|mantissa|..] == SpellExponent(n.exponent);
    if n.exponent.Exponent? { SignedExponent(n.exponent); }
  }

  lemma ParseSpell(n: Numeral)
    requires WellFormed(n)
    ensures Parse(Spell(n)) == Some(n)
  {
    var unsigned := SpellUnsigned(n);
    assert SplitUnsigned(unsigned) == n.(negative := false) by {
      SplitMantissa(n);
      SplitExponent(n);
    }
    assert unsigned[0] == n.whole[0];
    assert n.negative ==> Spell(n)[1..] == unsigned;
  }

  lemma SignedExponent(e: Exponent)
    requires e.Exponent? && ExponentWellFormed(e)
    ensures ReadExponent(SpellExponent(e)) == e
  {
    var s := SpellExponent(e);
    if e.sign == "" {
      assert s[1] == e.digits[0] && IsDigit(e.digits[0]);
      assert s[1..] == e.digits;
    } else {
      assert s[1] == e.sign[0] && s[2..] == e.digits;
    }
  }

  /** A text is grammatical exactly when the grammar generates it, and then its numeral is unique. */
  lemma GrammarIsExact(s: string, n: Numeral)
    ensures Parse(s) == Some(n) <==> WellFormed(n) && Spell(n) == s
  {
    if WellFormed(n) && Spell(n) == s { ParseSpell(n); }
  }

  // ---------------------------------------------------------------- the canonical numeral

  /** `big.Int.String` of a natural number. */
  function Decimal(n: nat): (s: string)
    ensures s != "" && AllDigits(s) && Natural(s) == n
    ensures n > 0 ==> s[0] != '0'
  {
    var last := [('0' as int + n % 10) as char];
    if n < 10 then
      assert last[..0] == "" && Natural("") == 0;
      last
    else
      var s := Decimal(n / 10) + last;
      assert s[..|s| - 1] == Decimal(n / 10);
      s
  }

  function DecimalExponent(k: int): Exponent {
    if k < 0 then Exponent('e', "-", Decimal(-k)) else Exponent('e', "", Decimal(k))
  }

  /**
   Lay out a nonzero number `digits * 10^exponent`: plain notation for adjusted exponents in
   [-6, 21), scientific notation otherwise.
   */
  function Layout(negative: bool, digits: string, exponent: int): Numeral
    requires Significant(digits)
  {
    var scientific := exponent + |digits| - 1;
    var point := exponent + |digits|;
    if -6 <= scientific < 21 then
      if point <= 0 then Numeral(negative, "0", Zeros(-point) + digits, Absent)
      else if point >= |digits| then Numeral(negative, digits + Zeros(point - |digits|), "", Absent)
      else Numeral(negative, digits[..point], digits[point..], Absent)
    else
      Numeral(negative, digits[..1], digits[1..], DecimalExponent(scientific))
  }

  const ZERO := Numeral(false, "0", "", Absent)

  /** The digits of `n` without leading zeros; empty exactly for zero. */
  function Mantissa(n: Numeral): string { TrimLeftZeros(n.whole + n.fraction) }

  /** The significant digits of `n`. */
  function Kept(n: Numeral): string { TrimRightZeros(Mantissa(n)) }

  /** The exponent that goes with the significant digits. */
  function KeptExponent(n: Numeral): int
    requires WellFormed(n)
  {
    ExponentValue(n.exponent) - |n.fraction| + (|Mantissa(n)| - |Kept(n)|)
  }

  /** The canonical numeral of the value of `n`. */
  function Canonical(n: Numeral): Numeral
    requires WellFormed(n)
  {
    if Mantissa(n) == "" then ZERO
    else
      KeptFacts(n);
      Layout(n.negative, Kept(n), KeptExponent(n))
  }

  // ---------------------------------------------------------------- values of digit strings

  lemma {:induction false} LeadingZero(s: string)
    requires AllDigits(s)
    ensures Natural("0" + s) == Natural(s)
  {
    if s == "" {
      assert ("0" + s)[..0] == "";
    } else {
      LeadingZero(s[..|s| - 1]);
      assert ("0" + s)[..|s|] == "0" + s[..|s| - 1];
    }
  }

  lemma {:induction false} LeadingZeros(zeros: nat, s: string)
    requires AllDigits(s)
    ensures Natural(Zeros(zeros) + s) == Natural(s)
  {
    if zeros == 0 {
      assert Zeros(0) + s == s;
    } else {
      LeadingZeros(zeros - 1, s);
      LeadingZero(Zeros(zeros - 1) + s);
      assert Zeros(zeros) + s == "0" + (Zeros(zeros - 1) + s);
    }
  }

  lemma LastZero(s: string, zeros: nat)
    requires AllDigits(s) && zeros > 0
    ensures Natural(s + Zeros(zeros)) == 10 * Natural(s + Zeros(zeros - 1))
  {
    assert (s + Zeros(zeros))[..|s| + zeros - 1] == s + Zeros(zeros - 1);
  }

  lemma {:induction false} TrailingZeros(s: string, zeros: nat)
    requires AllDigits(s)
    ensures Natural(s + Zeros(zeros)) == Shifted(Natural(s), zeros)
  {
    if zeros == 0 {
      assert s + Zeros(0) == s;
    } else {
      TrailingZeros(s, zeros - 1);
      LastZero(s, zeros);
    }
  }

  /** What trimming keeps: the digit string minus zeros, and a last nonzero digit. */
  lemma {:induction false} TrimLeftFacts(s: string)
    requires AllDigits(s)
    ensures var t := TrimLeftZeros(s);
            |t| <= |s| && s == Zeros(|s| - |t|) + t && AllDigits(t) && (t != "" ==> t[0] != '0')
  {
    if s != "" && s[0] == '0' {
      TrimLeftFacts(s[1..]);
      var t := TrimLeftZeros(s);
      assert s == [s[0]] + s[1..];
      assert [s[0]] + Zeros(|s| - 1 - |t|) == Zeros(|s| - |t|);
      assert [s[0]] + (Zeros(|s| - 1 - |t|) + t) == ([s[0]] + Zeros(|s| - 1 - |t|)) + t;
    }
  }

  lemma {:induction false} TrimRightFacts(s: string)
    requires AllDigits(s)
    ensures var t := TrimRightZeros(s);
            |t| <= |s| && s == t + Zeros(|s| - |t|) && AllDigits(t) && (t != "" ==> t[|t| - 1] != '0')
  {
    if s != "" && s[|s| - 1] == '0' {
      var init := s[..|s| - 1];
      TrimRightFacts(init);
      var t := TrimRightZeros(s);
      assert s == init + ['0'];
      assert Zeros(|init| - |t|) + ['0'] == Zeros(|s| - |t|);
      assert (t + Zeros(|init| - |t|)) + ['0'] == t + (Zeros(|init| - |t|) + ['0']);
    }
  }

  lemma MantissaFacts(n: Numeral)
    requires WellFormed(n)
    ensures AllDigits(Mantissa(n)) && (Mantissa(n) != "" ==> Mantissa(n)[0] != '0')
    ensures Natural(n.whole + n.fraction) == Natural(Mantissa(n))
  {
    var all := n.whole + n.fraction;
    TrimLeftFacts(all);
    LeadingZeros(|all| - |Mantissa(n)|, Mantissa(n));
  }

  lemma KeptFacts(n: Numeral)
    requires WellFormed(n) && Mantissa(n) != ""
    ensures Significant(Kept(n)) && |Kept(n)| <= |Mantissa(n)|
    ensures Natural(n.whole + n.fraction) == Shifted(Natural(Kept(n)), |Mantissa(n)| - |Kept(n)|)
  {
    var digits, kept := Mantissa(n), Kept(n);
    MantissaFacts(n);
    TrimRightFacts(digits);
    TrailingZeros(kept, |digits| - |kept|);
    assert digits[0] == (if kept == "" then '0' else kept[0]);
  }

  lemma {:induction false} LeadingDigit(s: string)
    requires s != "" && AllDigits(s) && s[0] != '0'
    ensures Natural(s) >= 1
  {
    if |s| > 1 { LeadingDigit(s[..|s| - 1]); } else { assert s[..0] == ""; }
  }

  /** Without leading zeros, a number has one digit string. */
  lemma {:induction false} NaturalInjective(a: string, b: string)
    requires AllDigits(a) && AllDigits(b)
    requires (a != "" ==> a[0] != '0') && (b != "" ==> b[0] != '0')
    requires Natural(a) == Natural(b)
    ensures a == b
  {
    if a == "" || b == "" {
      if a != "" { LeadingDigit(a); }
      if b != "" { LeadingDigit(b); }
    } else {
      NaturalInjective(a[..|a| - 1], b[..|b| - 1]);
      assert a == a[..|a| - 1] + [a[|a| - 1]] && b == b[..|b| - 1] + [b[|b| - 1]];
    }
  }

  // ---------------------------------------------------------------- the layout keeps the value

  lemma LayoutWellFormed(negative: bool, digits: string, exponent: int)
    requires Significant(digits)
    ensures WellFormed(Layout(negative, digits, exponent))
  {
  }

  lemma LayoutSign(negative: bool, digits: string, exponent: int)
    requires Significant(digits)
    ensures Layout(negative, digits, exponent).negative == negative
    ensures SpellUnsigned(Layout(negative, digits, exponent)) == SpellUnsigned(Layout(false, digits, exponent))
  {
  }

  /** The digits of `n`, read as a whole number, are `digits * 10^exponent` shifted by the fraction and the exponent. */
  ghost predicate Shows(n: Numeral, digits: string, exponent: int)
    requires ExponentWellFormed(n.exponent)
  {
    var zeros := exponent + |n.fraction| - ExponentValue(n.exponent);
    && AllDigits(n.whole + n.fraction) && AllDigits(digits) && zeros >= 0
    && Natural(n.whole + n.fraction) == Shifted(Natural(digits), zeros)
  }

  lemma ShowsBelowOne(n: Numeral, digits: string, zeros: nat)
    requires n.whole == "0" && n.fraction == Zeros(zeros) + digits && n.exponent.Absent? && AllDigits(digits)
    ensures Shows(n, digits, 0 - zeros - |digits|)
  {
    assert n.whole + n.fraction == Zeros(1 + zeros) + digits;
    LeadingZeros(1 + zeros, digits);
  }

  lemma ShowsWhole(n: Numeral, digits: string, zeros: nat)
    requires n.whole == digits + Zeros(zeros) && n.fraction == "" && n.exponent.Absent? && AllDigits(digits)
    ensures Shows(n, digits, zeros)
  {
    assert n.whole + n.fraction == digits + Zeros(zeros);
    TrailingZeros(digits, zeros);
  }

  lemma ShowsSplit(n: Numeral, digits: string, point: nat, exponent: int)
    requires point <= |digits| && n.whole == digits[..point] && n.fraction == digits[point..] && AllDigits(digits)
    requires ExponentWellFormed(n.exponent) && ExponentValue(n.exponent) == exponent + |digits| - point
    ensures Shows(n, digits, exponent)
  {
    assert n.whole + n.fraction == digits;
  }

  lemma LayoutDigits(negative: bool, digits: string, exponent: int)
    requires Significant(digits)
    ensures ExponentWellFormed(Layout(negative, digits, exponent).exponent)
    ensures Shows(Layout(negative, digits, exponent), digits, exponent)
  {
    var n := Layout(negative, digits, exponent);
    var scientific := exponent + |digits| - 1;
    var point := exponent + |digits|;
    if -6 <= scientific < 21 && point <= 0 {
      ShowsBelowOne(n, digits, -point);
    } else if -6 <= scientific < 21 && point >= |digits| {
      ShowsWhole(n, digits, exponent);
    } else if -6 <= scientific < 21 {
      ShowsSplit(n, digits, point, exponent);
    } else {
      ShowsSplit(n, digits, 1, exponent);
    }
  }

  lemma LayoutMagnitude(negative: bool, digits: string, exponent: int)
    requires Significant(digits)
    ensures WellFormed(Layout(negative, digits, exponent))
    ensures Magnitude(Layout(negative, digits, exponent)) == Scaled(Natural(digits), exponent)
  {
    LayoutWellFormed(negative, digits, exponent);
    LayoutDigits(negative, digits, exponent);
    var n := Layout(negative, digits, exponent);
    var base := ExponentValue(n.exponent) - |n.fraction|;
    ScaledByShift(Natural(digits), base, exponent - base);
  }

  // ---------------------------------------------------------------- main results

  lemma MagnitudeZero(n: Numeral)
    requires WellFormed(n)
    ensures Magnitude(n) == 0.0 <==> Mantissa(n) == ""
  {
    TrimLeftFacts(n.whole + n.fraction);
    LeadingZeros(|n.whole + n.fraction| - |Mantissa(n)|, Mantissa(n));
    if Mantissa(n) != "" { LeadingDigit(Mantissa(n)); }
  }

  lemma KeptMagnitude(n: Numeral)
    requires WellFormed(n) && Mantissa(n) != ""
    ensures Significant(Kept(n)) && Magnitude(n) == Scaled(Natural(Kept(n)), KeptExponent(n))
  {
    KeptFacts(n);
    var zeros := |Mantissa(n)| - |Kept(n)|;
    ScaledByShift(Natural(Kept(n)), ExponentValue(n.exponent) - |n.fraction|, zeros);
  }

  /** The canonical numeral denotes exactly the same number. */
  lemma CanonicalKeepsValue(n: Numeral)
    requires WellFormed(n)
    ensures WellFormed(Canonical(n)) && Value(Canonical(n)) == Value(n)
  {
    MagnitudeZero(n);
    if Mantissa(n) == "" {
      assert "0" + "" == "0";
      LeadingZero("");
    } else {
      KeptMagnitude(n);
      LayoutMagnitude(n.negative, Kept(n), KeptExponent(n));
    }
  }

  /** `digits * 10^exponent` determines both factors when the digits are significant. */
  lemma SignificantUnique(a: string, i: int, b: string, j: int)
    requires Significant(a) && Significant(b) && i <= j
    requires Scaled(Natural(a), i) == Scaled(Natural(b), j)
    ensures a == b && i == j
  {
    ScaledByShift(Natural(b), i, j - i);
    ScaledInjective(Natural(a), Shifted(Natural(b), j - i), i);
    assert Natural(a) % 10 == DigitValue(a[|a| - 1]) != 0;
    NaturalInjective(a, b);
  }

  /** Two numerals have one canonical spelling exactly when they denote one number. */
  lemma CanonicalIffSameValue(a: Numeral, b: Numeral)
    requires WellFormed(a) && WellFormed(b)
    ensures Canonical(a) == Canonical(b) <==> Value(a) == Value(b)
  {
    CanonicalKeepsValue(a);
    CanonicalKeepsValue(b);
    if Value(a) == Value(b) {
      MagnitudeZero(a);
      MagnitudeZero(b);
      if Value(a) != 0.0 {
        KeptMagnitude(a);
        KeptMagnitude(b);
        assert a.negative == b.negative;
        if KeptExponent(a) <= KeptExponent(b) {
          SignificantUnique(Kept(a), KeptExponent(a), Kept(b), KeptExponent(b));
        } else {
          SignificantUnique(Kept(b), KeptExponent(b), Kept(a), KeptExponent(a));
        }
      }
    }
  }

  // ---------------------------------------------------------------- the operation

  /** The canonical spelling of a text, if the text is a number. */
  function CanonicalText(raw: string): Option<string> {
    match Parse(raw)
    case None => None
    case Some(n) => Some(Spell(Canonical(n)))
  }

  /** Canonical spellings: same value, one spelling per value, and a fixed point. */
  lemma CanonicalTextCorrect(raw: string, other: string)
    requires Grammatical(raw) && Grammatical(other)
    ensures var text := CanonicalText(raw).value;
            && Grammatical(text)
            && Value(Parse(text).value) == Value(Parse(raw).value)
            && CanonicalText(text) == Some(text)
    ensures CanonicalText(raw) == CanonicalText(other)
            <==> Value(Parse(raw).value) == Value(Parse(other).value)
  {
    var n, m := Parse(raw).value, Parse(other).value;
    CanonicalKeepsValue(n);
    CanonicalKeepsValue(m);
    ParseSpell(Canonical(n));
    ParseSpell(Canonical(m));
    CanonicalIffSameValue(n, m);
    CanonicalIffSameValue(n, Canonical(n));
  }

  /**
   The first half of `canonicalNumber`, after the sign: digits without the point, number of digits
   after the point, and exponent, found by position in the text. The source re-checks here that the
   digits are digits; the last postcondition says that this cannot fail once the pattern has matched.
   */
  method ReadParts(text: string) returns (unsigned: string, fractionDigits: nat, exponent: int)
    requires WellFormed(SplitUnsigned(text))
    ensures var n := SplitUnsigned(text);
            unsigned == n.whole + n.fraction && fractionDigits == |n.fraction|
            && exponent == ExponentValue(n.exponent)
    ensures unsigned != "" && AllDigits(unsigned)
  {
    unsigned := text;
    exponent := 0;
    var mark := Find(unsigned, "eE");
    if mark < |unsigned| {
      exponent := ExponentValue(ReadExponent(unsigned[mark..]));
      unsigned := unsigned[..mark];
    }
    assert unsigned == text[..Find(text, "eE")];
    fractionDigits := 0;
    var index := Find(unsigned, ".");
    if index < |unsigned| {
      fractionDigits := |unsigned| - index - 1;
      unsigned := unsigned[..index] + unsigned[index + 1..];
    } else {
      assert unsigned == unsigned[..index] + "";
    }
  }

  /** `canonicalNumber`: text to text. */
  method CanonicalNumber(raw: string) returns (result: Option<string>)
    ensures result == CanonicalText(raw)
  {
    if !Grammatical(raw) {
      return None;
    }
    ghost var n := Parse(raw).value;
    var negative := raw != "" && raw[0] == '-';
    var unsigned, fractionDigits, exponent := ReadParts(if negative then raw[1..] else raw);
    var digits := TrimLeftZeros(unsigned);
    assert digits == Mantissa(n);
    if digits == "" {
      assert Canonical(n) == ZERO && Spell(ZERO) == "0";
      return Some("0");
    }
    KeptFacts(n);
    var trailingZeros := |digits| - |TrimRightZeros(digits)|;
    digits := TrimRightZeros(digits);
    exponent := exponent - fractionDigits;
    exponent := exponent + trailingZeros;
    assert exponent == KeptExponent(n);
    var text := Render(digits, exponent);
    LayoutSign(n.negative, digits, exponent);
    ghost var canonical := Canonical(n);
    assert text == SpellUnsigned(canonical);
    if negative {
      text := "-" + text;
    }
    assert text == Spell(canonical);
    return Some(text);
  }

  /** The unsigned spelling, including the repeat counts the source passes to `strings.Repeat`. */
  method Render(digits: string, exponent: int) returns (result: string)
    requires Significant(digits)
    ensures result == SpellUnsigned(Layout(false, digits, exponent))
  {
    var scientificExponent := exponent + (|digits| - 1);
    if -6 <= scientificExponent < 21 {
      var point := exponent + |digits|;
      assert -5 <= point <= 21;  // so the conversion to a machine integer is exact
      if point <= 0 {
        result := "0." + Zeros(-point) + digits;
        assert result == "0" + ("." + (Zeros(-point) + digits)) + "";
      } else if point >= |digits| {
        result := digits + Zeros(point - |digits|);
        assert result == result + "" + "";
      } else {
        result := digits[..point] + "." + digits[point..];
        assert result == digits[..point] + ("." + digits[point..]) + "";
      }
    } else {
      result := digits[..1];
      if |digits| > 1 {
        result := result + "." + digits[1..];
      }
      var exponentText := DecimalInteger(scientificExponent);
      assert result == digits[..1] + (if digits[1..] == "" then "" else "." + digits[1..]);
      ExponentText(scientificExponent, result);
      result := result + "e" + exponentText;
    }
  }

  lemma ExponentText(k: int, prefix: string)
    ensures prefix + "e" + DecimalInteger(k) == prefix + SpellExponent(DecimalExponent(k))
  {
    assert "e" + DecimalInteger(k) == SpellExponent(DecimalExponent(k));
    assert prefix + "e" + DecimalInteger(k) == prefix + ("e" + DecimalInteger(k));
  }

  /** `big.Int.String`. */
  function DecimalInteger(k: int): string {
    if k < 0 then "-" + Decimal(-k) else Decimal(k)
  }
}
