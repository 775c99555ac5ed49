/**
 UTF-8 by its bit layout (RFC 3629, section 3): lead byte, continuation bytes, shortest form, no
 surrogates. Validity and encoding as the program decides them are proved to agree with it.
 */
module CodePoints {
  import opened DecimalNumbers
  import Utf8

  /** A Unicode scalar value: a code point that is not half of a surrogate pair. */
  predicate Scalar(code: int) { 0 <= code < 0x110000 && !(0xD800 <= code <= 0xDFFF) }

  /** The six payload bits of a byte that continues a sequence. */
  function Payload(c: char): Option<nat> {
    if 0x80 <= c as int < 0xC0 then Some(c as int - 0x80) else None
  }

  /** One code point in a byte sequence of the length its lead byte announces. */
  function One(s: string): Option<nat> {
    if |s| == 1 && s[0] as int < 0x80 then Some(s[0] as int)
    else if |s| == 2 && 0xC0 <= s[0] as int < 0xE0 && Payload(s[1]).Some? then
      Shortest((s[0] as int - 0xC0) * 0x40 + Payload(s[1]).value, 0x80)
    else if |s| == 3 && 0xE0 <= s[0] as int < 0xF0 && Payload(s[1]).Some? && Payload(s[2]).Some? then
      Shortest((s[0] as int - 0xE0) * 0x1000 + Payload(s[1]).value * 0x40 + Payload(s[2]).value, 0x800)
    else if |s| == 4 && 0xF0 <= s[0] as int < 0xF8
            && Payload(s[1]).Some? && Payload(s[2]).Some? && Payload(s[3]).Some? then
      Shortest((s[0] as int - 0xF0) * 0x40000 + Payload(s[1]).value * 0x1000
               + Payload(s[2]).value * 0x40 + Payload(s[3]).value, 0x10000)
    else None
  }

  function Shortest(code: nat, least: nat): Option<nat> {
    if code >= least && Scalar(code) then Some(code) else None
  }

  /** `s` is the UTF-8 of these code points. */
  ghost predicate Spells(s: string, codes: seq<nat>)
    decreases codes
  {
    if codes == [] then s == ""
    else exists p, r :: s == p + r && One(p) == Some(codes[0]) && Spells(r, codes[1..])
  }

  // ---------------------------------------------------------------- the program agrees

  /** A sequence is one valid rune exactly when it spells one scalar value. */
  lemma RuneExact(s: string)
    ensures Utf8.ValidWidth(s) == |s| > 0 <==> One(s).Some?
  {
  }

  lemma SixBits(code: nat)
    ensures code == code / 0x40 * 0x40 + code % 0x40 && code % 0x40 < 0x40
    ensures code / 0x1000 == code / 0x40 / 0x40 && code / 0x40000 == code / 0x1000 / 0x40
  {
  }

  lemma PayloadOf(bits: nat)
    requires bits < 0x40
    ensures Payload((0x80 + bits) as char) == Some(bits)
  {
  }

  lemma EncodeTwo(code: nat)
    requires 0x80 <= code < 0x800
    ensures One(Utf8.EncodeRune(code)) == Some(code)
  {
    SixBits(code);
    PayloadOf(code % 0x40);
  }

  lemma EncodeThree(code: nat)
    requires 0x800 <= code < 0x10000 && Scalar(code)
    ensures One(Utf8.EncodeRune(code)) == Some(code)
  {
    SixBits(code);
    SixBits(code / 0x40);
    PayloadOf(code % 0x40);
    PayloadOf(code / 0x40 % 0x40);
  }

  lemma EncodeFour(code: nat)
    requires 0x10000 <= code < 0x110000
    ensures One(Utf8.EncodeRune(code)) == Some(code)
  {
    SixBits(code);
    SixBits(code / 0x40);
    SixBits(code / 0x1000);
    PayloadOf(code % 0x40);
    PayloadOf(code / 0x40 % 0x40);
    PayloadOf(code / 0x1000 % 0x40);
  }

  /** `utf8.EncodeRune` spells the rune it is given. */
  lemma EncodeSpells(code: nat)
    requires Scalar(code)
    ensures One(Utf8.EncodeRune(code)) == Some(code)
  {
    if code < 0x80 {
    } else if code < 0x800 {
      EncodeTwo(code);
    } else if code < 0x10000 {
      EncodeThree(code);
    } else {
      EncodeFour(code);
    }
  }

  lemma RuneAscii(s: string)
    requires One(s).Some?
    ensures s != "" && (s[0] as int < 0x80 ==> |s| == 1 && One(s) == Some(s[0] as int))
    ensures One(s).value < 0x80 ==> |s| == 1
    ensures |s| > 1 ==> forall i | 0 <= i < |s| :: s[i] as int >= 0x80
  {
  }

  lemma OneLength(s: string)
    requires One(s).Some?
    ensures |s| == if One(s).value < 0x80 then 1 else if One(s).value < 0x800 then 2
                   else if One(s).value < 0x10000 then 3 else 4
  {
  }

  lemma DigitsUnique(a: int, b: nat, c: int, d: nat)
    requires b < 0x40 && d < 0x40 && a * 0x40 + b == c * 0x40 + d
    ensures a == c && b == d
  {
  }

  lemma OneInjective(a: string, b: string)
    requires One(a).Some? && One(a) == One(b)
    ensures a == b
  {
    OneLength(a);
    OneLength(b);
    if |a| == 2 {
      DigitsUnique(a[0] as int, Payload(a[1]).value, b[0] as int, Payload(b[1]).value);
    } else if |a| == 3 {
      ThreeInjective(a, b);
    } else if |a| == 4 {
      FourInjective(a, b);
    }
  }

  lemma ThreeInjective(a: string, b: string)
    requires |a| == |b| == 3 && One(a).Some? && One(a) == One(b)
    ensures a == b
  {
    var p, q := Payload(a[1]).value, Payload(b[1]).value;
    DigitsUnique(a[0] as int * 0x40 + p, Payload(a[2]).value, b[0] as int * 0x40 + q, Payload(b[2]).value);
    DigitsUnique(a[0] as int, p, b[0] as int, q);
  }

  lemma FourInjective(a: string, b: string)
    requires |a| == |b| == 4 && One(a).Some? && One(a) == One(b)
    ensures a == b
  {
    var p, q := Payload(a[1]).value, Payload(b[1]).value;
    var r, s := Payload(a[2]).value, Payload(b[2]).value;
    var high, other := a[0] as int * 0x40 + p, b[0] as int * 0x40 + q;
    DigitsUnique(high * 0x40 + r, Payload(a[3]).value, other * 0x40 + s, Payload(b[3]).value);
    DigitsUnique(high, r, other, s);
    DigitsUnique(a[0] as int, p, b[0] as int, q);
  }

  /** Valid text is exactly what spells some code points. */
  lemma {:induction false} ValidExact(s: string)
    ensures Utf8.Valid(s) <==> exists codes: seq<nat> :: Spells(s, codes)
    decreases |s|
  {
    if Utf8.Valid(s) {
      var codes := CodesOf(s);
      assert Spells(s, codes);
    }
    if codes: seq<nat> :| Spells(s, codes) { SpelledValid(s, codes); }
  }

  lemma {:induction false} CodesOf(s: string) returns (codes: seq<nat>)
    requires Utf8.Valid(s)
    ensures Spells(s, codes)
    decreases |s|
  {
    if s == "" {
      codes := [];
    } else {
      var rune, rest := Utf8.FirstRune(s);
      RuneExact(rune);
      var more := CodesOf(rest);
      codes := [One(rune).value] + more;
      assert codes[1..] == more;
    }
  }

  lemma {:induction false} SpelledValid(s: string, codes: seq<nat>)
    requires Spells(s, codes)
    ensures Utf8.Valid(s)
    decreases codes
  {
    if codes != [] {
      var p, r :| s == p + r && One(p) == Some(codes[0]) && Spells(r, codes[1..]);
      RuneExact(p);
      SpelledValid(r, codes[1..]);
      Utf8.ValidRune(p, r);
    }
  }

  lemma SpellsFirst(p: string, r: string, code: nat, codes: seq<nat>)
    requires One(p) == Some(code) && Spells(r, codes)
    ensures Spells(p + r, [code] + codes)
  {
    assert ([code] + codes)[1..] == codes;
  }

  /** Code points have one spelling. */
  lemma {:induction false} SpellingUnique(s: string, t: string, codes: seq<nat>)
    requires Spells(s, codes) && Spells(t, codes)
    ensures s == t
    decreases codes
  {
    if codes != [] {
      var p, r :| s == p + r && One(p) == Some(codes[0]) && Spells(r, codes[1..]);
      var q, u :| t == q + u && One(q) == Some(codes[0]) && Spells(u, codes[1..]);
      OneInjective(p, q);
      SpellingUnique(r, u, codes[1..]);
    }
  }

  /** Text spells one sequence of code points. */
  lemma {:induction false} CodesUnique(s: string, codes: seq<nat>, others: seq<nat>)
    requires Spells(s, codes) && Spells(s, others)
    ensures codes == others
    decreases codes
  {
    hide One;
    if codes == [] || others == [] {
      NeitherFirst(s, codes, others);
    } else {
      var p, r :| s == p + r && One(p) == Some(codes[0]) && Spells(r, codes[1..]);
      var q, u :| s == q + u && One(q) == Some(others[0]) && Spells(u, others[1..]);
      SameFront(p, r, q, u);
      CodesUnique(r, codes[1..], others[1..]);
      assert codes == [codes[0]] + codes[1..] && others == [others[0]] + others[1..];
    }
  }

  lemma NeitherFirst(s: string, codes: seq<nat>, others: seq<nat>)
    requires Spells(s, codes) && Spells(s, others) && (codes == [] || others == [])
    ensures codes == others
  {
    if s == "" {
      forall p, r | p + r == s ensures One(p).None? { assert p == ""; }
    }
  }

  lemma SameFront(p: string, r: string, q: string, u: string)
    requires p + r == q + u && One(p).Some? && One(q).Some?
    ensures p == q && r == u
  {
    RuneExact(p);
    RuneExact(q);
    Utf8.ValidWidthPrefix(p, r);
    Utf8.ValidWidthPrefix(q, u);
    assert (p + r)[..|p|] == p && (q + u)[..|q|] == q;
    assert (p + r)[|p|..] == r && (q + u)[|q|..] == u;
  }
}
