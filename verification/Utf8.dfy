/**
 UTF-8 validity, as Go's `unicode/utf8` decides it. A Go string is a sequence of bytes; here it is a
 `string` whose characters are byte values, and no character above 0xF4 is ever valid.
 */
module Utf8 {

  predicate Continuation(c: char) { 0x80 <= c as int <= 0xBF }

  predicate Between(c: char, low: int, high: int) { low <= c as int <= high }

  /** The range of the second byte after lead byte `lead` of a sequence of 3 or 4 bytes. */
  predicate SecondByte(lead: char, second: char) {
    Between(second,
            if lead as int == 0xE0 then 0xA0 else if lead as int == 0xF0 then 0x90 else 0x80,
            if lead as int == 0xED then 0x9F else if lead as int == 0xF4 then 0x8F else 0xBF)
  }

  /** The length of the encoded rune at the front of `s`; 0 when there is none. */
  function ValidWidth(s: string): (w: nat)
    ensures w <= 4 && w <= |s|
  {
    if s == "" then 0
    else if s[0] as int < 0x80 then 1
    else if Between(s[0], 0xC2, 0xDF) && |s| >= 2 && Continuation(s[1]) then 2
    else if Between(s[0], 0xE0, 0xEF) && |s| >= 3 && SecondByte(s[0], s[1]) && Continuation(s[2]) then 3
    else if Between(s[0], 0xF0, 0xF4) && |s| >= 4 && SecondByte(s[0], s[1])
            && Continuation(s[2]) && Continuation(s[3]) then 4
    else 0
  }

  /** How far a `range` loop over a string advances: an invalid byte counts as one rune. */
  function RuneWidth(s: string): (w: nat)
    requires s != ""
    ensures 1 <= w <= |s|
  {
    if ValidWidth(s) == 0 then 1 else ValidWidth(s)
  }

  /** `utf8.ValidString`. */
  predicate Valid(s: string) {
    s == "" || (ValidWidth(s) > 0 && Valid(s[ValidWidth(s)..]))
  }

  predicate Ascii(s: string) { forall i | 0 <= i < |s| :: s[i] as int < 0x80 }

  /** Every byte of a rune of two or more bytes lies outside ASCII. */
  lemma WideRune(s: string, i: nat)
    requires s != "" && i < RuneWidth(s) && (RuneWidth(s) > 1 || s[0] as int >= 0x80)
    ensures s[i] as int >= 0x80
  {
  }

  lemma ValidWidthPrefix(a: string, b: string)
    requires ValidWidth(a) > 0
    ensures ValidWidth(a + b) == ValidWidth(a)
  {
  }

  /** One rune in front of valid text. */
  lemma ValidRune(rune: string, rest: string)
    requires ValidWidth(rune) == |rune| > 0 && Valid(rest)
    ensures Valid(rune + rest)
  {
    ValidWidthPrefix(rune, rest);
    assert (rune + rest)[|rune|..] == rest;
  }

  lemma FirstRune(s: string) returns (rune: string, rest: string)
    requires Valid(s) && s != ""
    ensures s == rune + rest && ValidWidth(rune) == |rune| > 0 && Valid(rest)
    ensures RuneWidth(s) == |rune|
  {
    rune, rest := s[..ValidWidth(s)], s[ValidWidth(s)..];
  }

  lemma Associative(a: string, b: string, c: string)
    ensures a + (b + c) == (a + b) + c
  {
  }

  lemma {:induction false} ValidConcat(a: string, b: string)
    requires Valid(a) && Valid(b)
    ensures Valid(a + b)
    decreases |a|
  {
    if a == "" {
      assert a + b == b;
    } else {
      var rune, rest := FirstRune(a);
      ValidConcat(rest, b);
      ValidRune(rune, rest + b);
      Associative(rune, rest, b);
    }
  }

  lemma {:induction false} AsciiValid(s: string)
    requires Ascii(s)
    ensures Valid(s)
  {
    if s != "" { AsciiValid(s[1..]); }
  }

  /** The bytes of a code point outside the surrogate range (`utf8.EncodeRune`). */
  function EncodeRune(r: nat): string
    requires r < 0xD800 || 0xE000 <= r < 0x110000
  {
    if r < 0x80 then [r as char]
    else if r < 0x800 then [(0xC0 + r / 0x40) as char, (0x80 + r % 0x40) as char]
    else if r < 0x10000 then
      [(0xE0 + r / 0x1000) as char, (0x80 + r / 0x40 % 0x40) as char, (0x80 + r % 0x40) as char]
    else
      [(0xF0 + r / 0x40000) as char, (0x80 + r / 0x1000 % 0x40) as char,
       (0x80 + r / 0x40 % 0x40) as char, (0x80 + r % 0x40) as char]
  }
}
