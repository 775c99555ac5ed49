/**
 JSON text as RFC 8259 defines it, related to the value it denotes: white space, every way to write a
 character, numbers, arrays and objects. Nothing here says how text is read.
 */
module JsonGrammar {
  import opened CodePoints
  import opened DecimalNumbers
  import opened JsonEncoding

  /** `ws` of section 2. */
  predicate Spaces(s: string) { forall i | 0 <= i < |s| :: s[i] in " \t\n\r" }

  // ---------------------------------------------------------------- strings (section 7)

  /** A hexadecimal digit of either case. */
  predicate HexDigitOf(c: char, d: nat) { d < 16 && (c == "0123456789abcdef"[d] || c == "0123456789ABCDEF"[d]) }

  /** The six characters that write a code unit. */
  predicate UnitText(s: string, unit: nat) {
    && |s| == 6 && s[0] == '\\' && s[1] == 'u' && unit < 0x10000
    && HexDigitOf(s[2], unit / 0x1000) && HexDigitOf(s[3], unit / 0x100 % 0x10)
    && HexDigitOf(s[4], unit / 0x10 % 0x10) && HexDigitOf(s[5], unit % 0x10)
  }

  predicate HighHalf(unit: nat) { 0xD800 <= unit < 0xDC00 }

  predicate LowHalf(unit: nat) { 0xDC00 <= unit < 0xE000 }

  /** A backslash and one character. */
  predicate ShortText(s: string, code: nat) {
    || (s == "\\\"" && code == 0x22) || (s == "\\\\" && code == 0x5C) || (s == "\\/" && code == 0x2F)
    || (s == "\\b" && code == 0x08) || (s == "\\f" && code == 0x0C) || (s == "\\n" && code == 0x0A)
    || (s == "\\r" && code == 0x0D) || (s == "\\t" && code == 0x09)
  }

  /** A code point above 0xFFFF as two code units. */
  predicate PairText(s: string, code: nat) {
    && |s| == 12 && 0x10000 <= code < 0x110000
    && UnitText(s[..6], 0xD800 + (code - 0x10000) / 0x400) && UnitText(s[6..], 0xDC00 + (code - 0x10000) % 0x400)
  }

  /** Half a pair without the other half: the RFC leaves its meaning open, here it is U+FFFD. */
  ghost predicate LoneText(s: string, code: nat) {
    code == 0xFFFD && exists unit :: (HighHalf(unit) || LowHalf(unit)) && UnitText(s, unit)
  }

  predicate PlainText(s: string, code: nat) { One(s) == Some(code) && code >= 0x20 && code != 0x22 && code != 0x5C }

  /** One way to write one code point. */
  ghost predicate Piece(s: string, code: nat) {
    || PlainText(s, code) || ShortText(s, code) || (Scalar(code) && UnitText(s, code))
    || PairText(s, code) || LoneText(s, code)
  }

  /** The two halves of a pair, which are one piece and not two. */
  ghost predicate SplitPair(p: string, r: string) {
    && |r| >= 6 && (exists high :: HighHalf(high) && UnitText(p, high))
    && (exists low :: LowHalf(low) && UnitText(r[..6], low))
  }

  /** What stands between the quotes, for a string of these code points. */
  ghost predicate Body(s: string, codes: seq<nat>)
    decreases codes
  {
    if codes == [] then s == ""
    else exists p, r :: s == p + r && Piece(p, codes[0]) && Body(r, codes[1..]) && !SplitPair(p, r)
  }

  /** A quoted string denotes text, which is kept as UTF-8. */
  ghost predicate StringText(s: string, text: string) {
    exists body, codes :: s == "\"" + (body + "\"") && Body(body, codes) && Spells(text, codes)
  }

  // ---------------------------------------------------------------- numbers and values (sections 2 to 6)

  ghost predicate NumberText(s: string) { exists n :: WellFormed(n) && Spell(n) == s }

  /** The text `s` denotes `v`; of a number the document keeps the spelling. */
  ghost predicate ValueText(s: string, v: Json)
    decreases v, 0
  {
    match v
    case Null => s == "null"
    case Bool(flag) => s == if flag then "true" else "false"
    case Text(text) => StringText(s, text)
    case Number(spelling) => s == spelling && NumberText(s)
    case Array(vs) =>
      exists inside :: s == "[" + (inside + "]") && if vs == [] then Spaces(inside) else ListText(inside, vs)
    case Object(ms) =>
      exists inside :: s == "{" + (inside + "}") && if ms == [] then Spaces(inside) else MembersText(inside, ms)
  }

  ghost predicate Padded(s: string, v: Json)
    decreases v, 1
  {
    exists a, t, b :: s == a + (t + b) && Spaces(a) && Spaces(b) && ValueText(t, v)
  }

  ghost predicate ListText(s: string, vs: seq<Json>)
    requires vs != []
    decreases vs, 2
  {
    if |vs| == 1 then Padded(s, vs[0])
    else exists first, rest :: s == first + ("," + rest) && Padded(first, vs[0]) && ListText(rest, vs[1..])
  }

  ghost predicate NameText(s: string, key: string) {
    exists a, t, b :: s == a + (t + b) && Spaces(a) && Spaces(b) && StringText(t, key)
  }

  ghost predicate MemberOf(s: string, m: Member)
    decreases m, 2
  {
    exists name, value :: s == name + (":" + value) && NameText(name, m.key) && Padded(value, m.value)
  }

  ghost predicate MembersText(s: string, ms: seq<Member>)
    requires ms != []
    decreases ms, 2
  {
    if |ms| == 1 then MemberOf(s, ms[0])
    else exists first, rest :: s == first + ("," + rest) && MemberOf(first, ms[0]) && MembersText(rest, ms[1..])
  }

  /** A JSON text: a value with white space around it. */
  ghost predicate DocumentText(s: string, v: Json) { Padded(s, v) }
}
