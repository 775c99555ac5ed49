/**
 The token reader under `decodeValue`: JSON text to tokens, by the grammar of RFC 8259 (sections 2, 6
 and 7), with the token-by-token punctuation rules of a streaming decoder. A defect is reported at
 the token where it is met, so what was read before it has already been handed out.
 */
module JsonTokens {
  import opened DecimalNumbers
  import JsonEncoding
  import Utf8

  /** What the reader expects next; the state of an enclosing array or object waits on the stack. */
  datatype State =
    | TopValue | ArrayStart | ArrayValue | ArrayComma
    | ObjectStart | ObjectKey | ObjectColon | ObjectValue | ObjectComma

  datatype Cursor = Cursor(rest: string, state: State, stack: seq<State>)

  datatype Token =
    | NullToken | BoolToken(flag: bool) | TextToken(text: string) | NumberToken(spelling: string)
    | Delim(mark: char)

  datatype Scan = Got(token: Token, next: Cursor) | EndOfInput | Malformed

  predicate ValueAllowed(s: State) {
    s.TopValue? || s.ArrayStart? || s.ArrayValue? || s.ObjectValue?
  }

  /** The state after a complete value. */
  function AfterValue(s: State): State {
    match s
    case ArrayStart | ArrayValue => ArrayComma
    case ObjectValue => ObjectComma
    case _ => s
  }

  predicate IsSpace(c: char) { c == ' ' || c == '\t' || c == '\n' || c == '\r' }

  function SkipSpace(s: string): (r: string)
    ensures |r| <= |s| && (r != "" ==> !IsSpace(r[0]))
  {
    if s != "" && IsSpace(s[0]) then SkipSpace(s[1..]) else s
  }

  // ---------------------------------------------------------------- numbers

  function TakeDigits(s: string): (d: string)
    ensures |d| <= |s| && d == s[..|d|] && AllDigits(d)
  {
    if s != "" && IsDigit(s[0]) then [s[0]] + TakeDigits(s[1..]) else ""
  }

  /** Text with its already matched front part. */
  datatype Taken<T> = Taken(value: T, rest: string)

  function TakeWhole(s: string): Option<string> {
    if s == "" || !IsDigit(s[0]) then None
    else if s[0] == '0' then Some(s[1..])
    else Some(s[|TakeDigits(s)|..])
  }

  function TakeFraction(s: string): Option<string> {
    if s == "" || s[0] != '.' then Some(s)
    else
      var d := TakeDigits(s[1..]);
      if d == "" then None else Some(s[1 + |d|..])
  }

  function TakeExponent(s: string): Option<string> {
    if s == "" || (s[0] != 'e' && s[0] != 'E') then Some(s)
    else
      var skip := if |s| > 1 && (s[1] == '+' || s[1] == '-') then 2 else 1;
      var d := TakeDigits(s[skip..]);
      if d == "" then None else Some(s[skip + |d|..])
  }

  /** What is left after the longest number at the front; none if a number breaks off. */
  function AfterNumber(s: string): Option<string> {
    var unsigned := if s != "" && s[0] == '-' then s[1..] else s;
    match TakeWhole(unsigned)
    case None => None
    case Some(r) =>
      match TakeFraction(r)
      case None => None
      case Some(t) => TakeExponent(t)
  }

  // ---------------------------------------------------------------- strings

  function HexValue(c: char): Option<nat> {
    if '0' <= c <= '9' then Some(c as int - '0' as int)
    else if 'a' <= c <= 'f' then Some(c as int - 'a' as int + 10)
    else if 'A' <= c <= 'F' then Some(c as int - 'A' as int + 10)
    else None
  }

  function HexNumber(s: string): (r: Option<nat>)
    ensures r.Some? ==> forall i | 0 <= i < |s| :: HexValue(s[i]).Some?
  {
    if s == "" then Some(0)
    else
      match (HexNumber(s[..|s| - 1]), HexValue(s[|s| - 1]))
      case (Some(high), Some(low)) => Some(16 * high + low)
      case _ => None
  }

  /** The code unit of a `\uXXXX` escape at the front of `s`. */
  function CodeUnit(s: string): Option<nat> {
    if |s| >= 6 && s[0] == '\\' && s[1] == 'u' then HexNumber(s[2..6]) else None
  }

  const REPLACEMENT: nat := 0xFFFD

  /**
   One escape at the front of `s`: the bytes it stands for and its length. A surrogate that is not
   the first half of a pair stands for the replacement character.
   */
  function ReadEscape(s: string): (r: Option<(string, nat)>)
    requires s != "" && s[0] == '\\'
    ensures r.Some? ==> 2 <= r.value.1 <= |s|
  {
    if |s| < 2 then None
    else if s[1] == '"' || s[1] == '\\' || s[1] == '/' then Some(([s[1]], 2))
    else if s[1] == 'b' then Some(([0x08 as char], 2))
    else if s[1] == 'f' then Some(([0x0C as char], 2))
    else if s[1] == 'n' then Some(("\n", 2))
    else if s[1] == 'r' then Some(("\r", 2))
    else if s[1] == 't' then Some(("\t", 2))
    else
      match CodeUnit(s)
      case None => None
      case Some(unit) =>
        if unit < 0xD800 || 0xE000 <= unit < 0x10000 then Some((Utf8.EncodeRune(unit), 6))
        else
          match CodeUnit(s[6..])
          case Some(low) =>
            if unit < 0xDC00 && 0xDC00 <= low < 0xE000 then
              Some((Utf8.EncodeRune(0x10000 + (unit - 0xD800) * 0x400 + (low - 0xDC00)), 12))
            else Some((Utf8.EncodeRune(REPLACEMENT), 6))
          case None => Some((Utf8.EncodeRune(REPLACEMENT), 6))
  }

  /** The text up to the closing quote, and what follows the quote. */
  function ReadText(s: string): (r: Option<Taken<string>>)
    ensures r.Some? ==> |r.value.rest| < |s|
    decreases |s|
  {
    if s == "" then None
    else if s[0] == '"' then Some(Taken("", s[1..]))
    else if s[0] == '\\' then
      match ReadEscape(s)
      case None => None
      case Some(e) =>
        (match ReadText(s[e.1..])
         case None => None
         case Some(t) => Some(Taken(e.0 + t.value, t.rest)))
    else if s[0] as int < 0x20 then None
    else
      match ReadText(s[1..])
      case None => None
      case Some(t) => Some(Taken([s[0]] + t.value, t.rest))
  }

  // ---------------------------------------------------------------- tokens

  predicate StartsWith(s: string, prefix: string) { prefix <= s }

  function ReadScalar(s: string): (r: Option<Taken<Token>>)
    requires s != ""
    ensures r.Some? ==> |r.value.rest| < |s|
  {
    if StartsWith(s, "null") then Some(Taken(NullToken, s[4..]))
    else if StartsWith(s, "true") then Some(Taken(BoolToken(true), s[4..]))
    else if StartsWith(s, "false") then Some(Taken(BoolToken(false), s[5..]))
    else if s[0] == '"' then
      match ReadText(s[1..])
      case None => None
      case Some(t) => Some(Taken(TextToken(t.value), t.rest))
    else
      match AfterNumber(s)
      case None => None
      case Some(rest) =>
        if |rest| < |s| then Some(Taken(NumberToken(s[..|s| - |rest|]), rest)) else None
  }

  /** `decoder.Token()`. */
  function Next(c: Cursor): (r: Scan)
    ensures r.Got? ==> |r.next.rest| < |c.rest|
    decreases |c.rest|
  {
    var s := SkipSpace(c.rest);
    if s == "" then EndOfInput
    else if s[0] == '[' || s[0] == '{' then
      if ValueAllowed(c.state) then
        Got(Delim(s[0]), Cursor(s[1..], if s[0] == '[' then ArrayStart else ObjectStart, c.stack + [c.state]))
      else Malformed
    else if s[0] == ']' || s[0] == '}' then
      var closes := if s[0] == ']' then c.state.ArrayStart? || c.state.ArrayComma?
                    else c.state.ObjectStart? || c.state.ObjectComma?;
      if closes && c.stack != [] then
        Got(Delim(s[0]), Cursor(s[1..], AfterValue(c.stack[|c.stack| - 1]), c.stack[..|c.stack| - 1]))
      else Malformed
    else if s[0] == ':' then
      if c.state.ObjectColon? then Next(Cursor(s[1..], ObjectValue, c.stack)) else Malformed
    else if s[0] == ',' then
      if c.state.ArrayComma? then Next(Cursor(s[1..], ArrayValue, c.stack))
      else if c.state.ObjectComma? then Next(Cursor(s[1..], ObjectKey, c.stack))
      else Malformed
    else if s[0] == '"' && (c.state.ObjectStart? || c.state.ObjectKey?) then
      match ReadText(s[1..])
      case None => Malformed
      case Some(t) => Got(TextToken(t.value), Cursor(t.rest, ObjectColon, c.stack))
    else if !ValueAllowed(c.state) then Malformed
    else
      match ReadScalar(s)
      case None => Malformed
      case Some(t) => Got(t.value, Cursor(t.rest, AfterValue(c.state), c.stack))
  }

  /** `decoder.More()`. */
  predicate More(c: Cursor) {
    var s := SkipSpace(c.rest);
    s != "" && s[0] != ']' && s[0] != '}'
  }

  // ---------------------------------------------------------------- reading back what was written

  /** What may follow a value. */
  predicate Delimited(tail: string) {
    tail == "" || tail[0] == ',' || tail[0] == ']' || tail[0] == '}' || IsSpace(tail[0])
  }

  lemma {:induction false} TakeDigitsExactly(d: string, tail: string)
    requires AllDigits(d) && (tail == "" || !IsDigit(tail[0]))
    ensures TakeDigits(d + tail) == d && (d + tail)[|d|..] == tail
  {
    if d == "" {
      assert d + tail == tail;
    } else {
      TakeDigitsExactly(d[1..], tail);
      assert (d + tail)[1..] == d[1..] + tail;
    }
  }

  lemma TakeExponentAt(s: string, skip: nat, digits: string, tail: string)
    requires |s| > 1 && (s[0] == 'e' || s[0] == 'E')
    requires skip == (if s[1] == '+' || s[1] == '-' then 2 else 1)
    requires s[skip..] == digits + tail && digits != "" && TakeDigits(digits + tail) == digits
    ensures TakeExponent(s) == Some(tail)
  {
    assert s[skip + |digits|..] == s[skip..][|digits|..] == tail;
  }

  lemma AfterUnsignedExponent(e: Exponent, tail: string)
    requires e.Exponent? && ExponentWellFormed(e) && e.sign == "" && Delimited(tail)
    ensures TakeExponent(SpellExponent(e) + tail) == Some(tail)
  {
    var s := SpellExponent(e) + tail;
    assert s[1..] == e.digits + tail && s[1] == e.digits[0];
    TakeDigitsExactly(e.digits, tail);
    TakeExponentAt(s, 1, e.digits, tail);
  }

  lemma AfterSignedExponent(e: Exponent, tail: string)
    requires e.Exponent? && ExponentWellFormed(e) && e.sign != "" && Delimited(tail)
    ensures TakeExponent(SpellExponent(e) + tail) == Some(tail)
  {
    var s := SpellExponent(e) + tail;
    assert s[2..] == e.digits + tail && s[1] == e.sign[0];
    TakeDigitsExactly(e.digits, tail);
    TakeExponentAt(s, 2, e.digits, tail);
  }

  lemma AfterExponent(e: Exponent, tail: string)
    requires ExponentWellFormed(e) && Delimited(tail)
    ensures TakeExponent(SpellExponent(e) + tail) == Some(tail)
  {
    if e.Absent? {
      assert "" + tail == tail;
    } else if e.sign == "" {
      AfterUnsignedExponent(e, tail);
    } else {
      AfterSignedExponent(e, tail);
    }
  }

  /** The head of what follows the fraction: an exponent letter or a delimiter. */
  predicate EndsDigits(s: string) { s == "" || !IsDigit(s[0]) }

  lemma AfterFraction(n: Numeral, rest: string)
    requires WellFormed(n) && EndsDigits(rest) && (rest == "" || rest[0] != '.')
    ensures TakeFraction(PointAndFraction(n) + rest) == Some(rest)
  {
    if n.fraction != "" {
      var s := PointAndFraction(n) + rest;
      assert s[1..] == n.fraction + rest;
      TakeDigitsExactly(n.fraction, rest);
      assert s[1 + |n.fraction|..] == s[1..][|n.fraction|..];
    } else {
      assert "" + rest == rest;
    }
  }

  lemma AfterWhole(n: Numeral, rest: string)
    requires WellFormed(n) && EndsDigits(rest)
    ensures TakeWhole(n.whole + rest) == Some(rest)
  {
    TakeDigitsExactly(n.whole, rest);
    if n.whole[0] == '0' { assert n.whole == "0" && (n.whole + rest)[1..] == rest; }
  }

  /** A number in canonical text is read back whole. */
  lemma SpelledParts(n: Numeral, tail: string)
    ensures var parts := n.whole + (PointAndFraction(n) + (SpellExponent(n.exponent) + tail));
            Spell(n) + tail == if n.negative then "-" + parts else parts
  {
    Utf8.Associative(n.whole, PointAndFraction(n), SpellExponent(n.exponent));
    Utf8.Associative(n.whole, PointAndFraction(n) + SpellExponent(n.exponent), tail);
    Utf8.Associative(PointAndFraction(n), SpellExponent(n.exponent), tail);
    Utf8.Associative("-", SpellUnsigned(n), tail);
  }

  lemma AfterSpelledNumber(n: Numeral, tail: string)
    requires WellFormed(n) && Delimited(tail)
    ensures AfterNumber(Spell(n) + tail) == Some(tail)
  {
    var fromExponent := SpellExponent(n.exponent) + tail;
    var fromPoint := PointAndFraction(n) + fromExponent;
    AfterExponent(n.exponent, tail);
    AfterFraction(n, fromExponent);
    AfterWhole(n, fromPoint);
    SpelledParts(n, tail);
  }

  lemma ReadControlEscape(c: char, rest: string)
    requires c as int < 0x20
    ensures ReadEscape(JsonEncoding.EscapeByte(c) + rest) == Some(([c], |JsonEncoding.EscapeByte(c)|))
  {
    var e := JsonEncoding.EscapeByte(c);
    if |e| == 6 {
      HexPair(c as int, (e + rest)[2..6]);
      assert CodeUnit(e + rest) == Some(c as int);
    }
  }

  lemma HexPair(value: nat, s: string)
    requires value < 256
    requires s == "00" + [JsonEncoding.HexDigit(value / 16), JsonEncoding.HexDigit(value % 16)]
    ensures HexNumber(s) == Some(value)
  {
    var zeros, high := "00", "00" + [JsonEncoding.HexDigit(value / 16)];
    assert zeros[..1] == "0" && "0"[..0] == "";
    assert HexNumber("0") == Some(0) && HexNumber(zeros) == Some(0);
    assert high[..2] == zeros && HexNumber(high) == Some(value / 16);
    assert s[..3] == high;
  }

  /** One escaped byte in front of text that is read back. */
  lemma ReadEscapedByte(c: char, rest: string, t: Taken<string>)
    requires ReadText(rest) == Some(t)
    ensures ReadText(JsonEncoding.EscapeByte(c) + rest) == Some(Taken([c] + t.value, t.rest))
  {
    var e := JsonEncoding.EscapeByte(c);
    assert (e + rest)[|e|..] == rest;
    if c as int < 0x20 { ReadControlEscape(c, rest); }
  }

  /** Escaped text is read back as the text, up to the closing quote. */
  lemma {:induction false} ReadEscaped(s: string, tail: string)
    ensures ReadText(JsonEncoding.Escape(s) + ("\"" + tail)) == Some(Taken(s, tail))
  {
    if s == "" {
      assert "" + ("\"" + tail) == "\"" + tail;
      assert ("\"" + tail)[1..] == tail;
    } else {
      var rest := JsonEncoding.Escape(s[1..]);
      ReadEscaped(s[1..], tail);
      ReadEscapedByte(s[0], rest + ("\"" + tail), Taken(s[1..], tail));
      Utf8.Associative(JsonEncoding.EscapeByte(s[0]), rest, "\"" + tail);
      assert [s[0]] + s[1..] == s;
    }
  }
}
