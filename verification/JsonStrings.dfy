/**
 The string reader meets the grammar: between the quotes it reads every spelling of some code points
 as the UTF-8 of those code points, and nothing else.
 */
module JsonStrings {
  import opened CodePoints
  import opened DecimalNumbers
  import opened JsonGrammar
  import opened JsonTokens
  import Utf8

  // ---------------------------------------------------------------- code units

  lemma HexDigitExact(c: char, d: nat)
    ensures HexDigitOf(c, d) <==> HexValue(c) == Some(d)
  {
  }

  lemma HexStep(s: string)
    requires s != ""
    ensures HexNumber(s) == match (HexNumber(s[..|s| - 1]), HexValue(s[|s| - 1]))
                            case (Some(high), Some(low)) => Some(16 * high + low)
                            case _ => None
  {
    hide HexValue;
  }

  lemma HexFour(s: string)
    requires |s| == 4
    ensures HexNumber(s)
            == match (HexValue(s[0]), HexValue(s[1]), HexValue(s[2]), HexValue(s[3]))
               case (Some(a), Some(b), Some(c), Some(d)) => Some(0x1000 * a + 0x100 * b + 0x10 * c + d)
               case _ => None
  {
    assert s[..3][..2] == s[..2] && s[..2][..1] == s[..1] && s[..1][..0] == "";
    HexStep(s);
    HexStep(s[..3]);
    HexStep(s[..2]);
    HexStep(s[..1]);
  }

  lemma LastDigit(high: nat, low: nat)
    requires low < 0x10
    ensures (0x10 * high + low) / 0x10 == high && (0x10 * high + low) % 0x10 == low
  {
  }

  lemma OffLast(unit: nat)
    ensures unit == 0x10 * (unit / 0x10) + unit % 0x10
    ensures unit / 0x100 == unit / 0x10 / 0x10 && unit / 0x1000 == unit / 0x100 / 0x10
  {
  }

  lemma FourDigits(a: nat, b: nat, c: nat, d: nat, unit: nat)
    requires a < 0x10 && b < 0x10 && c < 0x10 && d < 0x10
    ensures unit == 0x1000 * a + 0x100 * b + 0x10 * c + d
            <==> unit / 0x1000 == a && unit / 0x100 % 0x10 == b && unit / 0x10 % 0x10 == c && unit % 0x10 == d
  {
    OffLast(unit);
    OffLast(unit / 0x10);
    OffLast(unit / 0x100);
    LastDigit(0x100 * a + 0x10 * b + c, d);
    LastDigit(0x10 * a + b, c);
    LastDigit(a, b);
  }

  lemma UnitDigits(w: Option<nat>, x: Option<nat>, y: Option<nat>, z: Option<nat>, unit: nat)
    requires forall h | h in [w, x, y, z] :: h.Some? ==> h.value < 0x10
    ensures unit < 0x10000 && w == Some(unit / 0x1000) && x == Some(unit / 0x100 % 0x10)
            && y == Some(unit / 0x10 % 0x10) && z == Some(unit % 0x10)
       <==> match (w, x, y, z)
            case (Some(a), Some(b), Some(c), Some(d)) => unit == 0x1000 * a + 0x100 * b + 0x10 * c + d
            case _ => false
  {
    assert w in [w, x, y, z] && x in [w, x, y, z] && y in [w, x, y, z] && z in [w, x, y, z];
    if w.Some? && x.Some? && y.Some? && z.Some? { FourDigits(w.value, x.value, y.value, z.value, unit); }
  }

  lemma HexBelow(c: char)
    ensures HexValue(c).Some? ==> HexValue(c).value < 0x10
  {
  }

  lemma UnitExact(s: string, unit: nat)
    requires |s| == 6
    ensures UnitText(s, unit) <==> CodeUnit(s) == Some(unit)
  {
    hide HexNumber, HexValue, HexDigitOf;
    var hex := s[2..6];
    HexFour(hex);
    assert hex[0] == s[2] && hex[1] == s[3] && hex[2] == s[4] && hex[3] == s[5];
    HexDigitExact(s[2], unit / 0x1000);
    HexDigitExact(s[3], unit / 0x100 % 0x10);
    HexDigitExact(s[4], unit / 0x10 % 0x10);
    HexDigitExact(s[5], unit % 0x10);
    forall c: char ensures HexValue(c).Some? ==> HexValue(c).value < 0x10 { HexBelow(c); }
    UnitDigits(HexValue(s[2]), HexValue(s[3]), HexValue(s[4]), HexValue(s[5]), unit);
  }

  // ---------------------------------------------------------------- one piece

  /** Reading on behind some bytes that are kept as they are. */
  function Prepend(bytes: string, t: Option<Taken<string>>): Option<Taken<string>> {
    match t
    case None => None
    case Some(u) => Some(Taken(bytes + u.value, u.rest))
  }

  lemma PrependTwice(a: string, b: string, t: Option<Taken<string>>)
    ensures Prepend(a, Prepend(b, t)) == Prepend(a + b, t) && Prepend("", t) == t
  {
    if t.Some? {
      assert a + (b + t.value.value) == (a + b) + t.value.value;
      assert "" + t.value.value == t.value.value;
    }
  }

  lemma ReadByte(c: char, rest: string)
    requires c != '"' && c != '\\' && c as int >= 0x20
    ensures ReadText([c] + rest) == Prepend([c], ReadText(rest))
  {
    assert ([c] + rest)[1..] == rest;
  }

  lemma {:induction false} ReadVerbatim(p: string, rest: string)
    requires forall i | 0 <= i < |p| :: p[i] != '"' && p[i] != '\\' && p[i] as int >= 0x20
    ensures ReadText(p + rest) == Prepend(p, ReadText(rest))
  {
    hide ReadText, Prepend;
    if p == "" {
      assert p + rest == rest;
      PrependTwice("", "", ReadText(rest));
    } else {
      PrependTwice([p[0]], p[1..], ReadText(rest));
      ReadVerbatim(p[1..], rest);
      ReadByte(p[0], p[1..] + rest);
      assert [p[0]] + (p[1..] + rest) == p + rest && [p[0]] + p[1..] == p;
    }
  }

  lemma PlainBytes(p: string, code: nat)
    requires PlainText(p, code)
    ensures forall i | 0 <= i < |p| :: p[i] != '"' && p[i] != '\\' && p[i] as int >= 0x20
  {
    RuneAscii(p);
  }

  lemma ReadBehind(s: string, e: (string, nat))
    requires s != "" && s[0] == '\\' && ReadEscape(s) == Some(e)
    ensures ReadText(s) == Prepend(e.0, ReadText(s[e.1..]))
  {
  }

  lemma UnitAhead(p: string, rest: string)
    requires |p| == 6
    ensures CodeUnit(p + rest) == CodeUnit(p) && (p + rest)[6..] == rest
  {
    assert (p + rest)[2..6] == p[2..6];
  }

  lemma UnitFront(s: string)
    requires |s| >= 6
    ensures CodeUnit(s) == CodeUnit(s[..6])
  {
    assert s[..6] + s[6..] == s;
    UnitAhead(s[..6], s[6..]);
  }

  ghost predicate LowAhead(r: string) { CodeUnit(r).Some? && LowHalf(CodeUnit(r).value) }

  lemma SplitExact(p: string, unit: nat, r: string)
    requires UnitText(p, unit)
    ensures SplitPair(p, r) <==> HighHalf(unit) && LowAhead(r)
  {
    forall other: nat | UnitText(p, other) ensures other == unit {
      UnitExact(p, unit);
      UnitExact(p, other);
    }
    if |r| >= 6 {
      UnitFront(r);
      forall low: nat ensures UnitText(r[..6], low) <==> CodeUnit(r) == Some(low) { UnitExact(r[..6], low); }
    }
  }

  lemma PairCode(code: nat)
    requires 0x10000 <= code < 0x110000
    ensures var high, low := 0xD800 + (code - 0x10000) / 0x400, 0xDC00 + (code - 0x10000) % 0x400;
            && HighHalf(high) && LowHalf(low)
            && code == 0x10000 + (high - 0xD800) * 0x400 + (low - 0xDC00)
  {
  }

  lemma CodeOfPair(high: nat, low: nat)
    requires HighHalf(high) && LowHalf(low)
    ensures var code := 0x10000 + (high - 0xD800) * 0x400 + (low - 0xDC00);
            && 0x10000 <= code < 0x110000
            && high == 0xD800 + (code - 0x10000) / 0x400 && low == 0xDC00 + (code - 0x10000) % 0x400
  {
  }

  /** A code unit that stands for itself, or for U+FFFD. */
  lemma ReadUnit(p: string, unit: nat, rest: string)
    requires UnitText(p, unit) && !SplitPair(p, rest)
    ensures var code := if Scalar(unit) then unit else 0xFFFD;
            ReadEscape(p + rest) == Some((Utf8.EncodeRune(code), 6))
  {
    UnitExact(p, unit);
    UnitAhead(p, rest);
    SplitExact(p, unit, rest);
  }

  lemma ReadHalves(s: string, high: nat, low: nat)
    requires |s| >= 12 && s[0] == '\\' && s[1] == 'u' && HighHalf(high) && LowHalf(low)
    requires CodeUnit(s) == Some(high) && CodeUnit(s[6..]) == Some(low)
    ensures ReadEscape(s) == Some((Utf8.EncodeRune(0x10000 + (high - 0xD800) * 0x400 + (low - 0xDC00)), 12))
  {
  }

  lemma PairUnits(p: string, high: nat, low: nat, rest: string)
    requires |p| == 12 && UnitText(p[..6], high) && UnitText(p[6..], low)
    ensures CodeUnit(p + rest) == Some(high) && CodeUnit((p + rest)[6..]) == Some(low)
  {
    UnitExact(p[..6], high);
    UnitExact(p[6..], low);
    assert p + rest == p[..6] + (p[6..] + rest);
    UnitAhead(p[..6], p[6..] + rest);
    UnitAhead(p[6..], rest);
  }

  lemma ReadPair(p: string, code: nat, rest: string)
    requires PairText(p, code)
    ensures ReadEscape(p + rest) == Some((Utf8.EncodeRune(code), 12))
  {
    hide UnitText, CodeUnit, ReadEscape;
    var high, low := 0xD800 + (code - 0x10000) / 0x400, 0xDC00 + (code - 0x10000) % 0x400;
    PairCode(code);
    PairUnits(p, high, low, rest);
    UnitStart(p[..6], high);
    ReadHalves(p + rest, high, low);
  }

  lemma UnitStart(p: string, unit: nat)
    requires UnitText(p, unit)
    ensures |p| == 6 && p[0] == '\\' && p[1] == 'u'
  {
  }

  lemma ReadShort(p: string, code: nat, rest: string)
    requires ShortText(p, code)
    ensures ReadEscape(p + rest) == Some(([code as char], 2))
  {
    assert (p + rest)[0] == p[0] && (p + rest)[1] == p[1];
  }

  lemma ReadEscaped(p: string, bytes: string, rest: string)
    requires p != "" && p[0] == '\\' && ReadEscape(p + rest) == Some((bytes, |p|))
    ensures ReadText(p + rest) == Prepend(bytes, ReadText(rest))
  {
    assert (p + rest)[|p|..] == rest;
    ReadBehind(p + rest, (bytes, |p|));
  }

  lemma ReadPlainPiece(p: string, code: nat, rest: string)
    requires PlainText(p, code)
    ensures ReadText(p + rest) == Prepend(Utf8.EncodeRune(code), ReadText(rest))
  {
    EncodeSpells(code);
    OneInjective(p, Utf8.EncodeRune(code));
    PlainBytes(p, code);
    ReadVerbatim(p, rest);
  }

  lemma ReadShortPiece(p: string, code: nat, rest: string)
    requires ShortText(p, code)
    ensures ReadText(p + rest) == Prepend(Utf8.EncodeRune(code), ReadText(rest))
  {
    ReadShort(p, code, rest);
    ReadEscaped(p, Utf8.EncodeRune(code), rest);
  }

  lemma ReadUnitPiece(p: string, unit: nat, rest: string)
    requires UnitText(p, unit) && !SplitPair(p, rest)
    ensures ReadText(p + rest) == Prepend(Utf8.EncodeRune(if Scalar(unit) then unit else 0xFFFD), ReadText(rest))
  {
    hide ReadEscape, SplitPair, ReadText;
    UnitStart(p, unit);
    ReadUnit(p, unit, rest);
    ReadEscaped(p, Utf8.EncodeRune(if Scalar(unit) then unit else 0xFFFD), rest);
  }

  lemma ReadPairPiece(p: string, code: nat, rest: string)
    requires PairText(p, code)
    ensures ReadText(p + rest) == Prepend(Utf8.EncodeRune(code), ReadText(rest))
  {
    hide ReadEscape, ReadText;
    ReadPair(p, code, rest);
    ReadEscaped(p, Utf8.EncodeRune(code), rest);
  }

  /** Whatever the piece, the reader takes it whole and keeps the bytes of its code point. */
  lemma ReadPiece(p: string, code: nat, rest: string)
    requires Piece(p, code) && !SplitPair(p, rest)
    ensures Scalar(code) && ReadText(p + rest) == Prepend(Utf8.EncodeRune(code), ReadText(rest))
  {
    hide UnitText, ShortText, PlainText, SplitPair, ReadText;
    PieceScalar(p, code);
    if PlainText(p, code) {
      ReadPlainPiece(p, code, rest);
    } else if ShortText(p, code) {
      ReadShortPiece(p, code, rest);
    } else if PairText(p, code) {
      ReadPairPiece(p, code, rest);
    } else if Scalar(code) && UnitText(p, code) {
      ReadUnitPiece(p, code, rest);
    } else {
      var unit :| (HighHalf(unit) || LowHalf(unit)) && UnitText(p, unit);
      ReadUnitPiece(p, unit, rest);
    }
  }

  lemma PieceScalar(p: string, code: nat)
    requires Piece(p, code)
    ensures Scalar(code) && p != ""
  {
  }

  // ---------------------------------------------------------------- the whole string

  lemma UnitAscii(p: string, unit: nat)
    requires UnitText(p, unit)
    ensures Utf8.Ascii(p) && '"' !in p
  {
    HexAscii(p[2], unit / 0x1000);
    HexAscii(p[3], unit / 0x100 % 0x10);
    HexAscii(p[4], unit / 0x10 % 0x10);
    HexAscii(p[5], unit % 0x10);
  }

  lemma HexAscii(c: char, d: nat)
    requires HexDigitOf(c, d)
    ensures c as int < 0x80 && c != '"'
  {
  }

  /** A closing quote cannot complete a code unit. */
  lemma SplitBeforeQuote(p: string, r: string, tail: string)
    ensures SplitPair(p, r + ("\"" + tail)) <==> SplitPair(p, r)
  {
    hide UnitText;
    var s := r + ("\"" + tail);
    if |r| >= 6 {
      assert s[..6] == r[..6];
    } else if |s| >= 6 {
      assert s[..6][|r|] == '"';
      forall low: nat ensures !UnitText(s[..6], low) {
        if UnitText(s[..6], low) { UnitAscii(s[..6], low); }
      }
    }
  }

  lemma ReadEmptyBody(tail: string)
    ensures ReadText("" + ("\"" + tail)) == Some(Taken("", tail))
  {
    assert "" + ("\"" + tail) == "\"" + tail;
    assert ("\"" + tail)[1..] == tail;
  }

  lemma ReadPieceBefore(p: string, r: string, code: nat, bytes: string, t: Taken<string>)
    requires Piece(p, code) && !SplitPair(p, r) && One(bytes) == Some(code)
    requires ReadText(r + ("\"" + t.rest)) == Some(t)
    ensures ReadText((p + r) + ("\"" + t.rest)) == Some(Taken(bytes + t.value, t.rest))
  {
    hide Piece, SplitPair, One, ReadText;
    SplitBeforeQuote(p, r, t.rest);
    ReadPiece(p, code, r + ("\"" + t.rest));
    EncodeSpells(code);
    OneInjective(bytes, Utf8.EncodeRune(code));
    Utf8.Associative(p, r, "\"" + t.rest);
  }

  /** Every spelling of some code points is read as their UTF-8, up to the closing quote. */
  lemma {:induction false} ReadBody(body: string, codes: seq<nat>, text: string, tail: string)
    requires Body(body, codes) && Spells(text, codes)
    ensures ReadText(body + ("\"" + tail)) == Some(Taken(text, tail))
    decreases codes
  {
    hide Piece, SplitPair, One, ReadText;
    if codes == [] {
      ReadEmptyBody(tail);
    } else {
      var p, r :| body == p + r && Piece(p, codes[0]) && Body(r, codes[1..]) && !SplitPair(p, r);
      var bytes, more :| text == bytes + more && One(bytes) == Some(codes[0]) && Spells(more, codes[1..]);
      ReadBody(r, codes[1..], more, tail);
      ReadPieceBefore(p, r, codes[0], bytes, Taken(more, tail));
    }
  }

  // ---------------------------------------------------------------- nothing else is read

  lemma ShortExact(s: string, e: (string, nat))
    requires s != "" && s[0] == '\\' && ReadEscape(s) == Some(e) && e.1 == 2
    ensures ShortText(s[..2], e.0[0] as nat) && |e.0| == 1 && One(e.0) == Some(e.0[0] as nat)
  {
  }

  lemma ShortNoUnit(p: string, r: string)
    requires |p| != 6
    ensures !SplitPair(p, r)
  {
  }

  lemma FoundUnit(s: string, e: (string, nat)) returns (code: nat)
    requires s != "" && s[0] == '\\' && ReadEscape(s) == Some(e) && e.1 == 6
    ensures Piece(s[..6], code) && !SplitPair(s[..6], s[6..]) && One(e.0) == Some(code)
  {
    var unit := CodeUnit(s).value;
    UnitFront(s);
    UnitExact(s[..6], unit);
    SplitExact(s[..6], unit, s[6..]);
    code := if Scalar(unit) then unit else 0xFFFD;
    EncodeSpells(code);
    assert Scalar(unit) || LoneText(s[..6], code);
  }

  lemma PairRead(s: string, e: (string, nat)) returns (high: nat, low: nat)
    requires s != "" && s[0] == '\\' && ReadEscape(s) == Some(e) && e.1 == 12
    ensures |s| >= 12 && CodeUnit(s) == Some(high) && CodeUnit(s[6..]) == Some(low) && HighHalf(high) && LowHalf(low)
    ensures e.0 == Utf8.EncodeRune(0x10000 + (high - 0xD800) * 0x400 + (low - 0xDC00))
  {
    high, low := CodeUnit(s).value, CodeUnit(s[6..]).value;
  }

  lemma PairFront(s: string, high: nat, low: nat)
    requires |s| >= 12 && CodeUnit(s) == Some(high) && CodeUnit(s[6..]) == Some(low)
    ensures UnitText(s[..12][..6], high) && UnitText(s[..12][6..], low)
  {
    UnitFront(s);
    UnitFront(s[6..]);
    assert s[..12][..6] == s[..6] && s[..12][6..] == s[6..][..6];
    UnitExact(s[..6], high);
    UnitExact(s[6..][..6], low);
  }

  lemma FoundPair(s: string, e: (string, nat)) returns (code: nat)
    requires s != "" && s[0] == '\\' && ReadEscape(s) == Some(e) && e.1 == 12
    ensures PairText(s[..12], code) && One(e.0) == Some(code)
  {
    hide ReadEscape, CodeUnit, UnitText, One;
    var high, low := PairRead(s, e);
    PairFront(s, high, low);
    CodeOfPair(high, low);
    code := 0x10000 + (high - 0xD800) * 0x400 + (low - 0xDC00);
    EncodeSpells(code);
  }

  lemma EscapeLength(s: string, e: (string, nat))
    requires s != "" && s[0] == '\\' && ReadEscape(s) == Some(e)
    ensures e.1 == 2 || e.1 == 6 || e.1 == 12
  {
  }

  lemma FoundEscape(s: string, e: (string, nat)) returns (code: nat)
    requires s != "" && s[0] == '\\' && ReadEscape(s) == Some(e)
    ensures Piece(s[..e.1], code) && !SplitPair(s[..e.1], s[e.1..]) && One(e.0) == Some(code)
  {
    hide ReadEscape, SplitPair, ShortText, PairText, UnitText, LoneText, PlainText;
    EscapeLength(s, e);
    if e.1 == 2 {
      ShortExact(s, e);
      ShortNoUnit(s[..2], s[2..]);
      code := e.0[0] as nat;
    } else if e.1 == 6 {
      code := FoundUnit(s, e);
    } else {
      code := FoundPair(s, e);
      ShortNoUnit(s[..12], s[12..]);
    }
  }

  lemma PieceAscii(p: string, code: nat)
    requires Piece(p, code) && p != "" && p[0] == '\\'
    ensures Utf8.Ascii(p)
  {
    hide UnitText, One;
    if PlainText(p, code) {
      RuneAscii(p);
    } else if ShortText(p, code) {
    } else if PairText(p, code) {
      UnitAscii(p[..6], 0xD800 + (code - 0x10000) / 0x400);
      UnitAscii(p[6..], 0xDC00 + (code - 0x10000) % 0x400);
      assert forall i | 0 <= i < 6 :: p[i] == p[..6][i];
      assert forall i | 6 <= i < 12 :: p[i] == p[6..][i - 6];
    } else {
      var unit :| UnitText(p, unit);
      UnitAscii(p, unit);
    }
  }

  /** Cutting an ASCII front off valid text leaves valid text. */
  lemma {:induction false} AfterAscii(p: string, r: string)
    requires Utf8.Ascii(p) && Utf8.Valid(p + r)
    ensures Utf8.Valid(r)
    decreases |p|
  {
    if p == "" {
      assert p + r == r;
    } else {
      assert (p + r)[1..] == p[1..] + r;
      AfterAscii(p[1..], r);
    }
  }

  /** What is read to a closing quote spells the code points of the result. */
  lemma {:induction false} FoundBody(s: string, t: Taken<string>) returns (body: string, codes: seq<nat>)
    requires ReadText(s) == Some(t) && Utf8.Valid(s)
    ensures s == body + ("\"" + t.rest) && Body(body, codes) && Spells(t.value, codes) && Utf8.Valid(t.rest)
    decreases |s|
  {
    hide Piece, SplitPair, One, ReadText, Body, Spells, Utf8.Valid;
    if s == "" || s[0] == '"' {
      AtQuote(s, t);
      body, codes := "", [];
    } else {
      var p, code, bytes := FoundPiece(s);
      var u := ReadText(s[|p|..]).value;
      if s[0] == '\\' { PieceAscii(p, code); }
      AfterPiece(s, p);
      var r, more := FoundBody(s[|p|..], u);
      body, codes := p + r, [code] + more;
      Extend(p, r, code, more, bytes, u.value, u.rest);
    }
  }

  lemma AtQuote(s: string, t: Taken<string>)
    requires ReadText(s) == Some(t) && Utf8.Valid(s) && (s == "" || s[0] == '"')
    ensures s == "" + ("\"" + t.rest) && Body("", []) && Spells(t.value, []) && Utf8.Valid(t.rest)
  {
    assert s == "" + ("\"" + s[1..]);
    AfterAscii("\"", s[1..]);
  }

  lemma Extend(p: string, r: string, code: nat, more: seq<nat>, bytes: string, text: string, rest: string)
    requires Piece(p, code) && !SplitPair(p, r + ("\"" + rest)) && Body(r, more)
    requires One(bytes) == Some(code) && Spells(text, more)
    ensures Body(p + r, [code] + more) && Spells(bytes + text, [code] + more)
    ensures p + (r + ("\"" + rest)) == (p + r) + ("\"" + rest)
  {
    SplitBeforeQuote(p, r, rest);
    SpellsFirst(bytes, text, code, more);
    assert ([code] + more)[1..] == more;
    Utf8.Associative(p, r, "\"" + rest);
  }

  /** The piece at the front of text that is read. */
  lemma FoundPiece(s: string) returns (p: string, code: nat, bytes: string)
    requires ReadText(s).Some? && Utf8.Valid(s) && s[0] != '"'
    ensures 0 < |p| <= |s| && p == s[..|p|] && Piece(p, code) && !SplitPair(p, s[|p|..])
    ensures One(bytes) == Some(code) && ReadText(s) == Prepend(bytes, ReadText(s[|p|..]))
    ensures s[0] != '\\' ==> |p| == Utf8.ValidWidth(s)
  {
    if s[0] == '\\' {
      var e := ReadEscape(s).value;
      p, bytes := s[..e.1], e.0;
      code := FoundEscape(s, e);
      ReadBehind(s, e);
    } else {
      p := s[..Utf8.ValidWidth(s)];
      var rest := s[|p|..];
      assert s == p + rest;
      RuneFront(s);
      code, bytes := One(p).value, p;
      PlainFront(s, p, code);
      PlainBytes(p, code);
      ReadVerbatim(p, rest);
      PlainNoUnit(p, code, rest);
    }
  }

  lemma RuneFront(s: string)
    requires s != "" && Utf8.Valid(s)
    ensures var w := Utf8.ValidWidth(s); w > 0 && One(s[..w]).Some? && Utf8.Valid(s[w..])
  {
    var rune, rest := Utf8.FirstRune(s);
    RuneExact(rune);
  }

  lemma PlainFront(s: string, p: string, code: nat)
    requires s != "" && ReadText(s).Some? && s[0] != '"' && s[0] != '\\'
    requires p != "" && p[0] == s[0] && One(p) == Some(code)
    ensures PlainText(p, code)
  {
    RuneAscii(p);
  }

  lemma PlainNoUnit(p: string, code: nat, r: string)
    requires PlainText(p, code)
    ensures !SplitPair(p, r)
  {
    RuneAscii(p);
  }

  lemma AfterPiece(s: string, p: string)
    requires Utf8.Valid(s) && 0 < |p| <= |s| && p == s[..|p|]
    requires Utf8.Ascii(p) || |p| == Utf8.ValidWidth(s)
    ensures Utf8.Valid(s[|p|..])
  {
    assert s == p + s[|p|..];
    if Utf8.Ascii(p) { AfterAscii(p, s[|p|..]); }
  }
}
