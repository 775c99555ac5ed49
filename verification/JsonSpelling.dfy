/**
 What the encoder writes is JSON text for the value it is given, so the reader inverts it.
 */
module JsonSpelling {
  import opened CodePoints
  import opened DecimalNumbers
  import opened JsonDecoding
  import opened JsonEncoding
  import opened JsonGrammar
  import opened JsonReading
  import opened JsonStrings
  import opened JsonTokens
  import Utf8

  // ---------------------------------------------------------------- escaped text

  /** The one way the encoder writes a code point. */
  predicate ShortestPiece(s: string, code: nat) {
    if code in {0x22, 0x5C, 0x08, 0x0C, 0x0A, 0x0D, 0x09} then ShortText(s, code)
    else if code < 0x20 then s == "\\u00" + ["0123456789abcdef"[code / 16], "0123456789abcdef"[code % 16]]
    else One(s) == Some(code)
  }

  /** Text between quotes with nothing escaped that need not be. */
  ghost predicate ShortestBody(s: string, codes: seq<nat>)
    decreases codes
  {
    if codes == [] then s == ""
    else exists p, r :: s == p + r && ShortestPiece(p, codes[0]) && ShortestBody(r, codes[1..])
  }

  lemma ControlPiece(s: string, code: nat)
    requires code < 0x20 && s == "\\u00" + ["0123456789abcdef"[code / 16], "0123456789abcdef"[code % 16]]
    ensures UnitText(s, code)
  {
    assert code / 0x1000 == 0 && code / 0x100 % 0x10 == 0 && code / 0x10 % 0x10 == code / 16;
  }

  lemma ShortestIsPiece(s: string, code: nat, rest: string)
    requires ShortestPiece(s, code)
    ensures Piece(s, code) && !SplitPair(s, rest)
  {
    if code in {0x22, 0x5C, 0x08, 0x0C, 0x0A, 0x0D, 0x09} {
      ShortNoUnit(s, rest);
    } else if code < 0x20 {
      ControlPiece(s, code);
      SplitExact(s, code, rest);
    } else {
      PlainNoUnit(s, code, rest);
    }
  }

  lemma {:induction false} ShortestIsBody(s: string, codes: seq<nat>)
    requires ShortestBody(s, codes)
    ensures Body(s, codes)
    decreases codes
  {
    hide Piece, SplitPair, ShortestPiece;
    if codes != [] {
      var p, r :| s == p + r && ShortestPiece(p, codes[0]) && ShortestBody(r, codes[1..]);
      ShortestIsPiece(p, codes[0], r);
      ShortestIsBody(r, codes[1..]);
    }
  }

  lemma EscapedAscii(c: char)
    requires c as int < 0x80
    ensures ShortestPiece(EscapeByte(c), c as nat)
  {
    if c as int < 0x20 {
      HexLetter(c as nat / 16);
      HexLetter(c as nat % 16);
    }
  }

  lemma HexLetter(d: nat)
    requires d < 16
    ensures HexDigit(d) == "0123456789abcdef"[d]
  {
  }

  lemma EscapedRune(p: string, code: nat)
    requires One(p) == Some(code)
    ensures ShortestPiece(Escape(p), code)
  {
    RuneAscii(p);
    if |p| == 1 {
      EscapeOne(p);
      EscapedAscii(p[0]);
    } else {
      EscapeVerbatim(p);
    }
  }

  lemma {:induction false} EscapedBody(text: string, codes: seq<nat>)
    requires Spells(text, codes)
    ensures ShortestBody(Escape(text), codes)
    decreases codes
  {
    hide One, ShortestPiece;
    if codes != [] {
      var p, r :| text == p + r && One(p) == Some(codes[0]) && Spells(r, codes[1..]);
      EscapedRune(p, codes[0]);
      EscapedBody(r, codes[1..]);
      EscapeConcat(p, r);
    }
  }

  lemma QuoteDenotes(text: string)
    requires Utf8.Valid(text)
    ensures StringText(Quote(text), text)
  {
    hide Body, ShortestBody, Spells;
    var codes := CodesOf(text);
    EscapedBody(text, codes);
    ShortestIsBody(Escape(text), codes);
    Utf8.Associative("\"", Escape(text), "\"");
  }

  // ---------------------------------------------------------------- values

  lemma Unpadded(s: string, v: Json)
    requires ValueText(s, v)
    ensures Padded(s, v)
  {
    hide ValueText;
    assert "" + (s + "") == s && Spaces("");
  }

  lemma Bracketed(open: string, inside: string, close: string)
    ensures open + inside + close == open + (inside + close)
  {
  }

  lemma InBrackets(inside: string, vs: seq<Json>)
    requires if vs == [] then Spaces(inside) else ListText(inside, vs)
    ensures ValueText("[" + (inside + "]"), Array(vs))
  {
    hide ListText, Spaces;
  }

  lemma InBraces(inside: string, ms: seq<Member>)
    requires if ms == [] then Spaces(inside) else MembersText(inside, ms)
    ensures ValueText("{" + (inside + "}"), Object(ms))
  {
    hide MembersText, Spaces;
  }

  lemma ElementsStart(vs: seq<Json>)
    ensures ElementsFrom(vs, 0) == if vs == [] then "" else Encode(vs[0]) + ElementsFrom(vs, 1)
  {
    if vs != [] { assert "" + Encode(vs[0]) == Encode(vs[0]); }
  }

  lemma MembersStart(ms: seq<Member>)
    ensures MembersFrom(ms, 0) == if ms == [] then "" else MemberText(ms[0]) + MembersFrom(ms, 1)
  {
    if ms != [] { assert "" + MemberText(ms[0]) == MemberText(ms[0]); }
  }

  lemma ArrayDenotes(vs: seq<Json>)
    requires vs != [] ==> ListText(Encode(vs[0]) + ElementsFrom(vs, 1), vs)
    ensures ValueText(Encode(Array(vs)), Array(vs))
  {
    hide ListText, ValueText, ElementsFrom;
    ElementsStart(vs);
    Bracketed("[", ElementsFrom(vs, 0), "]");
    InBrackets(ElementsFrom(vs, 0), vs);
  }

  lemma ObjectDenotes(ms: seq<Member>)
    requires ms != [] ==> MembersText(MemberText(ms[0]) + MembersFrom(ms, 1), ms)
    ensures ValueText(Encode(Object(ms)), Object(ms))
  {
    hide MembersText, ValueText, MembersFrom;
    MembersStart(ms);
    Bracketed("{", MembersFrom(ms, 0), "}");
    InBraces(MembersFrom(ms, 0), ms);
  }

  lemma ScalarDenotes(v: Json, depth: nat, limits: Limits)
    requires Within(v, depth, limits) && !v.Array? && !v.Object?
    ensures ValueText(Encode(v), v)
  {
    hide StringText, NumberText;
    match v
    case Text(text) => QuoteDenotes(text);
    case Number(spelling) => NumberTextExact(spelling);
    case _ =>
  }

  /** The encoding of a value is one of its texts. */
  lemma {:induction false} EncodeDenotes(v: Json, depth: nat, limits: Limits)
    requires Within(v, depth, limits)
    ensures ValueText(Encode(v), v)
    decreases v, 0
  {
    hide ValueText, ListText, MembersText, Encode;
    match v
    case Array(vs) =>
      if vs != [] {
        ListDenotes(vs, 0, depth + 1, limits);
        assert vs[0..] == vs;
      }
      ArrayDenotes(vs);
    case Object(ms) =>
      if ms != [] {
        MembersDenote(ms, 0, depth + 1, limits);
        assert ms[0..] == ms;
      }
      ObjectDenotes(ms);
    case _ => ScalarDenotes(v, depth, limits);
  }

  lemma NextElement(vs: seq<Json>, i: nat)
    requires i + 1 < |vs|
    ensures ElementsFrom(vs, i + 1) == "," + (Encode(vs[i + 1]) + ElementsFrom(vs, i + 2))
  {
    Utf8.Associative(",", Encode(vs[i + 1]), ElementsFrom(vs, i + 2));
  }

  lemma NextMember(ms: seq<Member>, i: nat)
    requires i + 1 < |ms|
    ensures MembersFrom(ms, i + 1) == "," + (MemberText(ms[i + 1]) + MembersFrom(ms, i + 2))
  {
    Utf8.Associative(",", MemberText(ms[i + 1]), MembersFrom(ms, i + 2));
  }

  lemma ListStep(first: string, rest: string, vs: seq<Json>, i: nat)
    requires i + 1 < |vs| && Padded(first, vs[i]) && ListText(rest, vs[i + 1..])
    ensures ListText(first + ("," + rest), vs[i..])
  {
    hide Padded;
    assert vs[i..][0] == vs[i] && vs[i..][1..] == vs[i + 1..];
  }

  lemma MembersStep(first: string, rest: string, ms: seq<Member>, i: nat)
    requires i + 1 < |ms| && MemberOf(first, ms[i]) && MembersText(rest, ms[i + 1..])
    ensures MembersText(first + ("," + rest), ms[i..])
  {
    hide MemberOf;
    assert ms[i..][0] == ms[i] && ms[i..][1..] == ms[i + 1..];
  }

  lemma {:induction false} ListDenotes(vs: seq<Json>, i: nat, depth: nat, limits: Limits)
    requires i < |vs| && ElementsWithin(vs, depth, limits)
    ensures ListText(Encode(vs[i]) + ElementsFrom(vs, i + 1), vs[i..])
    decreases vs, |vs| - i
  {
    hide ValueText, Padded;
    ElementWithin(vs, i, depth, limits);
    EncodeDenotes(vs[i], depth, limits);
    Unpadded(Encode(vs[i]), vs[i]);
    if i + 1 < |vs| {
      ListDenotes(vs, i + 1, depth, limits);
      NextElement(vs, i);
      ListStep(Encode(vs[i]), Encode(vs[i + 1]) + ElementsFrom(vs, i + 2), vs, i);
    } else {
      assert Encode(vs[i]) + "" == Encode(vs[i]) && vs[i..] == [vs[i]];
    }
  }

  lemma MemberDenotes(m: Member)
    requires StringText(Quote(m.key), m.key) && ValueText(Encode(m.value), m.value)
    ensures MemberOf(MemberText(m), m)
  {
    hide StringText, ValueText;
    var q := Quote(m.key);
    assert "" + (q + "") == q && Spaces("");
    assert NameText(q, m.key);
    Unpadded(Encode(m.value), m.value);
    Utf8.Associative(q, ":", Encode(m.value));
  }

  lemma {:induction false} MembersDenote(ms: seq<Member>, i: nat, depth: nat, limits: Limits)
    requires i < |ms| && MembersWithin(ms, depth, limits)
    ensures MembersText(MemberText(ms[i]) + MembersFrom(ms, i + 1), ms[i..])
    decreases ms, |ms| - i
  {
    hide ValueText, StringText, MemberOf;
    MemberWithin(ms, i, depth, limits);
    EncodeDenotes(ms[i].value, depth, limits);
    QuoteDenotes(ms[i].key);
    MemberDenotes(ms[i]);
    if i + 1 < |ms| {
      MembersDenote(ms, i + 1, depth, limits);
      NextMember(ms, i);
      MembersStep(MemberText(ms[i]), MemberText(ms[i + 1]) + MembersFrom(ms, i + 2), ms, i);
    } else {
      assert MemberText(ms[i]) + "" == MemberText(ms[i]) && ms[i..] == [ms[i]];
    }
  }

  /**
   Decoding inverts encoding: reading `Encode(v)` where a value is expected, in front of nothing or
   a delimiter, yields exactly `v` and leaves exactly what followed it.
   */
  lemma ReadBack(v: Json, depth: nat, limits: Limits, c: Cursor, tail: string)
    requires Within(v, depth, limits)
    requires ValueAllowed(c.state) && c.rest == Encode(v) + tail && Delimited(tail)
    ensures Decode(c, depth, limits) == Ok(Decoded(v, Cursor(tail, AfterValue(c.state), c.stack)))
  {
    EncodeDenotes(v, depth, limits);
    ReadValue(Encode(v), v, c, depth, limits, tail);
  }
}
