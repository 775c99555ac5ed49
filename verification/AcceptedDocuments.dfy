/**
 Which inputs are accepted, and as which value, without a word about how text is read: the grammar, the
 limits, and nothing else.
 */
module AcceptedDocuments {
  import opened Canonicalization
  import opened CodePoints
  import opened DecimalNumbers
  import opened JsonAccepting
  import opened JsonDecoding
  import opened JsonEncoding
  import opened JsonGrammar
  import opened JsonReading
  import opened JsonSpelling
  import opened JsonStrings
  import opened JsonTokens
  import Utf8

  // ---------------------------------------------------------------- accepted documents

  /** Text of scalar values other than NUL. */
  ghost predicate CleanText(text: string) { exists codes: seq<nat> :: Spells(text, codes) && 0 !in codes }

  /** A document within the limits: depth, counts, distinct keys, clean text. */
  ghost predicate Permitted(v: Json, depth: nat, limits: Limits)
    decreases v
  {
    match v
    case Null => true
    case Bool(_) => true
    case Text(text) => CleanText(text)
    case Number(spelling) => NumberText(spelling)
    case Array(vs) =>
      && depth < limits.maxDepth && |vs| <= limits.maxArrayElements
      && forall x | x in vs :: Permitted(x, depth + 1, limits)
    case Object(ms) =>
      && depth < limits.maxDepth && |ms| <= limits.maxObjectMembers
      && (forall i, j | 0 <= i < j < |ms| :: ms[i].key != ms[j].key)
      && forall m | m in ms :: CleanText(m.key) && Permitted(m.value, depth + 1, limits)
  }

  /** The input is JSON text for `v`, and both are within the limits. */
  ghost predicate Accepted(raw: string, enforceInputBound: bool, limits: Limits, v: Json) {
    (enforceInputBound ==> |raw| <= limits.maxInputBytes) && DocumentText(raw, v) && Permitted(v, 0, limits)
  }

  lemma {:induction false} NulExact(text: string, codes: seq<nat>)
    requires Spells(text, codes)
    ensures '\0' in text <==> 0 in codes
    decreases codes
  {
    if codes != [] {
      var p, r :| text == p + r && One(p) == Some(codes[0]) && Spells(r, codes[1..]);
      NulExact(r, codes[1..]);
      NulRune(p, codes[0]);
      assert codes == [codes[0]] + codes[1..];
    }
  }

  lemma NulRune(p: string, code: nat)
    requires One(p) == Some(code)
    ensures '\0' in p <==> code == 0
  {
    RuneAscii(p);
    if |p| == 1 { assert p == [p[0]]; }
  }

  lemma CheckExact(text: string)
    ensures CheckText(text).None? <==> CleanText(text)
  {
    if CheckText(text).None? {
      var codes := CodesOf(text);
      NulExact(text, codes);
      assert Spells(text, codes) && 0 !in codes;
    } else if CleanText(text) {
      var codes: seq<nat> :| Spells(text, codes) && 0 !in codes;
      NulExact(text, codes);
      SpelledValid(text, codes);
    }
  }

  lemma {:induction false} PermittedExact(v: Json, depth: nat, limits: Limits)
    ensures Permitted(v, depth, limits) <==> Within(v, depth, limits)
    decreases v
  {
    hide CleanText, NumberText, CheckText, Grammatical;
    match v
    case Text(text) => CheckExact(text);
    case Number(spelling) => NumberTextExact(spelling);
    case Array(vs) =>
      forall x | x in vs ensures Permitted(x, depth + 1, limits) <==> Within(x, depth + 1, limits) {
        PermittedExact(x, depth + 1, limits);
      }
    case Object(ms) =>
      forall m | m in ms ensures CleanText(m.key) <==> CheckText(m.key).None? { CheckExact(m.key); }
      forall m | m in ms ensures Permitted(m.value, depth + 1, limits) <==> Within(m.value, depth + 1, limits) {
        PermittedExact(m.value, depth + 1, limits);
      }
    case _ =>
  }

  // ---------------------------------------------------------------- JSON text is UTF-8

  lemma Three(a: string, b: string, c: string)
    requires Utf8.Valid(a) && Utf8.Valid(b) && Utf8.Valid(c)
    ensures Utf8.Valid(a + (b + c))
  {
    Utf8.ValidConcat(b, c);
    Utf8.ValidConcat(a, b + c);
  }

  lemma AsciiMarks()
    ensures Utf8.Valid(",") && Utf8.Valid(":") && Utf8.Valid("\"")
    ensures Utf8.Valid("[") && Utf8.Valid("]") && Utf8.Valid("{") && Utf8.Valid("}")
  {
    Utf8.AsciiValid(",");
    Utf8.AsciiValid(":");
    Utf8.AsciiValid("\"");
    Utf8.AsciiValid("[");
    Utf8.AsciiValid("]");
    Utf8.AsciiValid("{");
    Utf8.AsciiValid("}");
  }

  lemma SpacesValid(a: string)
    requires Spaces(a)
    ensures Utf8.Valid(a)
  {
    Utf8.AsciiValid(a);
  }

  lemma PieceValid(p: string, code: nat)
    requires Piece(p, code)
    ensures Utf8.Valid(p)
  {
    PieceScalar(p, code);
    if p[0] == '\\' {
      PieceAscii(p, code);
      Utf8.AsciiValid(p);
    } else {
      PlainOne(p, code);
      SpellsFirst(p, "", code, []);
      assert p + "" == p;
      SpelledValid(p, [code] + []);
    }
  }

  lemma PlainOne(p: string, code: nat)
    requires Piece(p, code) && p != "" && p[0] != '\\'
    ensures One(p) == Some(code)
  {
  }

  lemma {:induction false} BodyValid(s: string, codes: seq<nat>)
    requires Body(s, codes)
    ensures Utf8.Valid(s)
    decreases codes
  {
    hide Piece, SplitPair, Utf8.Valid;
    if codes == [] {
      Utf8.AsciiValid("");
    } else {
      var p, r :| s == p + r && Piece(p, codes[0]) && Body(r, codes[1..]) && !SplitPair(p, r);
      PieceValid(p, codes[0]);
      BodyValid(r, codes[1..]);
      Utf8.ValidConcat(p, r);
    }
  }

  lemma StringValid(s: string, text: string)
    requires StringText(s, text)
    ensures Utf8.Valid(s)
  {
    hide Body, Spells, Utf8.Valid;
    var body, codes :| s == "\"" + (body + "\"") && Body(body, codes) && Spells(text, codes);
    BodyValid(body, codes);
    AsciiMarks();
    Three("\"", body, "\"");
  }

  lemma {:induction false} PaddedValid(s: string, v: Json)
    requires Padded(s, v)
    ensures Utf8.Valid(s)
    decreases v, 1
  {
    hide Utf8.Valid, ValueText, Spaces;
    var a, t, b :| s == a + (t + b) && Spaces(a) && Spaces(b) && ValueText(t, v);
    TextValid(t, v);
    SpacesValid(a);
    SpacesValid(b);
    Three(a, t, b);
  }

  lemma {:induction false} TextValid(s: string, v: Json)
    requires ValueText(s, v)
    ensures Utf8.Valid(s)
    decreases v, 0
  {
    hide Utf8.Valid, Spaces, ListText, MembersText, StringText, NumberText;
    AsciiMarks();
    match v
    case Null => Utf8.AsciiValid("null");
    case Bool(_) => Utf8.AsciiValid(s);
    case Text(text) => StringValid(s, text);
    case Number(_) =>
      NumberAscii(s);
      Utf8.AsciiValid(s);
    case Array(vs) =>
      var inside :| s == "[" + (inside + "]") && if vs == [] then Spaces(inside) else ListText(inside, vs);
      if vs == [] { SpacesValid(inside); } else { ListValid(inside, vs); }
      Three("[", inside, "]");
    case Object(ms) =>
      var inside :| s == "{" + (inside + "}") && if ms == [] then Spaces(inside) else MembersText(inside, ms);
      if ms == [] { SpacesValid(inside); } else { MemberListValid(inside, ms); }
      Three("{", inside, "}");
  }

  lemma {:induction false} ListValid(s: string, vs: seq<Json>)
    requires vs != [] && ListText(s, vs)
    ensures Utf8.Valid(s)
    decreases vs, 2
  {
    hide Utf8.Valid, Padded;
    if |vs| == 1 {
      PaddedValid(s, vs[0]);
    } else {
      var first, rest :| s == first + ("," + rest) && Padded(first, vs[0]) && ListText(rest, vs[1..]);
      PaddedValid(first, vs[0]);
      ListValid(rest, vs[1..]);
      AsciiMarks();
      Three(first, ",", rest);
    }
  }

  lemma NameValid(s: string, key: string)
    requires NameText(s, key)
    ensures Utf8.Valid(s)
  {
    hide Utf8.Valid, StringText, Spaces;
    var a, t, b :| s == a + (t + b) && Spaces(a) && Spaces(b) && StringText(t, key);
    StringValid(t, key);
    SpacesValid(a);
    SpacesValid(b);
    Three(a, t, b);
  }

  lemma {:induction false} OneMemberValid(s: string, m: Member)
    requires MemberOf(s, m)
    ensures Utf8.Valid(s)
    decreases m, 2
  {
    hide Utf8.Valid, NameText, Padded;
    var name, value :| s == name + (":" + value) && NameText(name, m.key) && Padded(value, m.value);
    NameValid(name, m.key);
    PaddedValid(value, m.value);
    AsciiMarks();
    Three(name, ":", value);
  }

  lemma {:induction false} MemberListValid(s: string, ms: seq<Member>)
    requires ms != [] && MembersText(s, ms)
    ensures Utf8.Valid(s)
    decreases ms, 2
  {
    hide Utf8.Valid, MemberOf;
    if |ms| == 1 {
      OneMemberValid(s, ms[0]);
    } else {
      var first, rest :| s == first + ("," + rest) && MemberOf(first, ms[0]) && MembersText(rest, ms[1..]);
      OneMemberValid(first, ms[0]);
      MemberListValid(rest, ms[1..]);
      AsciiMarks();
      Three(first, ",", rest);
    }
  }

  // ---------------------------------------------------------------- the reader accepts exactly these

  lemma OnlySpacesLeft(c: Cursor)
    requires Utf8.Valid(c.rest) && Next(c).EndOfInput? && !Waits(c.state)
    ensures Spaces(c.rest)
  {
    var a := SkipFound(c.rest);
    EndReached(c);
    assert a + "" == a;
  }

  lemma NoEnd(d: Cursor)
    requires Next(d).EndOfInput? && (d.rest == "" || !IsSpace(d.rest[0])) && !Waits(d.state)
    ensures d.rest == ""
  {
    hide SkipSpace, ReadScalar, ReadText, ValueAllowed, AfterValue;
    SkipNothing(d.rest);
  }

  lemma EndReached(c: Cursor)
    requires Next(c).EndOfInput? && !Waits(c.state)
    ensures SkipSpace(c.rest) == ""
  {
    NextSkipped(c);
    var d := c.(rest := SkipSpace(c.rest));
    NoEnd(d);
  }

  lemma {:induction false} SpacesEnd(b: string, state: State, stack: seq<State>)
    requires Spaces(b)
    ensures Next(Cursor(b, state, stack)).EndOfInput?
  {
    SkipSpaces(b, "");
    assert b + "" == b;
  }

  lemma DocumentRead(raw: string, v: Json, limits: Limits)
    requires DocumentText(raw, v) && Within(v, 0, limits)
    ensures Decode(Start(raw), 0, limits).Ok?
    ensures var d := Decode(Start(raw), 0, limits).value; d.doc == v && Next(d.next).EndOfInput?
  {
    hide Padded, Decode, Next;
    assert raw + "" == raw;
    var b := ReadPadded(raw, v, Start(raw), 0, limits, "");
    assert b + "" == b;
    SpacesEnd(b, TopValue, []);
  }

  lemma DocumentFound(raw: string, limits: Limits, d: Decoded)
    requires Utf8.Valid(raw) && Decode(Start(raw), 0, limits) == Ok(d) && Next(d.next).EndOfInput?
    ensures DocumentText(raw, d.doc)
  {
    hide ValueText, Decode, Next, Utf8.Valid, AtToken;
    DecodedNext(Start(raw), 0, limits);
    var a, gap, e := Arrive(Start(raw));
    DecodeByNext(Start(raw), e, 0, limits);
    var t := ValueFound(e, 0, limits, d);
    OnlySpacesLeft(d.next);
    assert raw == gap + (t + d.next.rest);
  }

  /** What is read, for every input and every value: exactly the documents the grammar and the limits allow. */
  lemma AcceptedExactly(raw: string, enforce: bool, limits: Limits, v: Json)
    ensures ReadDocument(raw, enforce, limits) == Ok(v) <==> Accepted(raw, enforce, limits, v)
  {
    hide Padded, Decode, Next, Permitted, Within, Utf8.Valid;
    PermittedExact(v, 0, limits);
    if ReadDocument(raw, enforce, limits) == Ok(v) {
      DocumentWithin(raw, enforce, limits);
      DocumentFound(raw, limits, Decode(Start(raw), 0, limits).value);
    }
    if Accepted(raw, enforce, limits, v) {
      PaddedValid(raw, v);
      DocumentRead(raw, v, limits);
    }
  }
}
