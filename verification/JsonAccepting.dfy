/**
 The document reader meets the grammar, the other way: what it accepts is the text of the value it
 returns, and nothing but white space and punctuation is passed over.
 */
module JsonAccepting {
  import opened DecimalNumbers
  import opened JsonDecoding
  import opened JsonEncoding
  import opened JsonGrammar
  import opened JsonReading
  import opened JsonStrings
  import opened JsonTokens
  import Utf8

  // ---------------------------------------------------------------- white space and separators

  lemma DropSpace(s: string)
    requires s != "" && IsSpace(s[0]) && Utf8.Valid(s)
    ensures Utf8.Valid(s[1..]) && SkipSpace(s) == SkipSpace(s[1..]) && Spaces(s[..1]) && s == s[..1] + s[1..]
  {
    assert s[..1] + s[1..] == s;
    AfterAscii(s[..1], s[1..]);
  }

  lemma {:induction false} SkipFound(s: string) returns (a: string)
    requires Utf8.Valid(s)
    ensures Spaces(a) && s == a + SkipSpace(s) && Utf8.Valid(SkipSpace(s))
  {
    if s != "" && IsSpace(s[0]) {
      DropSpace(s);
      var more := SkipFound(s[1..]);
      a := s[..1] + more;
      Utf8.Associative(s[..1], more, SkipSpace(s[1..]));
    } else {
      a := "";
      assert s == "" + s;
    }
  }

  /** The separator a state waits for. */
  predicate Waits(s: State) { s.ArrayComma? || s.ObjectComma? || s.ObjectColon? }

  function Mark(s: State): string
    requires Waits(s)
  {
    if s.ObjectColon? then ":" else ","
  }

  function Past(s: State): State
    requires Waits(s)
  {
    if s.ArrayComma? then ArrayValue else if s.ObjectComma? then ObjectKey else ObjectValue
  }

  /** At a token: no white space and no separator in front. */
  predicate AtToken(e: Cursor) { e.rest != "" && !IsSpace(e.rest[0]) && e.rest[0] !in ",:" }

  /** From `c` the reader passes the separator it waits for, if any, and white space, and stands at `e`. */
  ghost predicate Leads(c: Cursor, a: string, gap: string, e: Cursor) {
    && Next(c) == Next(e) && e.stack == c.stack && Spaces(gap) && AtToken(e) && Utf8.Valid(e.rest)
    && if Waits(c.state) then Spaces(a) && c.rest == a + (Mark(c.state) + (gap + e.rest)) && e.state == Past(c.state)
       else c.rest == gap + e.rest && e.state == c.state
  }

  lemma NextSkipped(c: Cursor)
    ensures Next(c) == Next(c.(rest := SkipSpace(c.rest)))
  {
    hide SkipSpace, ReadScalar, ReadText, ValueAllowed, AfterValue;
    SkipNothing(SkipSpace(c.rest));
  }

  lemma AtSeparator(c: Cursor)
    requires c.rest != "" && !IsSpace(c.rest[0]) && c.rest[0] in ",:" && Next(c).Got?
    ensures Waits(c.state) && c.rest == Mark(c.state) + c.rest[1..]
    ensures Next(c) == Next(Cursor(c.rest[1..], Past(c.state), c.stack))
  {
    hide SkipSpace, ReadScalar, ReadText;
    SkipNothing(c.rest);
  }

  lemma NotWaiting(c: Cursor)
    requires AtToken(c) && Waits(c.state) && Next(c).Got?
    ensures c.rest[0] in "]}" && !c.state.ObjectColon?
  {
    hide SkipSpace, ReadScalar, ReadText;
    SkipNothing(c.rest);
  }

  lemma NeverEmpty(c: Cursor)
    requires SkipSpace(c.rest) == ""
    ensures !Next(c).Got?
  {
    hide SkipSpace, ReadScalar, ReadText;
  }

  lemma Arrive(c: Cursor) returns (a: string, gap: string, e: Cursor)
    requires Next(c).Got? && Utf8.Valid(c.rest) && (c.state.ArrayComma? || c.state.ObjectComma? ==> More(c))
    ensures Leads(c, a, gap, e)
  {
    hide Next;
    a := SkipFound(c.rest);
    var d := c.(rest := SkipSpace(c.rest));
    NextSkipped(c);
    if d.rest == "" { NeverEmpty(c); }
    if d.rest[0] in ",:" {
      AtSeparator(d);
      AfterAscii(d.rest[..1], d.rest[1..]);
      assert d.rest[..1] + d.rest[1..] == d.rest;
      var f := Cursor(d.rest[1..], Past(c.state), c.stack);
      gap := SkipFound(f.rest);
      e := f.(rest := SkipSpace(f.rest));
      NextSkipped(f);
      if e.rest == "" { NeverEmpty(f); }
      if e.rest[0] in ",:" { AtSeparator(e); }
    } else {
      gap, e := a, d;
      if Waits(c.state) { NotWaiting(d); }
    }
  }

  // ---------------------------------------------------------------- one token

  lemma CloseNotValue(mark: char, next: Cursor, c: Cursor, depth: nat, limits: Limits)
    requires Next(c) == Got(Delim(mark), next) && Decode(c, depth, limits).Ok?
    ensures mark == '{' || mark == '['
  {
  }

  lemma OpenFound(e: Cursor, mark: char, next: Cursor)
    requires AtToken(e) && Next(e) == Got(Delim(mark), next) && (mark == '{' || mark == '[') && Utf8.Valid(e.rest)
    ensures e.rest == [mark] + next.rest && ValueAllowed(e.state) && next.stack == e.stack + [e.state]
    ensures next.state == (if mark == '[' then ArrayStart else ObjectStart) && Utf8.Valid(next.rest)
  {
    hide SkipSpace, ReadText;
    SkipNothing(e.rest);
    assert e.rest[..1] + e.rest[1..] == e.rest;
    AfterAscii(e.rest[..1], e.rest[1..]);
  }

  lemma ScalarFound(e: Cursor, token: Token, next: Cursor)
    requires AtToken(e) && Next(e) == Got(token, next) && !token.Delim?
    requires !(e.state.ObjectStart? || e.state.ObjectKey?) || e.rest[0] != '"'
    ensures ValueAllowed(e.state) && ReadScalar(e.rest) == Some(Taken(token, next.rest))
    ensures next == Cursor(next.rest, AfterValue(e.state), e.stack)
  {
    hide SkipSpace, ReadScalar, ReadText;
    SkipNothing(e.rest);
  }

  lemma WordFound(s: string, word: string)
    requires Utf8.Valid(s) && StartsWith(s, word) && Utf8.Ascii(word)
    ensures s == word + s[|word|..] && Utf8.Valid(s[|word|..])
  {
    assert s == word + s[|word|..];
    AfterAscii(word, s[|word|..]);
  }

  lemma WordRead(s: string, rest: string, token: Token, word: string)
    requires s != "" && ReadScalar(s) == Some(Taken(token, rest)) && (token.NullToken? || token.BoolToken?)
    requires word == if token.NullToken? then "null" else if token.flag then "true" else "false"
    ensures StartsWith(s, word) && rest == s[|word|..]
  {
  }

  lemma TextRead(s: string, rest: string, text: string)
    requires s != "" && ReadScalar(s) == Some(Taken(TextToken(text), rest))
    ensures s[0] == '"' && ReadText(s[1..]) == Some(Taken(text, rest))
  {
  }

  lemma NumberRead(s: string, rest: string, spelling: string)
    requires s != "" && ReadScalar(s) == Some(Taken(NumberToken(spelling), rest))
    ensures |rest| < |s| && spelling == s[..|s| - |rest|] && AfterNumber(s) == Some(rest)
  {
  }

  lemma StringFound(s: string, text: string, rest: string) returns (t: string)
    requires s != "" && s[0] == '"' && Utf8.Valid(s) && ReadText(s[1..]) == Some(Taken(text, rest))
    ensures s == t + rest && StringText(t, text) && Utf8.Valid(rest)
  {
    hide ReadText, Body, CodePoints.Spells;
    assert s == "\"" + s[1..];
    AfterAscii("\"", s[1..]);
    var body, codes := FoundBody(s[1..], Taken(text, rest));
    t := "\"" + (body + "\"");
    Right("\"", body, "\"", rest);
  }

  lemma AsciiConcat(a: string, b: string)
    requires Utf8.Ascii(a) && Utf8.Ascii(b)
    ensures Utf8.Ascii(a + b)
  {
  }

  lemma DigitsAscii(digits: string)
    requires AllDigits(digits)
    ensures Utf8.Ascii(digits)
  {
  }

  lemma NumeralAscii(n: Numeral)
    requires WellFormed(n)
    ensures Utf8.Ascii(Spell(n))
  {
    DigitsAscii(n.whole);
    DigitsAscii(n.fraction);
    AsciiConcat(".", n.fraction);
    if n.exponent.Exponent? {
      DigitsAscii(n.exponent.digits);
      AsciiConcat([n.exponent.letter], n.exponent.sign);
      AsciiConcat([n.exponent.letter] + n.exponent.sign, n.exponent.digits);
    }
    AsciiConcat(n.whole, PointAndFraction(n));
    AsciiConcat(n.whole + PointAndFraction(n), SpellExponent(n.exponent));
    AsciiConcat("-", SpellUnsigned(n));
  }

  lemma NumberAscii(spelling: string)
    requires NumberText(spelling)
    ensures Utf8.Ascii(spelling)
  {
    var n :| WellFormed(n) && Spell(n) == spelling;
    NumeralAscii(n);
  }

  lemma WholeSuffix(s: string)
    requires TakeWhole(s).Some?
    ensures var r := TakeWhole(s).value; |r| <= |s| && r == s[|s| - |r|..]
  {
  }

  lemma FractionSuffix(s: string)
    requires TakeFraction(s).Some?
    ensures var r := TakeFraction(s).value; |r| <= |s| && r == s[|s| - |r|..]
  {
  }

  lemma ExponentSuffix(s: string)
    requires TakeExponent(s).Some?
    ensures var r := TakeExponent(s).value; |r| <= |s| && r == s[|s| - |r|..]
  {
  }

  lemma NumberSuffix(s: string, rest: string)
    requires AfterNumber(s) == Some(rest)
    ensures |rest| <= |s| && rest == s[|s| - |rest|..]
  {
    hide TakeWhole, TakeFraction, TakeExponent;
    var unsigned := if s != "" && s[0] == '-' then s[1..] else s;
    WholeSuffix(unsigned);
    var r := TakeWhole(unsigned).value;
    FractionSuffix(r);
    ExponentSuffix(TakeFraction(r).value);
  }

  /** A scalar in front of which the reader stands is the text of the value it returns. */
  lemma ScalarValueFound(e: Cursor, token: Token, next: Cursor, v: Json, depth: nat, limits: Limits)
    returns (t: string)
    requires AtToken(e) && Utf8.Valid(e.rest) && Next(e) == Got(token, next) && !token.Delim?
    requires !(e.state.ObjectStart? || e.state.ObjectKey?)
    requires Decode(e, depth, limits) == Ok(Decoded(v, next))
    ensures ValueText(t, v) && e.rest == t + next.rest && Utf8.Valid(next.rest) && ValueAllowed(e.state)
    ensures next == Cursor(next.rest, AfterValue(e.state), e.stack)
  {
    hide ReadScalar, ReadText, StringText, NumberText, Next, Decode, ValueAllowed, AfterValue, ValueText, Utf8.Valid;
    ScalarFound(e, token, next);
    ScalarDecoded(e, token, next, v, depth, limits);
    t := ScalarTextFound(e.rest, v, next.rest);
  }

  lemma ScalarTextFound(s: string, v: Json, rest: string) returns (t: string)
    requires !v.Array? && !v.Object? && (v.Number? ==> Grammatical(v.spelling))
    requires s != "" && Utf8.Valid(s) && ReadScalar(s) == Some(Taken(ScalarToken(v), rest))
    ensures ValueText(t, v) && s == t + rest && Utf8.Valid(rest)
  {
    hide ReadScalar, ReadText, StringText, NumberText, AfterNumber, Grammatical, StartsWith, Utf8.Valid;
    match v
    case Null =>
      t := "null";
      WordRead(s, rest, NullToken, t);
      WordFound(s, t);
    case Bool(flag) =>
      t := if flag then "true" else "false";
      WordRead(s, rest, BoolToken(flag), t);
      WordFound(s, t);
    case Text(text) =>
      TextRead(s, rest, text);
      t := StringFound(s, text, rest);
    case Number(spelling) =>
      t := spelling;
      NumberRead(s, rest, spelling);
      NumberFound(s, spelling, rest);
  }

  lemma NumberFound(s: string, spelling: string, rest: string)
    requires |rest| < |s| && spelling == s[..|s| - |rest|] && AfterNumber(s) == Some(rest)
    requires Grammatical(spelling) && Utf8.Valid(s)
    ensures s == spelling + rest && Utf8.Valid(rest) && NumberText(spelling)
  {
    hide AfterNumber, Utf8.Valid, Grammatical, NumberText;
    NumberSuffix(s, rest);
    assert s == s[..|s| - |rest|] + s[|s| - |rest|..];
    NumberTextExact(spelling);
    NumberAscii(spelling);
    AfterAscii(spelling, rest);
  }

  lemma ScalarDecoded(e: Cursor, token: Token, next: Cursor, v: Json, depth: nat, limits: Limits)
    requires Next(e) == Got(token, next) && !token.Delim? && Decode(e, depth, limits) == Ok(Decoded(v, next))
    ensures !v.Array? && !v.Object? && token == ScalarToken(v) && (v.Number? ==> Grammatical(v.spelling))
  {
  }

  // ---------------------------------------------------------------- arrays and objects

  /** What is left of an array from cursor `c` on: its closing bracket, or more elements. */
  ghost predicate ListAhead(c: Cursor, b: string, s: string, vs: seq<Json>, rest: string) {
    if vs == [] then Spaces(s) && c.rest == s + ("]" + rest)
    else ListText(s, vs) && c.rest == if c.state.ArrayStart? then s + ("]" + rest) else b + ("," + (s + ("]" + rest)))
  }

  ghost predicate MembersAhead(c: Cursor, b: string, s: string, ms: seq<Member>, rest: string) {
    if ms == [] then Spaces(s) && c.rest == s + ("}" + rest)
    else
      && MembersText(s, ms)
      && c.rest == if c.state.ObjectStart? then s + ("}" + rest) else b + ("," + (s + ("}" + rest)))
  }

  /** What reading a value from `e` leaves behind it. */
  ghost predicate Behind(e: Cursor, next: Cursor) {
    next == Cursor(next.rest, AfterValue(e.state), e.stack) && Utf8.Valid(next.rest)
  }

  lemma OpenDecoded(e: Cursor, mark: char, next: Cursor, depth: nat, limits: Limits)
    requires Next(e) == Got(Delim(mark), next) && Decode(e, depth, limits).Ok? && (mark == '{' || mark == '[')
    ensures Decode(e, depth, limits)
         == if mark == '[' then DecodeElements(next, depth + 1, limits, [])
            else DecodeMembers(next, depth + 1, limits, [])
  {
  }

  lemma ArrayText(e: Cursor, inner: Cursor, b: string, s: string, vs: seq<Json>, rest: string) returns (t: string)
    requires e.rest == "[" + inner.rest && inner.state.ArrayStart? && ListAhead(inner, b, s, vs, rest)
    ensures ValueText(t, Array(vs)) && e.rest == t + rest
  {
    hide ListText, Spaces;
    t := "[" + (s + "]");
    Right("[", s, "]", rest);
  }

  lemma ObjectText(e: Cursor, inner: Cursor, b: string, s: string, ms: seq<Member>, rest: string) returns (t: string)
    requires e.rest == "{" + inner.rest && inner.state.ObjectStart? && MembersAhead(inner, b, s, ms, rest)
    ensures ValueText(t, Object(ms)) && e.rest == t + rest
  {
    hide MembersText, Spaces;
    t := "{" + (s + "}");
    Right("{", s, "}", rest);
  }

  lemma {:induction false} ValueFound(e: Cursor, depth: nat, limits: Limits, d: Decoded) returns (t: string)
    requires Decode(e, depth, limits) == Ok(d) && AtToken(e) && Utf8.Valid(e.rest)
    requires !(e.state.ObjectStart? || e.state.ObjectKey?)
    ensures ValueText(t, d.doc) && e.rest == t + d.next.rest && Behind(e, d.next) && ValueAllowed(e.state)
    decreases |e.rest|, 0
  {
    hide DecodeElements, DecodeMembers, ValueText, ListAhead, MembersAhead, Utf8.Valid, AtToken;
    var scan := Next(e);
    if scan.token.Delim? {
      CloseNotValue(scan.token.mark, scan.next, e, depth, limits);
      OpenFound(e, scan.token.mark, scan.next);
      OpenDecoded(e, scan.token.mark, scan.next, depth, limits);
      assert scan.next.stack[..|e.stack|] == e.stack;
      if scan.token.mark == '[' {
        var b, s, vs := ListFound(scan.next, depth + 1, limits, [], d);
        assert [] + vs == vs;
        t := ArrayText(e, scan.next, b, s, vs, d.next.rest);
      } else {
        var b, s, ms := RecordFound(scan.next, depth + 1, limits, [], d);
        assert [] + ms == ms;
        t := ObjectText(e, scan.next, b, s, ms, d.next.rest);
      }
    } else {
      ScalarNext(e, scan.token, scan.next, depth, limits, d);
      t := ScalarValueFound(e, scan.token, scan.next, d.doc, depth, limits);
    }
  }

  lemma ScalarNext(e: Cursor, token: Token, next: Cursor, depth: nat, limits: Limits, d: Decoded)
    requires Next(e) == Got(token, next) && !token.Delim? && Decode(e, depth, limits) == Ok(d)
    ensures d.next == next
  {
  }

  /** A closing bracket in sight: the list ends. */
  lemma CloseFound(c: Cursor, close: char, next: Cursor) returns (s: string)
    requires !More(c) && Next(c) == Got(Delim(close), next) && Utf8.Valid(c.rest) && c.stack != []
    ensures Spaces(s) && c.rest == s + ([close] + next.rest)
    ensures Behind(Cursor("", c.stack[|c.stack| - 1], c.stack[..|c.stack| - 1]), next)
  {
    s := SkipFound(c.rest);
    var rest := SkipSpace(c.rest);
    CloseNext(c, close, next);
    assert rest == [close] + rest[1..];
    AfterAscii([close], rest[1..]);
  }

  lemma CloseNext(c: Cursor, close: char, next: Cursor)
    requires !More(c) && Next(c) == Got(Delim(close), next) && c.stack != []
    ensures var rest := SkipSpace(c.rest);
            && rest != "" && rest[0] == close && (close == ']' || close == '}')
            && next == Cursor(rest[1..], AfterValue(c.stack[|c.stack| - 1]), c.stack[..|c.stack| - 1])
  {
    hide SkipSpace, ReadText;
  }

  lemma NoSpaces()
    ensures Spaces("")
  {
  }

  lemma ListCons(first: string, v: Json, rest: string, vs: seq<Json>)
    requires Padded(first, v) && vs != [] && ListText(rest, vs)
    ensures ListText(first + ("," + rest), [v] + vs)
  {
    hide Padded;
    var all := [v] + vs;
    assert all[0] == v && all[1..] == vs && |all| > 1;
    assert Padded(first, all[0]) && ListText(rest, all[1..]);
  }

  lemma MembersCons(first: string, m: Member, rest: string, ms: seq<Member>)
    requires MemberOf(first, m) && ms != [] && MembersText(rest, ms)
    ensures MembersText(first + ("," + rest), [m] + ms)
  {
    hide MemberOf;
    var all := [m] + ms;
    assert all[0] == m && all[1..] == ms && |all| > 1;
    assert MemberOf(first, all[0]) && MembersText(rest, all[1..]);
  }

  /** An element behind its separator, and what is left of the array behind it. */
  lemma JoinElement(c: Cursor, a: string, gap: string, e: Cursor, t: string, v: Json, n: Cursor,
                    b: string, s: string, vs: seq<Json>, rest: string)
    returns (before: string, whole: string)
    requires Leads(c, a, gap, e) && (c.state.ArrayStart? || c.state.ArrayComma?) && ValueText(t, v)
    requires e.rest == t + n.rest && n.state.ArrayComma? && Spaces(b) && ListAhead(n, b, s, vs, rest)
    ensures ListAhead(c, before, whole, [v] + vs, rest) && Spaces(before)
  {
    hide ValueText, Spaces, Next, Utf8.Valid, AtToken;
    NoSpaces();
    before := if c.state.ArrayComma? then a else "";
    if vs == [] {
      whole := gap + (t + s);
      Right(gap, t, s, "]" + rest);
      assert Padded(whole, v);
      assert [v] + vs == [v];
    } else {
      var first := gap + (t + b);
      whole := first + ("," + s);
      assert Padded(first, v);
      Right(first, ",", s, "]" + rest);
      Right(gap, t, b, "," + (s + ("]" + rest)));
      ListCons(first, v, s, vs);
      assert gap + e.rest == whole + ("]" + rest);
    }
  }

  lemma MoreElements(c: Cursor, depth: nat, limits: Limits, done: seq<Json>, d: Decoded)
    requires DecodeElements(c, depth, limits, done) == Ok(d)
    ensures More(c) ==> Next(c).Got? && Decode(c, depth, limits).Ok?
                        && var v := Decode(c, depth, limits).value;
                           DecodeElements(v.next, depth, limits, done + [v.doc]) == Ok(d)
    ensures !More(c) ==> d.doc == Array(done) && Next(c) == Got(Delim(']'), d.next)
  {
  }

  lemma NoElements(c: Cursor, b: string, s: string, rest: string)
    requires Spaces(s) && c.rest == s + ("]" + rest)
    ensures ListAhead(c, b, s, [], rest)
  {
  }

  lemma {:induction false} ListFound(c: Cursor, depth: nat, limits: Limits, done: seq<Json>, d: Decoded)
    returns (b: string, s: string, vs: seq<Json>)
    requires DecodeElements(c, depth, limits, done) == Ok(d) && Utf8.Valid(c.rest)
    requires (c.state.ArrayStart? || c.state.ArrayComma?) && c.stack != []
    ensures d.doc == Array(done + vs) && Spaces(b) && ListAhead(c, b, s, vs, d.next.rest)
    ensures Behind(Cursor("", c.stack[|c.stack| - 1], c.stack[..|c.stack| - 1]), d.next)
    decreases |c.rest|, 1
  {
    hide DecodeElements, Decode, Next, ValueText, ListAhead, Spaces, Utf8.Valid, More, AtToken;
    MoreElements(c, depth, limits, done, d);
    if More(c) {
      var v := Decode(c, depth, limits).value;
      var a, gap, e := Arrive(c);
      DecodeByNext(c, e, depth, limits);
      var t := ValueFound(e, depth, limits, v);
      var b', s', more := ListFound(v.next, depth, limits, done + [v.doc], d);
      b, s := JoinElement(c, a, gap, e, t, v.doc, v.next, b', s', more, d.next.rest);
      vs := [v.doc] + more;
      assert (done + [v.doc]) + more == done + vs;
    } else {
      s := CloseFound(c, ']', d.next);
      b, vs := "", [];
      NoSpaces();
      NoElements(c, b, s, d.next.rest);
      assert done + vs == done;
    }
  }

  lemma KeyAt(e: Cursor, key: string, n: Cursor)
    requires AtToken(e) && Next(e) == Got(TextToken(key), n) && (e.state.ObjectStart? || e.state.ObjectKey?)
    ensures e.rest[0] == '"' && ReadText(e.rest[1..]) == Some(Taken(key, n.rest))
    ensures n == Cursor(n.rest, ObjectColon, e.stack)
  {
    hide SkipSpace, ReadScalar, ReadText;
    SkipNothing(e.rest);
  }

  /** A key, its colon and its value, from where the reader stands. */
  lemma {:induction false} MemberFound(e: Cursor, key: string, n: Cursor, depth: nat, limits: Limits, v: Decoded)
    returns (m: string)
    requires AtToken(e) && Next(e) == Got(TextToken(key), n) && (e.state.ObjectStart? || e.state.ObjectKey?)
    requires Decode(n, depth, limits) == Ok(v) && Utf8.Valid(e.rest)
    ensures MemberOf(m, Member(key, v.doc)) && e.rest == m + v.next.rest && Utf8.Valid(v.next.rest)
    ensures v.next == Cursor(v.next.rest, ObjectComma, e.stack)
    decreases |e.rest|, 0
  {
    hide ValueText, StringText, Utf8.Valid, ReadText, More;
    KeyAt(e, key, n);
    var q := StringFound(e.rest, key, n.rest);
    DecodedNext(n, depth, limits);
    var a, gap, f := Arrive(n);
    DecodeByNext(n, f, depth, limits);
    NextShrinks(e, n, f, a, gap);
    var t := ValueFound(f, depth, limits, v);
    m := MemberJoined(q, key, a, gap, t, v.doc, v.next.rest);
  }

  lemma DecodedNext(n: Cursor, depth: nat, limits: Limits)
    requires Decode(n, depth, limits).Ok?
    ensures Next(n).Got?
  {
  }

  lemma NextShrinks(e: Cursor, n: Cursor, f: Cursor, a: string, gap: string)
    requires Next(e).Got? && Next(e).next == n && Leads(n, a, gap, f) && n.state.ObjectColon?
    ensures |f.rest| < |e.rest|
  {
  }

  lemma MemberJoined(q: string, key: string, a: string, gap: string, t: string, v: Json, rest: string)
    returns (m: string)
    requires StringText(q, key) && Spaces(a) && Spaces(gap) && ValueText(t, v)
    ensures MemberOf(m, Member(key, v)) && q + (a + (":" + (gap + (t + rest)))) == m + rest
  {
    hide ValueText, StringText, Spaces;
    assert "" + (q + a) == q + a && Spaces("") && Spaces("") by { NoSpaces(); }
    var name, value := q + a, gap + t;
    m := name + (":" + value);
    Trailing(gap, t);
    assert NameText(name, key);
    assert Padded(value, v);
    Regrouped(q, a, gap, t, rest);
  }

  lemma Trailing(gap: string, t: string)
    ensures gap + (t + "") == gap + t
  {
  }

  lemma Regrouped(q: string, a: string, gap: string, t: string, rest: string)
    ensures q + (a + (":" + (gap + (t + rest)))) == ((q + a) + (":" + (gap + t))) + rest
  {
  }

  /** A member behind its separator, and what is left of the object behind it. */
  lemma JoinMember(c: Cursor, a: string, gap: string, e: Cursor, t: string, m: Member, n: Cursor,
                   b: string, s: string, ms: seq<Member>, rest: string)
    returns (before: string, whole: string)
    requires Leads(c, a, gap, e) && (c.state.ObjectStart? || c.state.ObjectComma?) && MemberOf(t, m)
    requires e.rest == t + n.rest && n.state.ObjectComma? && Spaces(b) && MembersAhead(n, b, s, ms, rest)
    ensures MembersAhead(c, before, whole, [m] + ms, rest) && Spaces(before)
  {
    hide MemberOf, Spaces, Next, Utf8.Valid, AtToken;
    NoSpaces();
    before := if c.state.ObjectComma? then a else "";
    if ms == [] {
      whole := gap + (t + s);
      Right(gap, t, s, "}" + rest);
      SpacedMember(gap, t, s, m);
      assert [m] + ms == [m];
    } else {
      var first := gap + (t + b);
      whole := first + ("," + s);
      SpacedMember(gap, t, b, m);
      Right(first, ",", s, "}" + rest);
      Right(gap, t, b, "," + (s + ("}" + rest)));
      MembersCons(first, m, s, ms);
      assert gap + e.rest == whole + ("}" + rest);
    }
  }

  /** White space around a member belongs to its key and its value. */
  lemma SpacedMember(gap: string, t: string, b: string, m: Member)
    requires Spaces(gap) && Spaces(b) && MemberOf(t, m)
    ensures MemberOf(gap + (t + b), m)
  {
    hide ValueText, StringText, Spaces;
    var name, value :| t == name + (":" + value) && NameText(name, m.key) && Padded(value, m.value);
    var p, q, r :| name == p + (q + r) && Spaces(p) && Spaces(r) && StringText(q, m.key);
    var u, w, x :| value == u + (w + x) && Spaces(u) && Spaces(x) && ValueText(w, m.value);
    SpacesConcat(gap, p);
    SpacesConcat(x, b);
    var longName, longValue := (gap + p) + (q + r), u + (w + (x + b));
    assert NameText(longName, m.key);
    assert Padded(longValue, m.value);
    assert gap + (t + b) == longName + (":" + longValue) by {
      Utf8.Associative(gap, p, q + r);
      Right(u, w, x, b);
      Right(name, ":", value, b);
      Utf8.Associative(gap, name, ":" + longValue);
    }
  }

  lemma SpacesConcat(a: string, b: string)
    requires Spaces(a) && Spaces(b)
    ensures Spaces(a + b)
  {
  }

  lemma MoreMembers(c: Cursor, depth: nat, limits: Limits, done: seq<Member>, d: Decoded)
    requires DecodeMembers(c, depth, limits, done) == Ok(d)
    ensures More(c) ==> Next(c).Got? && Next(c).token.TextToken? && Decode(Next(c).next, depth, limits).Ok?
                        && var v := Decode(Next(c).next, depth, limits).value;
                           DecodeMembers(v.next, depth, limits, done + [Member(Next(c).token.text, v.doc)]) == Ok(d)
    ensures !More(c) ==> d.doc == Object(done) && Next(c) == Got(Delim('}'), d.next)
  {
  }

  lemma NoMembers(c: Cursor, b: string, s: string, rest: string)
    requires Spaces(s) && c.rest == s + ("}" + rest)
    ensures MembersAhead(c, b, s, [], rest)
  {
  }

  lemma {:induction false} RecordFound(c: Cursor, depth: nat, limits: Limits, done: seq<Member>, d: Decoded)
    returns (b: string, s: string, ms: seq<Member>)
    requires DecodeMembers(c, depth, limits, done) == Ok(d) && Utf8.Valid(c.rest)
    requires (c.state.ObjectStart? || c.state.ObjectComma?) && c.stack != []
    ensures d.doc == Object(done + ms) && Spaces(b) && MembersAhead(c, b, s, ms, d.next.rest)
    ensures Behind(Cursor("", c.stack[|c.stack| - 1], c.stack[..|c.stack| - 1]), d.next)
    decreases |c.rest|, 1
  {
    hide DecodeMembers, Decode, Next, MemberOf, MembersAhead, Behind, Spaces, Utf8.Valid, More, AtToken;
    MoreMembers(c, depth, limits, done, d);
    if More(c) {
      var scan := Next(c);
      var v := Decode(scan.next, depth, limits).value;
      var m := Member(scan.token.text, v.doc);
      var a, gap, e := Arrive(c);
      var t := MemberFound(e, m.key, scan.next, depth, limits, v);
      var b', s', more := RecordFound(v.next, depth, limits, done + [m], d);
      b, s := JoinMember(c, a, gap, e, t, m, v.next, b', s', more, d.next.rest);
      ms := [m] + more;
      assert (done + [m]) + more == done + ms;
    } else {
      s := CloseFound(c, '}', d.next);
      b, ms := "", [];
      NoSpaces();
      NoMembers(c, b, s, d.next.rest);
      assert done + ms == done;
    }
  }
}
