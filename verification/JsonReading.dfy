/**
 The document reader meets the grammar, one way: every JSON text within the limits is read as the
 value it denotes, however it is spaced and spelled.
 */
module JsonReading {
  import CodePoints
  import opened DecimalNumbers
  import opened JsonDecoding
  import opened JsonEncoding
  import opened JsonGrammar
  import opened JsonStrings
  import opened JsonTokens
  import Utf8

  // ---------------------------------------------------------------- white space and brackets

  lemma {:induction false} SkipSpaces(a: string, rest: string)
    requires Spaces(a)
    ensures SkipSpace(a + rest) == SkipSpace(rest)
  {
    if a == "" {
      assert a + rest == rest;
    } else {
      assert (a + rest)[1..] == a[1..] + rest;
      SkipSpaces(a[1..], rest);
    }
  }

  /** The reader does not see white space before a token. */
  lemma NextSkips(c: Cursor, a: string, rest: string)
    requires Spaces(a) && c.rest == a + rest
    ensures Next(c) == Next(c.(rest := rest)) && (More(c) <==> More(c.(rest := rest)))
  {
    hide SkipSpace, ReadScalar, ReadText, ValueAllowed, AfterValue;
    SkipSpaces(a, rest);
  }

  lemma Right(a: string, t: string, b: string, x: string)
    ensures (a + (t + b)) + x == a + (t + (b + x))
  {
  }

  lemma SpacedDelimiter(b: string, x: string)
    requires Spaces(b) && Delimited(x)
    ensures Delimited(b + x)
  {
    if b == "" { assert b + x == x; }
  }

  /** A closing bracket ends what it closes and restores the enclosing state. */
  lemma ReadClose(c: Cursor, b: string, close: char, outer: State, stack: seq<State>, tail: string)
    requires Spaces(b) && c.rest == b + ([close] + tail) && c.stack == stack + [outer]
    requires (close == ']' && (c.state.ArrayStart? || c.state.ArrayComma?))
             || (close == '}' && (c.state.ObjectStart? || c.state.ObjectComma?))
    ensures !More(c) && Next(c) == Got(Delim(close), Cursor(tail, AfterValue(outer), stack))
  {
    NextSkips(c, b, [close] + tail);
    assert c.stack[..|c.stack| - 1] == stack;
  }

  /** A comma leads on to the next element or member. */
  lemma ReadComma(c: Cursor, b: string, rest: string)
    requires Spaces(b) && c.rest == b + ("," + rest) && (c.state.ArrayComma? || c.state.ObjectComma?)
    ensures More(c)
    ensures Next(c) == Next(Cursor(rest, if c.state.ArrayComma? then ArrayValue else ObjectKey, c.stack))
  {
    NextSkips(c, b, "," + rest);
  }

  lemma ReadColon(c: Cursor, b: string, rest: string)
    requires Spaces(b) && c.rest == b + (":" + rest) && c.state.ObjectColon?
    ensures Next(c) == Next(Cursor(rest, ObjectValue, c.stack))
  {
    NextSkips(c, b, ":" + rest);
  }

  // ---------------------------------------------------------------- scalars

  lemma ReadString(s: string, text: string, tail: string)
    requires StringText(s, text)
    ensures s != "" && (s + tail)[0] == '"' && ReadText((s + tail)[1..]) == Some(Taken(text, tail))
  {
    hide Body, CodePoints.Spells, ReadText;
    var body, codes :| s == "\"" + (body + "\"") && Body(body, codes) && CodePoints.Spells(text, codes);
    ReadBody(body, codes, text, tail);
    Right("\"", body, "\"", tail);
    assert ("\"" + (body + ("\"" + tail)))[1..] == body + ("\"" + tail);
  }

  lemma ReadScalarText(s: string, v: Json, depth: nat, limits: Limits, tail: string)
    requires ValueText(s, v) && !v.Array? && !v.Object? && Delimited(tail)
    ensures s + tail != "" && ReadScalar(s + tail) == Some(Taken(ScalarToken(v), tail))
  {
    hide ReadText, StringText, NumberText;
    match v
    case Null => ReadWord("null", tail);
    case Bool(flag) => ReadWord(if flag then "true" else "false", tail);
    case Number(spelling) =>
      NumberTextExact(spelling);
      ReadNumberToken(spelling, tail);
    case Text(text) =>
      ReadString(s, text, tail);
      ScanText(s + tail, text, tail);
  }

  lemma NumberTextExact(s: string)
    ensures NumberText(s) <==> Grammatical(s)
  {
    if Grammatical(s) { assert WellFormed(Parse(s).value) && Spell(Parse(s).value) == s; }
    if n :| WellFormed(n) && Spell(n) == s { ParseSpell(n); }
  }

  /** The first character of a value. */
  lemma ValueStart(s: string, v: Json)
    requires ValueText(s, v)
    ensures s != "" && StartsValue(s[0]) && (s[0] == '[' <==> v.Array?) && (s[0] == '{' <==> v.Object?)
  {
    hide Body, CodePoints.Spells;
    match v
    case Number(spelling) =>
      NumberTextExact(spelling);
      NumberStart(spelling);
    case _ =>
  }

  lemma ReadScalarValue(s: string, v: Json, c: Cursor, depth: nat, limits: Limits, tail: string)
    requires ValueText(s, v) && !v.Array? && !v.Object? && Within(v, depth, limits)
    requires ValueAllowed(c.state) && c.rest == s + tail && Delimited(tail)
    ensures Decode(c, depth, limits) == Ok(Decoded(v, Cursor(tail, AfterValue(c.state), c.stack)))
  {
    hide ValueText;
    ValueStart(s, v);
    StartsNothingElse(s[0]);
    ReadScalarText(s, v, depth, limits, tail);
    NextScalar(c, ScalarToken(v), tail);
    DecodeScalar(v, depth, limits, c, Cursor(tail, AfterValue(c.state), c.stack));
  }

  // ---------------------------------------------------------------- arrays

  lemma OpenArray(c: Cursor, depth: nat, limits: Limits, inside: string, tail: string)
    requires ValueAllowed(c.state) && c.rest == ("[" + (inside + "]")) + tail && depth < limits.maxDepth
    ensures Decode(c, depth, limits)
         == DecodeElements(Cursor(inside + ("]" + tail), ArrayStart, c.stack + [c.state]), depth + 1, limits, [])
  {
    Right("[", inside, "]", tail);
    assert c.rest[1..] == inside + ("]" + tail);
    SkipNothing(c.rest);
    assert Next(c) == Got(Delim('['), Cursor(inside + ("]" + tail), ArrayStart, c.stack + [c.state]));
  }

  lemma OpenObject(c: Cursor, depth: nat, limits: Limits, inside: string, tail: string)
    requires ValueAllowed(c.state) && c.rest == ("{" + (inside + "}")) + tail && depth < limits.maxDepth
    ensures Decode(c, depth, limits)
         == DecodeMembers(Cursor(inside + ("}" + tail), ObjectStart, c.stack + [c.state]), depth + 1, limits, [])
  {
    Right("{", inside, "}", tail);
    assert c.rest[1..] == inside + ("}" + tail);
    SkipNothing(c.rest);
    assert Next(c) == Got(Delim('{'), Cursor(inside + ("}" + tail), ObjectStart, c.stack + [c.state]));
  }

  /** A value with white space around it, in front of a delimiter. */
  lemma {:induction false} ReadPadded(s: string, v: Json, c: Cursor, depth: nat, limits: Limits, x: string)
    returns (b: string)
    requires Padded(s, v) && Within(v, depth, limits)
    requires ValueAllowed(c.state) && c.rest == s + x && Delimited(x)
    ensures Spaces(b)
    ensures Decode(c, depth, limits) == Ok(Decoded(v, Cursor(b + x, AfterValue(c.state), c.stack)))
    decreases v, 1
  {
    hide Delimited, ValueText, Decode;
    var a, t, b' :| s == a + (t + b') && Spaces(a) && Spaces(b') && ValueText(t, v);
    b := b';
    Right(a, t, b, x);
    SpacedDelimiter(b, x);
    var d := c.(rest := t + (b + x));
    NextSkips(c, a, t + (b + x));
    DecodeByNext(c, d, depth, limits);
    ReadValue(t, v, d, depth, limits, b + x);
  }

  lemma MoreAt(c: Cursor, a: string, rest: string)
    requires Spaces(a) && c.rest == a + rest && rest != "" && !IsSpace(rest[0]) && rest[0] !in "]}"
    ensures More(c)
  {
    NextSkips(c, a, rest);
    SkipNothing(rest);
  }

  lemma PaddedMore(s: string, v: Json, c: Cursor, x: string)
    requires Padded(s, v) && c.rest == s + x
    ensures More(c)
  {
    hide ValueText, More;
    var a, t, b :| s == a + (t + b) && Spaces(a) && Spaces(b) && ValueText(t, v);
    Right(a, t, b, x);
    ValueStart(t, v);
    StartsNothingElse(t[0]);
    MoreAt(c, a, t + (b + x));
  }

  lemma NameMore(s: string, key: string, c: Cursor, x: string)
    requires NameText(s, key) && c.rest == s + x
    ensures More(c)
  {
    hide StringText, More;
    var a, t, b :| s == a + (t + b) && Spaces(a) && Spaces(b) && StringText(t, key);
    Right(a, t, b, x);
    ReadString(t, key, b + x);
    MoreAt(c, a, t + (b + x));
  }

  lemma ListMore(s: string, vs: seq<Json>, c: Cursor, x: string)
    requires vs != [] && ListText(s, vs) && c.rest == s + x
    ensures More(c)
  {
    hide Padded, More;
    if |vs| == 1 {
      PaddedMore(s, vs[0], c, x);
    } else {
      var first, rest :| s == first + ("," + rest) && Padded(first, vs[0]) && ListText(rest, vs[1..]);
      Right(first, ",", rest, x);
      PaddedMore(first, vs[0], c, "," + (rest + x));
    }
  }

  lemma MemberMore(s: string, m: Member, c: Cursor, x: string)
    requires MemberOf(s, m) && c.rest == s + x
    ensures More(c)
  {
    hide Padded, NameText, More;
    var name, value :| s == name + (":" + value) && NameText(name, m.key) && Padded(value, m.value);
    Right(name, ":", value, x);
    NameMore(name, m.key, c, ":" + (value + x));
  }

  lemma MembersMore(s: string, ms: seq<Member>, c: Cursor, x: string)
    requires ms != [] && MembersText(s, ms) && c.rest == s + x
    ensures More(c)
  {
    hide MemberOf, More;
    if |ms| == 1 {
      MemberMore(s, ms[0], c, x);
    } else {
      var first, rest :| s == first + ("," + rest) && MemberOf(first, ms[0]) && MembersText(rest, ms[1..]);
      Right(first, ",", rest, x);
      MemberMore(first, ms[0], c, "," + (rest + x));
    }
  }

  lemma {:induction false} ReadValue(s: string, v: Json, c: Cursor, depth: nat, limits: Limits, tail: string)
    requires ValueText(s, v) && Within(v, depth, limits)
    requires ValueAllowed(c.state) && c.rest == s + tail && Delimited(tail)
    ensures Decode(c, depth, limits) == Ok(Decoded(v, Cursor(tail, AfterValue(c.state), c.stack)))
    decreases v, 0
  {
    hide Delimited, Decode, DecodeElements, DecodeMembers, Spaces, ListText, MembersText;
    match v
    case Array(vs) =>
      var inside :| s == "[" + (inside + "]") && if vs == [] then Spaces(inside) else ListText(inside, vs);
      OpenArray(c, depth, limits, inside, tail);
      ReadInside(inside, vs, Cursor(inside + ("]" + tail), ArrayStart, c.stack + [c.state]), depth + 1, limits,
                 c.state, c.stack, tail);
    case Object(ms) =>
      var inside :| s == "{" + (inside + "}") && if ms == [] then Spaces(inside) else MembersText(inside, ms);
      OpenObject(c, depth, limits, inside, tail);
      ReadRecord(inside, ms, Cursor(inside + ("}" + tail), ObjectStart, c.stack + [c.state]), depth + 1, limits,
                 c.state, c.stack, tail);
    case _ => ReadScalarValue(s, v, c, depth, limits, tail);
  }

  lemma {:induction false} ReadInside(
    inside: string, vs: seq<Json>, c: Cursor, depth: nat, limits: Limits, outer: State, stack: seq<State>, tail: string)
    requires if vs == [] then Spaces(inside) else ListText(inside, vs)
    requires ElementsWithin(vs, depth, limits) && c == Cursor(inside + ("]" + tail), ArrayStart, stack + [outer])
    ensures DecodeElements(c, depth, limits, []) == Ok(Decoded(Array(vs), Cursor(tail, AfterValue(outer), stack)))
    decreases vs, 3
  {
    hide ElementsWithin, DecodeElements, ListText;
    assert [] + vs == vs;
    if vs == [] {
      ReadClose(c, inside, ']', outer, stack, tail);
      CloseElements(c, depth, limits, [], Cursor(tail, AfterValue(outer), stack));
    } else {
      ListMore(inside, vs, c, "]" + tail);
      ReadList(inside, vs, c, c, [], depth, limits, outer, stack, tail);
    }
  }

  lemma {:induction false} ReadRecord(
    inside: string, ms: seq<Member>, c: Cursor, depth: nat, limits: Limits,
    outer: State, stack: seq<State>, tail: string)
    requires if ms == [] then Spaces(inside) else MembersText(inside, ms)
    requires MembersWithin(ms, depth, limits) && c == Cursor(inside + ("}" + tail), ObjectStart, stack + [outer])
    ensures DecodeMembers(c, depth, limits, []) == Ok(Decoded(Object(ms), Cursor(tail, AfterValue(outer), stack)))
    decreases ms, 3
  {
    hide MembersWithin, DecodeMembers, MembersText;
    assert [] + ms == ms;
    if ms == [] {
      ReadClose(c, inside, '}', outer, stack, tail);
      CloseMembers(c, depth, limits, [], Cursor(tail, AfterValue(outer), stack));
    } else {
      MembersMore(inside, ms, c, "}" + tail);
      ReadMembers(inside, ms, c, c, [], depth, limits, outer, stack, tail);
    }
  }

  lemma NextDone<T>(done: seq<T>, vs: seq<T>)
    requires vs != []
    ensures done + vs == (done + [vs[0]]) + vs[1..] && (|vs| == 1 ==> done + vs == done + [vs[0]])
  {
  }

  lemma ElementWithin(vs: seq<Json>, i: nat, depth: nat, limits: Limits)
    requires i < |vs| && ElementsWithin(vs, depth, limits)
    ensures i < limits.maxArrayElements && Within(vs[i], depth, limits)
  {
    assert vs[i] in vs;
  }

  /** One element, from a cursor `c` that leads on like `e`: the list goes on behind it. */
  lemma {:induction false} ReadElement(
    s: string, v: Json, c: Cursor, e: Cursor, done: seq<Json>, depth: nat, limits: Limits, x: string)
    returns (b: string)
    requires Padded(s, v) && Within(v, depth, limits) && |done| < limits.maxArrayElements && Delimited(x)
    requires More(c) && Next(c) == Next(e) && c.stack == e.stack
    requires (e.state.ArrayStart? || e.state.ArrayValue?) && e.rest == s + x
    ensures Spaces(b)
    ensures DecodeElements(c, depth, limits, done)
         == DecodeElements(Cursor(b + x, ArrayComma, c.stack), depth, limits, done + [v])
    decreases v, 2
  {
    hide Padded, Within, Delimited, More, Next, Decode, DecodeElements;
    b := ReadPadded(s, v, e, depth, limits, x);
    DecodeByNext(c, e, depth, limits);
    ElementStep(c, depth, limits, done, v, Cursor(b + x, ArrayComma, c.stack));
  }

  /** The elements still to come, read from a cursor `c` that leads on like `e`. */
  lemma {:induction false} ReadList(
    s: string, vs: seq<Json>, c: Cursor, e: Cursor, done: seq<Json>, depth: nat, limits: Limits,
    outer: State, stack: seq<State>, tail: string)
    requires vs != [] && ListText(s, vs) && ElementsWithin(done + vs, depth, limits)
    requires More(c) && Next(c) == Next(e) && c.stack == e.stack == stack + [outer]
    requires (e.state.ArrayStart? || e.state.ArrayValue?) && e.rest == s + ("]" + tail)
    ensures DecodeElements(c, depth, limits, done)
            == Ok(Decoded(Array(done + vs), Cursor(tail, AfterValue(outer), stack)))
    decreases vs, 2
  {
    hide Padded, ElementsWithin, More, Next, DecodeElements;
    ElementWithin(done + vs, |done|, depth, limits);
    NextDone(done, vs);
    if |vs| == 1 {
      var b := ReadElement(s, vs[0], c, e, done, depth, limits, "]" + tail);
      var n := Cursor(b + ("]" + tail), ArrayComma, c.stack);
      ReadClose(n, b, ']', outer, stack, tail);
      CloseElements(n, depth, limits, done + [vs[0]], Cursor(tail, AfterValue(outer), stack));
    } else {
      var first, rest :| s == first + ("," + rest) && Padded(first, vs[0]) && ListText(rest, vs[1..]);
      var x := rest + ("]" + tail);
      Right(first, ",", rest, "]" + tail);
      var b := ReadElement(first, vs[0], c, e, done, depth, limits, "," + x);
      var n := Cursor(b + ("," + x), ArrayComma, c.stack);
      ReadComma(n, b, x);
      ReadList(rest, vs[1..], n, Cursor(x, ArrayValue, c.stack), done + [vs[0]], depth, limits, outer, stack, tail);
    }
  }

  // ---------------------------------------------------------------- objects

  lemma ReadName(s: string, key: string, e: Cursor, x: string) returns (b: string)
    requires NameText(s, key) && e.rest == s + x && (e.state.ObjectStart? || e.state.ObjectKey?)
    ensures Spaces(b) && Next(e) == Got(TextToken(key), Cursor(b + x, ObjectColon, e.stack))
  {
    hide StringText, ReadText;
    var a, t, b' :| s == a + (t + b') && Spaces(a) && Spaces(b') && StringText(t, key);
    b := b';
    Right(a, t, b, x);
    NextSkips(e, a, t + (b + x));
    ReadString(t, key, b + x);
    SkipNothing(t + (b + x));
  }

  /** One member, from a cursor `c` that leads on like `e`. */
  lemma {:induction false} ReadMember(
    s: string, m: Member, c: Cursor, e: Cursor, done: seq<Member>, depth: nat, limits: Limits, x: string)
    returns (b: string)
    requires MemberOf(s, m) && Within(m.value, depth, limits) && CheckText(m.key).None? && Delimited(x)
    requires |done| < limits.maxObjectMembers && !HasKey(done, m.key)
    requires More(c) && Next(c) == Next(e) && c.stack == e.stack
    requires (e.state.ObjectStart? || e.state.ObjectKey?) && e.rest == s + x
    ensures Spaces(b)
    ensures DecodeMembers(c, depth, limits, done)
         == DecodeMembers(Cursor(b + x, ObjectComma, c.stack), depth, limits, done + [m])
    decreases m, 2
  {
    hide Padded, NameText, Within, Delimited, More, Next, Decode, DecodeMembers, CheckText, HasKey;
    var name, value :| s == name + (":" + value) && NameText(name, m.key) && Padded(value, m.value);
    Right(name, ":", value, x);
    var gap := ReadName(name, m.key, e, ":" + (value + x));
    var colon := Cursor(gap + (":" + (value + x)), ObjectColon, e.stack);
    var inner := Cursor(value + x, ObjectValue, e.stack);
    ReadColon(colon, gap, value + x);
    b := ReadPadded(value, m.value, inner, depth, limits, x);
    DecodeByNext(colon, inner, depth, limits);
    MemberStep(c, depth, limits, done, m, colon, Cursor(b + x, ObjectComma, c.stack));
  }

  lemma DoneWithin(done: seq<Member>, ms: seq<Member>, depth: nat, limits: Limits)
    requires ms != [] && MembersWithin(done + ms, depth, limits)
    ensures |done| < limits.maxObjectMembers && !HasKey(done, ms[0].key)
    ensures CheckText(ms[0].key).None? && Within(ms[0].value, depth, limits)
  {
    MemberWithin(done + ms, |done|, depth, limits);
    assert (done + ms)[..|done|] == done;
  }

  lemma {:induction false} ReadMembers(
    s: string, ms: seq<Member>, c: Cursor, e: Cursor, done: seq<Member>, depth: nat, limits: Limits,
    outer: State, stack: seq<State>, tail: string)
    requires ms != [] && MembersText(s, ms) && MembersWithin(done + ms, depth, limits)
    requires More(c) && Next(c) == Next(e) && c.stack == e.stack == stack + [outer]
    requires (e.state.ObjectStart? || e.state.ObjectKey?) && e.rest == s + ("}" + tail)
    ensures DecodeMembers(c, depth, limits, done)
            == Ok(Decoded(Object(done + ms), Cursor(tail, AfterValue(outer), stack)))
    decreases ms, 2
  {
    hide MemberOf, MembersWithin, More, Next, DecodeMembers, CheckText, HasKey, Within;
    DoneWithin(done, ms, depth, limits);
    NextDone(done, ms);
    if |ms| == 1 {
      var b := ReadMember(s, ms[0], c, e, done, depth, limits, "}" + tail);
      var n := Cursor(b + ("}" + tail), ObjectComma, c.stack);
      ReadClose(n, b, '}', outer, stack, tail);
      CloseMembers(n, depth, limits, done + [ms[0]], Cursor(tail, AfterValue(outer), stack));
    } else {
      var first, rest :| s == first + ("," + rest) && MemberOf(first, ms[0]) && MembersText(rest, ms[1..]);
      var x := rest + ("}" + tail);
      Right(first, ",", rest, "}" + tail);
      var b := ReadMember(first, ms[0], c, e, done, depth, limits, "," + x);
      var n := Cursor(b + ("," + x), ObjectComma, c.stack);
      ReadComma(n, b, x);
      ReadMembers(rest, ms[1..], n, Cursor(x, ObjectKey, c.stack), done + [ms[0]], depth, limits, outer, stack, tail);
    }
  }
}
