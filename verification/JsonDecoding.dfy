/**
 Reading a document: `decodeValue`, `decodeObject` and `decodeArray` with their limits, duplicate
 rejection and text checks. `Decode` yields the document as written; the methods build the value
 that will be encoded (numbers respelled, members sorted) and are proved to return its canonical form.
 */
module JsonDecoding {
  import opened DecimalNumbers
  import opened JsonEncoding
  import opened JsonTokens
  import Utf8

  /** Inclusive bounds on the work done for one document. */
  datatype Limits = Limits(
    maxInputBytes: nat, maxDepth: nat, maxObjectMembers: nat, maxArrayElements: nat, maxOutputBytes: nat)

  datatype Error =
    | MaxInputBytes | InvalidUtf8 | MalformedJson | InvalidNumber | NulNotAllowed
    | MaxDepth | MaxObjectMembers | MaxArrayElements | DuplicateKey | TrailingData | MaxOutputBytes

  datatype Result<+T> = Ok(value: T) | Err(error: Error)

  datatype Decoded = Decoded(doc: Json, next: Cursor)

  /** `validateString`. */
  function CheckText(text: string): Option<Error> {
    if !Utf8.Valid(text) then Some(InvalidUtf8) else if '\0' in text then Some(NulNotAllowed) else None
  }

  predicate HasKey(members: seq<Member>, key: string) { exists m | m in members :: m.key == key }

  // ---------------------------------------------------------------- the document as written

  function Decode(c: Cursor, depth: nat, limits: Limits): (r: Result<Decoded>)
    ensures r.Ok? ==> |r.value.next.rest| < |c.rest|
    decreases |c.rest|, 0
  {
    match Next(c)
    case EndOfInput => Err(MalformedJson)
    case Malformed => Err(MalformedJson)
    case Got(token, next) =>
      match token
      case NullToken => Ok(Decoded(Null, next))
      case BoolToken(flag) => Ok(Decoded(Bool(flag), next))
      case TextToken(text) =>
        (match CheckText(text)
         case Some(error) => Err(error)
         case None => Ok(Decoded(Text(text), next)))
      case NumberToken(spelling) =>
        if Grammatical(spelling) then Ok(Decoded(Number(spelling), next)) else Err(InvalidNumber)
      case Delim(mark) =>
        if depth >= limits.maxDepth then Err(MaxDepth)
        else if mark == '{' then DecodeMembers(next, depth + 1, limits, [])
        else if mark == '[' then DecodeElements(next, depth + 1, limits, [])
        else Err(MalformedJson)
  }

  function DecodeElements(c: Cursor, depth: nat, limits: Limits, values: seq<Json>): (r: Result<Decoded>)
    ensures r.Ok? ==> |r.value.next.rest| < |c.rest|
    decreases |c.rest|, 1
  {
    if More(c) then
      if |values| >= limits.maxArrayElements then Err(MaxArrayElements)
      else
        match Decode(c, depth, limits)
        case Err(error) => Err(error)
        case Ok(d) => DecodeElements(d.next, depth, limits, values + [d.doc])
    else
      match Next(c)
      case Got(Delim(']'), next) => Ok(Decoded(Array(values), next))
      case _ => Err(MalformedJson)
  }

  function DecodeMembers(c: Cursor, depth: nat, limits: Limits, members: seq<Member>): (r: Result<Decoded>)
    ensures r.Ok? ==> |r.value.next.rest| < |c.rest|
    decreases |c.rest|, 1
  {
    if More(c) then
      if |members| >= limits.maxObjectMembers then Err(MaxObjectMembers)
      else
        match Next(c)
        case Got(TextToken(key), next) =>
          (match CheckText(key)
           case Some(error) => Err(error)
           case None =>
             if HasKey(members, key) then Err(DuplicateKey)
             else
               match Decode(next, depth, limits)
               case Err(error) => Err(error)
               case Ok(d) => DecodeMembers(d.next, depth, limits, members + [Member(key, d.doc)]))
        case _ => Err(MalformedJson)
    else
      match Next(c)
      case Got(Delim('}'), next) => Ok(Decoded(Object(members), next))
      case _ => Err(MalformedJson)
  }

  // ---------------------------------------------------------------- documents within limits

  ghost predicate DistinctKeys(ms: seq<Member>) {
    forall i, j | 0 <= i < j < |ms| :: ms[i].key != ms[j].key
  }

  /** What decoding guarantees of a document, and all it takes for a document to be accepted. */
  ghost predicate Within(v: Json, depth: nat, limits: Limits)
    decreases v
  {
    match v
    case Null => true
    case Bool(_) => true
    case Text(text) => CheckText(text).None?
    case Number(spelling) => Grammatical(spelling)
    case Array(vs) =>
      && depth < limits.maxDepth && |vs| <= limits.maxArrayElements
      && forall x | x in vs :: Within(x, depth + 1, limits)
    case Object(ms) =>
      && depth < limits.maxDepth && |ms| <= limits.maxObjectMembers && DistinctKeys(ms)
      && forall m | m in ms :: CheckText(m.key).None? && Within(m.value, depth + 1, limits)
  }

  ghost predicate MembersWithin(ms: seq<Member>, depth: nat, limits: Limits) {
    && |ms| <= limits.maxObjectMembers && DistinctKeys(ms)
    && forall m | m in ms :: CheckText(m.key).None? && Within(m.value, depth, limits)
  }

  ghost predicate ElementsWithin(vs: seq<Json>, depth: nat, limits: Limits) {
    |vs| <= limits.maxArrayElements && forall v | v in vs :: Within(v, depth, limits)
  }

  lemma {:induction false} DecodedWithin(c: Cursor, depth: nat, limits: Limits)
    requires Decode(c, depth, limits).Ok?
    ensures Within(Decode(c, depth, limits).value.doc, depth, limits)
    decreases |c.rest|, 0
  {
    var scan := Next(c);
    if scan.token.Delim? {
      if scan.token.mark == '{' {
        MembersDecodedWithin(scan.next, depth + 1, limits, []);
      } else {
        ElementsDecodedWithin(scan.next, depth + 1, limits, []);
      }
    }
  }

  lemma {:induction false} ElementsDecodedWithin(c: Cursor, depth: nat, limits: Limits, values: seq<Json>)
    requires DecodeElements(c, depth, limits, values).Ok? && ElementsWithin(values, depth, limits)
    ensures var doc := DecodeElements(c, depth, limits, values).value.doc;
            doc.Array? && ElementsWithin(doc.elements, depth, limits)
    decreases |c.rest|, 1
  {
    if More(c) {
      DecodedWithin(c, depth, limits);
      var d := Decode(c, depth, limits).value;
      ElementsDecodedWithin(d.next, depth, limits, values + [d.doc]);
    }
  }

  lemma {:induction false} MembersDecodedWithin(c: Cursor, depth: nat, limits: Limits, members: seq<Member>)
    requires DecodeMembers(c, depth, limits, members).Ok? && MembersWithin(members, depth, limits)
    ensures var doc := DecodeMembers(c, depth, limits, members).value.doc;
            doc.Object? && MembersWithin(doc.members, depth, limits)
    decreases |c.rest|, 1
  {
    if More(c) {
      var scan := Next(c);
      DecodedWithin(scan.next, depth, limits);
      var d := Decode(scan.next, depth, limits).value;
      var member := Member(scan.token.text, d.doc);
      assert forall m | m in members :: m.key != member.key;
      MembersDecodedWithin(d.next, depth, limits, members + [member]);
    }
  }

  // ---------------------------------------------------------------- the reader, step by step

  lemma SpelledStart(n: Numeral, tail: string)
    requires WellFormed(n)
    ensures var s := Spell(n) + tail; s != "" && (s[0] == '-' || IsDigit(s[0]))
  {
  }

  lemma NumberStart(spelling: string)
    requires Grammatical(spelling)
    ensures spelling != "" && (spelling[0] == '-' || IsDigit(spelling[0]))
  {
    var n := Parse(spelling).value;
    assert spelling == Spell(n);
    SpelledStart(n, "");
    assert Spell(n) + "" == Spell(n);
  }

  predicate StartsValue(c: char) { c in "[{\"tfn-" || IsDigit(c) }

  lemma StartsNothingElse(c: char)
    requires StartsValue(c)
    ensures !IsSpace(c) && c !in "]},:"
  {
  }

  lemma SkipNothing(s: string)
    requires s == "" || !IsSpace(s[0])
    ensures SkipSpace(s) == s
  {
  }

  lemma ReadNumberToken(spelling: string, tail: string)
    requires Grammatical(spelling) && Delimited(tail)
    ensures var s := spelling + tail;
            s != "" && ReadScalar(s) == Some(Taken(NumberToken(spelling), tail))
  {
    var n := Parse(spelling).value;
    assert spelling == Spell(n);
    AfterSpelledNumber(n, tail);
    SpelledStart(n, tail);
    FrontOf(spelling, tail);
    NumberStart(spelling);
    ScanNumber(spelling + tail, tail);
  }

  lemma ScanNumber(s: string, rest: string)
    requires s != "" && (s[0] == '-' || IsDigit(s[0])) && AfterNumber(s) == Some(rest) && |rest| < |s|
    ensures ReadScalar(s) == Some(Taken(NumberToken(s[..|s| - |rest|]), rest))
  {
  }

  lemma FrontOf(front: string, tail: string)
    ensures (front + tail)[..|front + tail| - |tail|] == front
    ensures (front + tail)[|front|..] == tail
  {
  }

  /** The token of a value that is not an array or object. */
  function ScalarToken(v: Json): Token
    requires !v.Array? && !v.Object?
  {
    match v
    case Null => NullToken
    case Bool(flag) => BoolToken(flag)
    case Text(text) => TextToken(text)
    case Number(spelling) => NumberToken(spelling)
  }

  lemma ReadWord(word: string, tail: string)
    requires word == "null" || word == "true" || word == "false"
    ensures ReadScalar(word + tail)
         == Some(Taken(if word == "null" then NullToken else BoolToken(word == "true"), tail))
  {
    var s := word + tail;
    FrontOf(word, tail);
    assert StartsWith(s, word) && s[0] == word[0];
    assert "true"[0] == 't' && "null"[0] == 'n' && "false"[0] == 'f';
  }

  lemma ScanText(s: string, text: string, tail: string)
    requires s != "" && s[0] == '"' && ReadText(s[1..]) == Some(Taken(text, tail))
    ensures ReadScalar(s) == Some(Taken(TextToken(text), tail))
  {
  }

  lemma NextScalar(c: Cursor, token: Token, tail: string)
    requires c.rest != "" && !IsSpace(c.rest[0]) && c.rest[0] !in "[]{}:,"
    requires ReadScalar(c.rest) == Some(Taken(token, tail)) && ValueAllowed(c.state)
    ensures Next(c) == Got(token, Cursor(tail, AfterValue(c.state), c.stack))
  {
    SkipNothing(c.rest);
  }

  lemma DecodeScalar(v: Json, depth: nat, limits: Limits, c: Cursor, next: Cursor)
    requires Within(v, depth, limits) && !v.Array? && !v.Object?
    requires Next(c) == Got(ScalarToken(v), next)
    ensures Decode(c, depth, limits) == Ok(Decoded(v, next))
  {
  }

  /** Decoding looks at its cursor only through the next token. */
  lemma DecodeByNext(c: Cursor, d: Cursor, depth: nat, limits: Limits)
    requires Next(c) == Next(d)
    ensures Decode(c, depth, limits) == Decode(d, depth, limits)
  {
  }

  lemma ElementStep(c: Cursor, depth: nat, limits: Limits, values: seq<Json>, v: Json, next: Cursor)
    requires More(c) && |values| < limits.maxArrayElements
    requires Decode(c, depth, limits) == Ok(Decoded(v, next))
    ensures DecodeElements(c, depth, limits, values) == DecodeElements(next, depth, limits, values + [v])
  {
  }

  lemma CloseElements(c: Cursor, depth: nat, limits: Limits, values: seq<Json>, next: Cursor)
    requires !More(c) && Next(c) == Got(Delim(']'), next)
    ensures DecodeElements(c, depth, limits, values) == Ok(Decoded(Array(values), next))
  {
  }

  lemma CloseMembers(c: Cursor, depth: nat, limits: Limits, ms: seq<Member>, next: Cursor)
    requires !More(c) && Next(c) == Got(Delim('}'), next)
    ensures DecodeMembers(c, depth, limits, ms) == Ok(Decoded(Object(ms), next))
  {
  }

  lemma MemberWithin(ms: seq<Member>, i: nat, depth: nat, limits: Limits)
    requires i < |ms| && MembersWithin(ms, depth, limits)
    ensures i < limits.maxObjectMembers && !HasKey(ms[..i], ms[i].key)
    ensures CheckText(ms[i].key).None? && Within(ms[i].value, depth, limits)
  {
    assert ms[i] in ms;
  }

  lemma MemberStep(
    c: Cursor, depth: nat, limits: Limits, ms: seq<Member>, m: Member, colon: Cursor, next: Cursor)
    requires More(c) && |ms| < limits.maxObjectMembers && !HasKey(ms, m.key)
    requires Next(c) == Got(TextToken(m.key), colon) && CheckText(m.key).None?
    requires Decode(colon, depth, limits) == Ok(Decoded(m.value, next))
    ensures DecodeMembers(c, depth, limits, ms) == DecodeMembers(next, depth, limits, ms + [m])
  {
  }}
