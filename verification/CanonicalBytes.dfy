/**
 Which bytes are canonical for a value, without a word about how they are written: no white space,
 nothing escaped that need not be, numbers in canonical notation, members in byte order of their keys.
 */
module CanonicalBytes {
  import opened AcceptedDocuments
  import opened Canonicalization
  import opened CodePoints
  import opened DecimalNumbers
  import opened JsonDecoding
  import opened JsonEncoding
  import opened JsonGrammar
  import opened JsonReading
  import opened JsonSpelling
  import opened JsonTokens
  import opened NumberNotation
  import opened Ordering
  import Utf8

  // ---------------------------------------------------------------- the canonical form

  /** Text in quotes, each code point written the shortest way. */
  ghost predicate ShortestString(s: string, text: string) {
    exists body, codes :: s == "\"" + (body + "\"") && ShortestBody(body, codes) && Spells(text, codes)
  }

  /** A number in canonical notation, of the value its text denotes. */
  ghost predicate ShortestNumber(s: string, spelling: string) {
    exists n :: WellFormed(n) && Spell(n) == spelling && CanonicalSpelling(s, Value(n))
  }

  /** A rearrangement of the members, by position, in strictly increasing byte order of their keys. */
  ghost predicate KeyOrdered(order: seq<nat>, ms: seq<Member>) {
    && |order| == |ms| && (forall i | 0 <= i < |order| :: order[i] < |ms|)
    && (forall k | 0 <= k < |ms| :: k in order)
    && forall i, j | 0 <= i < j < |order| :: Precedes(ms[order[i]].key, ms[order[j]].key)
  }

  ghost predicate CanonicalOf(s: string, v: Json)
    decreases v, 0
  {
    match v
    case Null => s == "null"
    case Bool(flag) => s == if flag then "true" else "false"
    case Text(text) => ShortestString(s, text)
    case Number(spelling) => ShortestNumber(s, spelling)
    case Array(vs) => exists inside :: s == "[" + (inside + "]") && ListOf(inside, vs, 0)
    case Object(ms) =>
      exists inside, order :: s == "{" + (inside + "}") && KeyOrdered(order, ms) && RecordOf(inside, ms, order, 0)
  }

  function Separator(i: nat): string { if i == 0 then "" else "," }

  /** The elements from position `i` on, each but the first of all after a comma. */
  ghost predicate ListOf(s: string, vs: seq<Json>, i: nat)
    decreases vs, |vs| - i
  {
    if i >= |vs| then s == ""
    else
      exists t, rest :: s == Separator(i) + (t + rest) && CanonicalOf(t, vs[i]) && ListOf(rest, vs, i + 1)
  }

  ghost predicate RecordOf(s: string, ms: seq<Member>, order: seq<nat>, i: nat)
    requires forall k | 0 <= k < |order| :: order[k] < |ms|
    decreases ms, |order| - i
  {
    if i >= |order| then s == ""
    else
      var m := ms[order[i]];
      exists t, rest :: s == Separator(i) + (t + rest) && CanonicalMember(t, m) && RecordOf(rest, ms, order, i + 1)
  }

  ghost predicate CanonicalMember(s: string, m: Member)
    decreases m, 1
  {
    exists name, value :: s == name + (":" + value) && ShortestString(name, m.key) && CanonicalOf(value, m.value)
  }

  // ---------------------------------------------------------------- what the encoder writes has it

  lemma QuoteShortest(text: string)
    requires Utf8.Valid(text)
    ensures ShortestString(Quote(text), text)
  {
    hide ShortestBody, Spells;
    var codes := CodesOf(text);
    EscapedBody(text, codes);
    Utf8.Associative("\"", Escape(text), "\"");
  }

  lemma NumberShortest(spelling: string)
    requires Grammatical(spelling)
    ensures CanonicalText(spelling).Some? && ShortestNumber(CanonicalText(spelling).value, spelling)
  {
    var n := Parse(spelling).value;
    GrammarIsExact(spelling, n);
    CanonicalExactly(n, CanonicalText(spelling).value);
  }

  lemma {:induction false} EncodedCanonical(v: Json, depth: nat, limits: Limits)
    requires Within(v, depth, limits)
    ensures CanonicalOf(Encode(Canon(v)), v)
    decreases v, 0
  {
    hide ShortestString, ShortestNumber, ListOf, RecordOf, KeyOrdered;
    match v
    case Null =>
    case Bool(_) =>
    case Text(text) => QuoteShortest(text);
    case Number(spelling) => NumberShortest(spelling);
    case Array(vs) =>
      EncodedList(vs, 0, depth + 1, limits);
      Bracketed("[", ElementsFrom(CanonElements(vs), 0), "]");
    case Object(ms) =>
      var sorted := Sort(CanonMembers(ms), KeyBefore);
      var order := OrderOf(ms, depth + 1, limits);
      EncodedRecord(ms, order, 0, depth + 1, limits);
      Bracketed("{", MembersFrom(sorted, 0), "}");
  }

  lemma {:induction false} EncodedList(vs: seq<Json>, i: nat, depth: nat, limits: Limits)
    requires ElementsWithin(vs, depth, limits)
    ensures ListOf(ElementsFrom(CanonElements(vs), i), vs, i)
    decreases vs, if i < |vs| then |vs| - i else 0
  {
    hide CanonicalOf;
    if i < |vs| {
      ElementWithin(vs, i, depth, limits);
      EncodedCanonical(vs[i], depth, limits);
      EncodedList(vs, i + 1, depth, limits);
      var t, rest := Encode(Canon(vs[i])), ElementsFrom(CanonElements(vs), i + 1);
      Utf8.Associative(Comma(i), t, rest);
      assert Comma(i) == Separator(i);
      assert CanonicalOf(t, vs[i]) && ListOf(rest, vs, i + 1);
    }
  }

  /** The sorted members are the given ones, each at one position. */
  lemma OrderOf(ms: seq<Member>, depth: nat, limits: Limits) returns (order: seq<nat>)
    requires MembersWithin(ms, depth, limits)
    ensures KeyOrdered(order, ms)
    ensures var sorted := Sort(CanonMembers(ms), KeyBefore);
            |sorted| == |ms| && forall i | 0 <= i < |ms| :: sorted[i] == CanonMember(ms[order[i]])
  {
    var sorted := Sort(CanonMembers(ms), KeyBefore);
    CanonicalMembers(ms);
    order := Positions(ms, sorted, |ms|);
    forall k | 0 <= k < |ms| ensures k in order { Covered(ms, sorted, order, k); }
    forall i, j | 0 <= i < j < |order| ensures Precedes(ms[order[i]].key, ms[order[j]].key) {
      assert KeyBefore(sorted[i], sorted[j]);
      BeforeExact(sorted[i].key, sorted[j].key);
    }
  }

  lemma {:induction false} Positions(ms: seq<Member>, sorted: seq<Member>, n: nat) returns (order: seq<nat>)
    requires n <= |sorted| && forall m :: m in sorted <==> exists i :: 0 <= i < |ms| && m == CanonMember(ms[i])
    ensures |order| == n && forall i | 0 <= i < n :: order[i] < |ms| && sorted[i] == CanonMember(ms[order[i]])
  {
    order := [];
    if n > 0 {
      order := Positions(ms, sorted, n - 1);
      assert sorted[n - 1] in sorted;
      var k :| 0 <= k < |ms| && sorted[n - 1] == CanonMember(ms[k]);
      order := order + [k];
    }
  }

  lemma Covered(ms: seq<Member>, sorted: seq<Member>, order: seq<nat>, k: nat)
    requires k < |ms| && DistinctKeys(ms) && |order| == |sorted|
    requires forall m :: m in sorted <==> exists i :: 0 <= i < |ms| && m == CanonMember(ms[i])
    requires forall i | 0 <= i < |order| :: order[i] < |ms| && sorted[i] == CanonMember(ms[order[i]])
    ensures k in order
  {
    assert CanonMember(ms[k]) in sorted;
    var i :| 0 <= i < |sorted| && sorted[i] == CanonMember(ms[k]);
    assert ms[order[i]].key == ms[k].key;
  }

  lemma {:induction false} EncodedRecord(ms: seq<Member>, order: seq<nat>, i: nat, depth: nat, limits: Limits)
    requires MembersWithin(ms, depth, limits) && |order| == |ms| && forall k | 0 <= k < |order| :: order[k] < |ms|
    requires var sorted := Sort(CanonMembers(ms), KeyBefore);
             |sorted| == |ms| && forall k | 0 <= k < |ms| :: sorted[k] == CanonMember(ms[order[k]])
    ensures RecordOf(MembersFrom(Sort(CanonMembers(ms), KeyBefore), i), ms, order, i)
    decreases ms, if i < |ms| then |ms| - i else 0
  {
    hide CanonicalOf, ShortestString, Sort, CanonMembers;
    if i < |ms| {
      var sorted := Sort(CanonMembers(ms), KeyBefore);
      var m := ms[order[i]];
      EncodedMember(ms, order[i], depth, limits);
      EncodedRecord(ms, order, i + 1, depth, limits);
      var t, rest := MemberText(sorted[i]), MembersFrom(sorted, i + 1);
      Utf8.Associative(Comma(i), t, rest);
      assert Comma(i) == Separator(i);
      assert CanonicalMember(t, m) && RecordOf(rest, ms, order, i + 1);
    }
  }

  lemma {:induction false} EncodedMember(ms: seq<Member>, k: nat, depth: nat, limits: Limits)
    requires k < |ms| && MembersWithin(ms, depth, limits)
    ensures CanonicalMember(MemberText(CanonMember(ms[k])), ms[k])
    decreases ms, 0
  {
    hide CanonicalOf, ShortestString, Encode, Canon;
    var m := ms[k];
    MemberWithin(ms, k, depth, limits);
    QuoteShortest(m.key);
    EncodedCanonical(m.value, depth, limits);
    Utf8.Associative(Quote(m.key), ":", Encode(Canon(m.value)));
  }

  // ---------------------------------------------------------------- and nothing else has

  lemma PieceUnique(p: string, q: string, code: nat)
    requires ShortestPiece(p, code) && ShortestPiece(q, code)
    ensures p == q
  {
    if code !in {0x22, 0x5C, 0x08, 0x0C, 0x0A, 0x0D, 0x09} && code >= 0x20 { OneInjective(p, q); }
  }

  lemma {:induction false} BodyUnique(s: string, t: string, codes: seq<nat>)
    requires ShortestBody(s, codes) && ShortestBody(t, codes)
    ensures s == t
    decreases codes
  {
    hide ShortestPiece;
    if codes != [] {
      var p, r :| s == p + r && ShortestPiece(p, codes[0]) && ShortestBody(r, codes[1..]);
      var q, u :| t == q + u && ShortestPiece(q, codes[0]) && ShortestBody(u, codes[1..]);
      PieceUnique(p, q, codes[0]);
      BodyUnique(r, u, codes[1..]);
    }
  }

  lemma StringUnique(s: string, t: string, text: string)
    requires ShortestString(s, text) && ShortestString(t, text)
    ensures s == t
  {
    hide ShortestBody, Spells;
    var body, codes :| s == "\"" + (body + "\"") && ShortestBody(body, codes) && Spells(text, codes);
    var other, others :| t == "\"" + (other + "\"") && ShortestBody(other, others) && Spells(text, others);
    CodesUnique(text, codes, others);
    BodyUnique(body, other, codes);
  }

  lemma NumberUnique(s: string, t: string, spelling: string)
    requires ShortestNumber(s, spelling) && ShortestNumber(t, spelling)
    ensures s == t
  {
    hide CanonicalSpelling;
    var n :| WellFormed(n) && Spell(n) == spelling && CanonicalSpelling(s, Value(n));
    var m :| WellFormed(m) && Spell(m) == spelling && CanonicalSpelling(t, Value(m));
    ParseSpell(n);
    ParseSpell(m);
    CanonicalExactly(n, s);
    CanonicalExactly(n, t);
  }

  lemma ByteOrder()
    ensures WeakOrder(Before)
  {
    forall a, b ensures Before(a, b) ==> !Before(b, a) { BeforeTotal(a, b); }
    forall a, b, c ensures Before(a, c) ==> Before(a, b) || Before(b, c) {
      BeforeTotal(a, b);
      if Before(b, a) && Before(a, c) { BeforeTransitive(b, a, c); }
    }
  }

  function KeysOf(order: seq<nat>, ms: seq<Member>): (keys: seq<string>)
    requires forall i | 0 <= i < |order| :: order[i] < |ms|
    ensures |keys| == |order| && forall i | 0 <= i < |order| :: keys[i] == ms[order[i]].key
  {
    seq(|order|, i requires 0 <= i < |order| => ms[order[i]].key)
  }

  lemma KeysSorted(order: seq<nat>, ms: seq<Member>)
    requires KeyOrdered(order, ms)
    ensures StrictlySorted(KeysOf(order, ms), Before)
    ensures forall k | 0 <= k < |ms| :: ms[k].key in KeysOf(order, ms)
    ensures forall key | key in KeysOf(order, ms) :: exists k :: 0 <= k < |ms| && ms[k].key == key
  {
    var keys := KeysOf(order, ms);
    forall i, j | 0 <= i < j < |keys| ensures Before(keys[i], keys[j]) { BeforeExact(keys[i], keys[j]); }
    forall k | 0 <= k < |ms| ensures ms[k].key in keys {
      assert k in order;
      var i :| 0 <= i < |order| && order[i] == k;
      assert keys[i] == ms[k].key;
    }
  }

  lemma OnePlace(keys: seq<string>, i: nat, j: nat)
    requires StrictlySorted(keys, Before) && i < |keys| && j < |keys| && keys[i] == keys[j]
    ensures i == j
  {
    BeforeTotal(keys[i], keys[j]);
  }

  lemma KeysDistinct(order: seq<nat>, ms: seq<Member>, a: nat, b: nat)
    requires KeyOrdered(order, ms) && a < |ms| && b < |ms| && ms[a].key == ms[b].key
    ensures a == b
  {
    KeysSorted(order, ms);
    assert a in order && b in order;
    var i :| 0 <= i < |order| && order[i] == a;
    var j :| 0 <= j < |order| && order[j] == b;
    OnePlace(KeysOf(order, ms), i, j);
  }

  lemma OrderUnique(order: seq<nat>, other: seq<nat>, ms: seq<Member>)
    requires KeyOrdered(order, ms) && KeyOrdered(other, ms)
    ensures order == other
  {
    var a, b := KeysOf(order, ms), KeysOf(other, ms);
    KeysSorted(order, ms);
    KeysSorted(other, ms);
    ByteOrder();
    StrictlySortedUnique(a, b, Before);
    forall i | 0 <= i < |order| ensures order[i] == other[i] {
      assert a[i] == b[i];
      KeysDistinct(order, ms, order[i], other[i]);
    }
  }

  lemma {:induction false} CanonicalUnique(s: string, t: string, v: Json)
    requires CanonicalOf(s, v) && CanonicalOf(t, v)
    ensures s == t
    decreases v, 0
  {
    hide ShortestString, ShortestNumber, ListOf, RecordOf, Precedes;
    match v
    case Text(text) => StringUnique(s, t, text);
    case Number(spelling) => NumberUnique(s, t, spelling);
    case Array(vs) =>
      var a :| s == "[" + (a + "]") && ListOf(a, vs, 0);
      var b :| t == "[" + (b + "]") && ListOf(b, vs, 0);
      ListUnique(a, b, vs, 0);
    case Object(ms) =>
      var a, order :| s == "{" + (a + "}") && KeyOrdered(order, ms) && RecordOf(a, ms, order, 0);
      var b, other :| t == "{" + (b + "}") && KeyOrdered(other, ms) && RecordOf(b, ms, other, 0);
      OrderUnique(order, other, ms);
      RecordUnique(a, b, ms, order, 0);
    case _ =>
  }

  lemma {:induction false} ListUnique(s: string, t: string, vs: seq<Json>, i: nat)
    requires ListOf(s, vs, i) && ListOf(t, vs, i)
    ensures s == t
    decreases vs, if i < |vs| then |vs| - i else 0
  {
    hide CanonicalOf;
    if i < |vs| {
      var a, rest :| s == Separator(i) + (a + rest) && CanonicalOf(a, vs[i]) && ListOf(rest, vs, i + 1);
      var b, more :| t == Separator(i) + (b + more) && CanonicalOf(b, vs[i]) && ListOf(more, vs, i + 1);
      assert vs[i] in vs;
      CanonicalUnique(a, b, vs[i]);
      ListUnique(rest, more, vs, i + 1);
    }
  }

  lemma {:induction false} MemberUnique(s: string, t: string, m: Member)
    requires CanonicalMember(s, m) && CanonicalMember(t, m)
    ensures s == t
    decreases m, 1
  {
    hide CanonicalOf, ShortestString;
    var name, value :| s == name + (":" + value) && ShortestString(name, m.key) && CanonicalOf(value, m.value);
    var other, that :| t == other + (":" + that) && ShortestString(other, m.key) && CanonicalOf(that, m.value);
    StringUnique(name, other, m.key);
    CanonicalUnique(value, that, m.value);
  }

  lemma {:induction false} RecordUnique(s: string, t: string, ms: seq<Member>, order: seq<nat>, i: nat)
    requires forall k | 0 <= k < |order| :: order[k] < |ms|
    requires RecordOf(s, ms, order, i) && RecordOf(t, ms, order, i)
    ensures s == t
    decreases ms, if i < |order| then |order| - i else 0
  {
    hide CanonicalMember;
    if i < |order| {
      var m := ms[order[i]];
      var a, rest :| s == Separator(i) + (a + rest) && CanonicalMember(a, m) && RecordOf(rest, ms, order, i + 1);
      var b, more :| t == Separator(i) + (b + more) && CanonicalMember(b, m) && RecordOf(more, ms, order, i + 1);
      MemberUnique(a, b, m);
      RecordUnique(rest, more, ms, order, i + 1);
    }
  }

  // ---------------------------------------------------------------- the operation

  /** `bytes` are the canonical bytes of what the input denotes, and they fit. */
  ghost predicate CanonicalBytesOf(bytes: string, raw: string, enforceInputBound: bool, limits: Limits) {
    |bytes| <= limits.maxOutputBytes
    && exists v :: Accepted(raw, enforceInputBound, limits, v) && CanonicalOf(bytes, v)
  }

  /** The whole operation: it returns these bytes exactly when the input is accepted and they fit. */
  lemma EncodeRawExactly(raw: string, enforce: bool, limits: Limits, bytes: string)
    ensures EncodeRaw(raw, enforce, limits) == Ok(bytes) <==> CanonicalBytesOf(bytes, raw, enforce, limits)
  {
    hide Accepted, CanonicalOf, ReadDocument, Within;
    if ReadDocument(raw, enforce, limits).Ok? {
      var v := ReadDocument(raw, enforce, limits).value;
      AcceptedExactly(raw, enforce, limits, v);
      DocumentWithin(raw, enforce, limits);
      EncodedCanonical(v, 0, limits);
    }
    if CanonicalBytesOf(bytes, raw, enforce, limits) {
      var v :| Accepted(raw, enforce, limits, v) && CanonicalOf(bytes, v);
      AcceptedExactly(raw, enforce, limits, v);
      CanonicalUnique(bytes, Encode(Canon(v)), v);
    }
  }

  lemma {:induction false} DecodeErrors(c: Cursor, depth: nat, limits: Limits)
    ensures !(Decode(c, depth, limits) in {Err(MaxInputBytes), Err(TrailingData), Err(MaxOutputBytes)})
    decreases |c.rest|, 0
  {
    hide Next, DecodeElements, DecodeMembers;
    var scan := Next(c);
    if scan.Got? && scan.token.Delim? {
      ListErrors(scan.next, depth + 1, limits, []);
      RecordErrors(scan.next, depth + 1, limits, []);
    }
  }

  lemma {:induction false} ListErrors(c: Cursor, depth: nat, limits: Limits, values: seq<Json>)
    ensures !(DecodeElements(c, depth, limits, values) in {Err(MaxInputBytes), Err(TrailingData), Err(MaxOutputBytes)})
    decreases |c.rest|, 1
  {
    hide Next, More, Decode;
    if More(c) {
      DecodeErrors(c, depth, limits);
      var r := Decode(c, depth, limits);
      if r.Ok? { ListErrors(r.value.next, depth, limits, values + [r.value.doc]); }
    }
  }

  lemma CheckErrors(text: string)
    ensures !(CheckText(text) in {Some(MaxInputBytes), Some(TrailingData), Some(MaxOutputBytes)})
  {
  }

  lemma {:induction false} RecordErrors(c: Cursor, depth: nat, limits: Limits, members: seq<Member>)
    ensures !(DecodeMembers(c, depth, limits, members) in {Err(MaxInputBytes), Err(TrailingData), Err(MaxOutputBytes)})
    decreases |c.rest|, 1
  {
    hide Next, More, Decode, HasKey, CheckText;
    if More(c) && Next(c).Got? && Next(c).token.TextToken? {
      CheckErrors(Next(c).token.text);
      var key, next := Next(c).token.text, Next(c).next;
      DecodeErrors(next, depth, limits);
      var r := Decode(next, depth, limits);
      if r.Ok? { RecordErrors(r.value.next, depth, limits, members + [Member(key, r.value.doc)]); }
    }
  }

  /** Which bound refused the input: its length, its encoding, or the length of its canonical bytes. */
  lemma RefusedExactly(raw: string, enforce: bool, limits: Limits)
    ensures var r := EncodeRaw(raw, enforce, limits);
            && (r == Err(MaxInputBytes) <==> enforce && |raw| > limits.maxInputBytes)
            && (r == Err(MaxOutputBytes) <==> exists v, bytes ::
                  Accepted(raw, enforce, limits, v) && CanonicalOf(bytes, v) && |bytes| > limits.maxOutputBytes)
  {
    hide Accepted, CanonicalOf, Decode, Within;
    DecodeErrors(Start(raw), 0, limits);
    var doc := ReadDocument(raw, enforce, limits);
    if doc.Ok? {
      AcceptedExactly(raw, enforce, limits, doc.value);
      DocumentWithin(raw, enforce, limits);
      EncodedCanonical(doc.value, 0, limits);
    }
    if v, bytes :| Accepted(raw, enforce, limits, v) && CanonicalOf(bytes, v) && |bytes| > limits.maxOutputBytes {
      AcceptedExactly(raw, enforce, limits, v);
      CanonicalUnique(bytes, Encode(Canon(v)), v);
    }
  }
}
