/**
 Canonical JSON for idempotency hashing: equal values have equal bytes, different values different
 bytes, and canonical bytes are their own canonical form.
 */
module Canonicalization {
  import opened DecimalNumbers
  import opened JsonEncoding
  import opened JsonTokens
  import opened JsonDecoding
  import opened JsonSpelling
  import opened Ordering
  import Utf8

  // ---------------------------------------------------------------- canonical form

  predicate KeyBefore(a: Member, b: Member) { Before(a.key, b.key) }

  /** Numbers respelled, members sorted by key, at every depth. */
  function Canon(v: Json): Json
    decreases v, 0
  {
    match v
    case Number(spelling) =>
      (match CanonicalText(spelling)
       case Some(text) => Number(text)
       case None => v)
    case Array(vs) => Array(CanonElements(vs))
    case Object(ms) => Object(Sort(CanonMembers(ms), KeyBefore))
    case _ => v
  }

  function CanonElements(vs: seq<Json>): (r: seq<Json>)
    ensures |r| == |vs| && forall i | 0 <= i < |vs| :: r[i] == Canon(vs[i])
    decreases vs, 1
  {
    seq(|vs|, i requires 0 <= i < |vs| => Canon(vs[i]))
  }

  function CanonMember(m: Member): Member
    decreases m, 1
  {
    Member(m.key, Canon(m.value))
  }

  function CanonMembers(ms: seq<Member>): (r: seq<Member>)
    ensures |r| == |ms| && forall i | 0 <= i < |ms| :: r[i] == CanonMember(ms[i])
    decreases ms, 2
  {
    seq(|ms|, i requires 0 <= i < |ms| => CanonMember(ms[i]))
  }

  lemma KeyOrder()
    ensures WeakOrder(KeyBefore)
  {
    forall a: Member, b: Member ensures KeyBefore(a, b) ==> !KeyBefore(b, a) {
      BeforeTotal(a.key, b.key);
    }
    forall a: Member, b: Member, c: Member
      ensures KeyBefore(a, c) ==> KeyBefore(a, b) || KeyBefore(b, c)
    {
      BeforeTotal(a.key, b.key);
      if Before(b.key, a.key) && Before(a.key, c.key) { BeforeTransitive(b.key, a.key, c.key); }
    }
  }

  lemma DistinctComparable(ms: seq<Member>)
    requires DistinctKeys(ms)
    ensures forall i, j | 0 <= i < j < |ms| :: KeyBefore(ms[i], ms[j]) || KeyBefore(ms[j], ms[i])
  {
    forall i, j | 0 <= i < j < |ms| ensures KeyBefore(ms[i], ms[j]) || KeyBefore(ms[j], ms[i]) {
      BeforeTotal(ms[i].key, ms[j].key);
    }
  }

  /** The members of the canonical object: strictly sorted, and exactly the canonical members. */
  lemma CanonicalMembers(ms: seq<Member>)
    requires DistinctKeys(ms)
    ensures var sorted := Sort(CanonMembers(ms), KeyBefore);
            && StrictlySorted(sorted, KeyBefore) && |sorted| == |ms| && DistinctKeys(sorted)
            && forall m :: m in sorted <==> exists i :: 0 <= i < |ms| && m == CanonMember(ms[i])
  {
    KeyOrder();
    var canon := CanonMembers(ms);
    DistinctComparable(canon);
    SortStrict(canon, KeyBefore);
    SortContents(canon, KeyBefore);
    var sorted := Sort(canon, KeyBefore);
    forall i, j | 0 <= i < j < |sorted| ensures sorted[i].key != sorted[j].key {
      assert KeyBefore(sorted[i], sorted[j]);
      BeforeTotal(sorted[i].key, sorted[j].key);
    }
  }

  // ---------------------------------------------------------------- equal values

  /** Two documents denote the same JSON value: numbers by exact value, objects as mappings. */
  ghost predicate SameValue(a: Json, b: Json)
    decreases a
  {
    match (a, b)
    case (Null, Null) => true
    case (Bool(p), Bool(q)) => p == q
    case (Text(s), Text(t)) => s == t
    case (Number(s), Number(t)) =>
      Grammatical(s) && Grammatical(t) && Value(Parse(s).value) == Value(Parse(t).value)
    case (Array(vs), Array(ws)) =>
      |vs| == |ws| && forall i | 0 <= i < |vs| :: SameValue(vs[i], ws[i])
    case (Object(ms), Object(ns)) =>
      && (forall m | m in ms :: exists n :: n in ns && n.key == m.key && SameValue(m.value, n.value))
      && (forall n | n in ns :: exists m :: m in ms && m.key == n.key && SameValue(m.value, n.value))
    case _ => false
  }

  lemma SameElements(vs: seq<Json>, ws: seq<Json>)
    ensures CanonElements(vs) == CanonElements(ws)
            <==> |vs| == |ws| && forall i | 0 <= i < |vs| :: Canon(vs[i]) == Canon(ws[i])
  {
    var a, b := CanonElements(vs), CanonElements(ws);
    if a == b {
      forall i | 0 <= i < |vs| ensures Canon(vs[i]) == Canon(ws[i]) { assert a[i] == b[i]; }
    }
  }

  lemma ArraysIffSameValue(vs: seq<Json>, ws: seq<Json>)
    requires forall i | 0 <= i < |vs| && i < |ws| :: Canon(vs[i]) == Canon(ws[i]) <==> SameValue(vs[i], ws[i])
    ensures Canon(Array(vs)) == Canon(Array(ws)) <==> SameValue(Array(vs), Array(ws))
  {
    SameElements(vs, ws);
  }

  /** Canonical forms are equal exactly for equal values, whatever the member order or spelling. */
  lemma {:induction false} CanonIffSameValue(a: Json, b: Json, depth: nat, limits: Limits)
    requires Within(a, depth, limits) && Within(b, depth, limits)
    ensures Canon(a) == Canon(b) <==> SameValue(a, b)
    decreases a, 1
  {
    hide CheckText, DistinctKeys;
    match (a, b) {
      case (Number(s), Number(t)) => CanonicalTextCorrect(s, t);
      case (Array(vs), Array(ws)) =>
        forall i | 0 <= i < |vs| && i < |ws| ensures Canon(vs[i]) == Canon(ws[i]) <==> SameValue(vs[i], ws[i]) {
          assert vs[i] in vs && ws[i] in ws;
          CanonIffSameValue(vs[i], ws[i], depth + 1, limits);
        }
        ArraysIffSameValue(vs, ws);
      case (Object(ms), Object(ns)) =>
        ObjectsIffSameValue(ms, ns, depth + 1, limits);
      case _ =>
    }
  }

  /** Every canonical member of `ms` is one of `ns`. */
  ghost predicate Covered(ms: seq<Member>, ns: seq<Member>) {
    forall m | m in ms :: exists n :: n in ns && CanonMember(n) == CanonMember(m)
  }

  lemma {:induction false} ObjectsIffSameValue(ms: seq<Member>, ns: seq<Member>, depth: nat, limits: Limits)
    requires MembersWithin(ms, depth, limits) && MembersWithin(ns, depth, limits)
    ensures Canon(Object(ms)) == Canon(Object(ns)) <==> SameValue(Object(ms), Object(ns))
    decreases ms, 0
  {
    hide Covered, SameValue, Within;
    forall m, n | m in ms && n in ns && m.key == n.key
      ensures CanonMember(m) == CanonMember(n) <==> SameValue(m.value, n.value)
    {
      CanonIffSameValue(m.value, n.value, depth, limits);
    }
    SameValueIffCovered(ms, ns);
    SortedIffCovered(ms, ns);
  }

  lemma SameValueIffCovered(ms: seq<Member>, ns: seq<Member>)
    requires forall m, n | m in ms && n in ns && m.key == n.key ::
               CanonMember(m) == CanonMember(n) <==> SameValue(m.value, n.value)
    ensures SameValue(Object(ms), Object(ns)) <==> Covered(ms, ns) && Covered(ns, ms)
  {
  }

  lemma CoveredSame(ms: seq<Member>, ns: seq<Member>)
    requires DistinctKeys(ms) && DistinctKeys(ns) && Covered(ms, ns) && Covered(ns, ms)
    ensures Sort(CanonMembers(ms), KeyBefore) == Sort(CanonMembers(ns), KeyBefore)
  {
    CanonicalMembers(ms);
    CanonicalMembers(ns);
    CoveredSorted(ms, ns);
    CoveredSorted(ns, ms);
    KeyOrder();
    StrictlySortedUnique(Sort(CanonMembers(ms), KeyBefore), Sort(CanonMembers(ns), KeyBefore), KeyBefore);
  }

  lemma SortedIffCovered(ms: seq<Member>, ns: seq<Member>)
    requires DistinctKeys(ms) && DistinctKeys(ns)
    ensures Canon(Object(ms)) == Canon(Object(ns)) <==> Covered(ms, ns) && Covered(ns, ms)
  {
    hide DistinctKeys, Covered, Sort, CanonMembers;
    var a, b := Sort(CanonMembers(ms), KeyBefore), Sort(CanonMembers(ns), KeyBefore);
    if Covered(ms, ns) && Covered(ns, ms) { CoveredSame(ms, ns); }
    if a == b {
      SortedCovers(ms, ns);
      SortedCovers(ns, ms);
    }
  }

  lemma CoveredSorted(ms: seq<Member>, ns: seq<Member>)
    requires DistinctKeys(ms) && DistinctKeys(ns) && Covered(ms, ns)
    ensures forall x | x in Sort(CanonMembers(ms), KeyBefore) :: x in Sort(CanonMembers(ns), KeyBefore)
  {
    CanonicalMembers(ms);
    CanonicalMembers(ns);
    forall x | x in Sort(CanonMembers(ms), KeyBefore) ensures x in Sort(CanonMembers(ns), KeyBefore) {
      var i :| 0 <= i < |ms| && x == CanonMember(ms[i]);
      assert ms[i] in ms;
      var n :| n in ns && CanonMember(n) == x;
      var j :| 0 <= j < |ns| && ns[j] == n;
      assert x == CanonMember(ns[j]);
    }
  }

  lemma SortedCovers(ms: seq<Member>, ns: seq<Member>)
    requires DistinctKeys(ms) && DistinctKeys(ns)
    requires Sort(CanonMembers(ms), KeyBefore) == Sort(CanonMembers(ns), KeyBefore)
    ensures Covered(ms, ns)
  {
    CanonicalMembers(ms);
    CanonicalMembers(ns);
    forall m | m in ms ensures exists n :: n in ns && CanonMember(n) == CanonMember(m) {
      var i :| 0 <= i < |ms| && ms[i] == m;
      assert CanonMember(ms[i]) in Sort(CanonMembers(ms), KeyBefore);
      var j :| 0 <= j < |ns| && CanonMember(m) == CanonMember(ns[j]);
      assert ns[j] in ns;
    }
  }

  // ---------------------------------------------------------------- a fixed point

  /** Canonical documents stay within the limits and are already canonical. */
  lemma {:induction false} CanonFixed(v: Json, depth: nat, limits: Limits)
    requires Within(v, depth, limits)
    ensures Within(Canon(v), depth, limits) && Canon(Canon(v)) == Canon(v)
    decreases v, 1
  {
    match v
    case Number(spelling) => CanonicalTextCorrect(spelling, spelling);
    case Array(vs) =>
      var canon := CanonElements(vs);
      forall i | 0 <= i < |vs| ensures Within(canon[i], depth + 1, limits) && Canon(canon[i]) == canon[i] {
        assert vs[i] in vs;
        CanonFixed(vs[i], depth + 1, limits);
      }
      assert CanonElements(canon) == canon;
    case Object(ms) => CanonObjectFixed(ms, depth + 1, limits);
    case _ =>
  }

  lemma {:induction false} CanonObjectFixed(ms: seq<Member>, depth: nat, limits: Limits)
    requires MembersWithin(ms, depth, limits)
    ensures var sorted := Sort(CanonMembers(ms), KeyBefore);
            MembersWithin(sorted, depth, limits) && Sort(CanonMembers(sorted), KeyBefore) == sorted
    decreases ms, 0
  {
    CanonicalMembers(ms);
    var sorted := Sort(CanonMembers(ms), KeyBefore);
    forall m | m in sorted
      ensures CheckText(m.key).None? && Within(m.value, depth, limits) && CanonMember(m) == m
    {
      var i :| 0 <= i < |ms| && m == CanonMember(ms[i]);
      assert ms[i] in ms;
      CanonFixed(ms[i].value, depth, limits);
    }
    assert CanonMembers(sorted) == sorted;
    KeyOrder();
    SortFixed(sorted, KeyBefore);
  }

  // ---------------------------------------------------------------- the whole pipeline

  function Start(raw: string): Cursor { Cursor(raw, TopValue, []) }

  /** The document in `raw`, if it is accepted. */
  function ReadDocument(raw: string, enforceInputBound: bool, limits: Limits): Result<Json> {
    if enforceInputBound && |raw| > limits.maxInputBytes then Err(MaxInputBytes)
    else if !Utf8.Valid(raw) then Err(InvalidUtf8)
    else
      match Decode(Start(raw), 0, limits)
      case Err(error) => Err(error)
      case Ok(d) => if Next(d.next).EndOfInput? then Ok(d.doc) else Err(TrailingData)
  }

  /** `encodeRaw`: canonical bytes of a raw document. */
  function EncodeRaw(raw: string, enforceInputBound: bool, limits: Limits): Result<string> {
    match ReadDocument(raw, enforceInputBound, limits)
    case Err(error) => Err(error)
    case Ok(doc) =>
      var bytes := Encode(Canon(doc));
      if |bytes| <= limits.maxOutputBytes then Ok(bytes) else Err(MaxOutputBytes)
  }

  lemma DocumentWithin(raw: string, enforce: bool, limits: Limits)
    requires ReadDocument(raw, enforce, limits).Ok?
    ensures Within(ReadDocument(raw, enforce, limits).value, 0, limits)
  {
    DecodedWithin(Start(raw), 0, limits);
  }

  /** Encodings of documents within limits are read back as those documents. */
  lemma EncodingRoundTrip(v: Json, limits: Limits)
    requires Within(v, 0, limits)
    ensures Decode(Start(Encode(v)), 0, limits) == Ok(Decoded(v, Cursor("", TopValue, [])))
  {
    assert Encode(v) + "" == Encode(v);
    ReadBack(v, 0, limits, Start(Encode(v)), "");
  }

  /** Different documents have different encodings. */
  lemma EncodingInjective(v: Json, w: Json, limits: Limits)
    requires Within(v, 0, limits) && Within(w, 0, limits) && Encode(v) == Encode(w)
    ensures v == w
  {
    EncodingRoundTrip(v, limits);
    EncodingRoundTrip(w, limits);
  }

  lemma {:induction false} EncodingValid(v: Json, depth: nat, limits: Limits)
    requires Within(v, depth, limits)
    ensures Utf8.Valid(Encode(v))
    decreases v, 0
  {
    match v
    case Null => Utf8.AsciiValid("null");
    case Bool(_) => Utf8.AsciiValid(Encode(v));
    case Text(text) => QuoteValid(text);
    case Number(spelling) => NumberValid(spelling);
    case Array(vs) =>
      ElementsValid(vs, 0, depth + 1, limits);
      Enclosed("[", ElementsFrom(vs, 0), "]");
    case Object(ms) =>
      MembersValid(ms, 0, depth + 1, limits);
      Enclosed("{", MembersFrom(ms, 0), "}");
  }

  lemma Enclosed(open: string, body: string, close: string)
    requires Utf8.Ascii(open) && Utf8.Ascii(close) && Utf8.Valid(body)
    ensures Utf8.Valid(open + body + close)
  {
    Utf8.AsciiValid(open);
    Utf8.AsciiValid(close);
    Utf8.ValidConcat(open, body);
    Utf8.ValidConcat(open + body, close);
  }

  lemma QuoteValid(text: string)
    requires Utf8.Valid(text)
    ensures Utf8.Valid(Quote(text))
  {
    EscapeValid(text);
    Enclosed("\"", Escape(text), "\"");
  }

  lemma DigitsValid(digits: string)
    requires AllDigits(digits)
    ensures Utf8.Valid(digits)
  {
    assert Utf8.Ascii(digits);
    Utf8.AsciiValid(digits);
  }

  lemma ExponentValid(e: Exponent)
    requires ExponentWellFormed(e)
    ensures Utf8.Valid(SpellExponent(e))
  {
    if e.Exponent? {
      DigitsValid(e.digits);
      Utf8.AsciiValid([e.letter] + e.sign);
      Utf8.ValidConcat([e.letter] + e.sign, e.digits);
    }
  }

  lemma NumberValid(spelling: string)
    requires Grammatical(spelling)
    ensures Utf8.Valid(spelling)
  {
    var n := Parse(spelling).value;
    DigitsValid(n.whole);
    DigitsValid(n.fraction);
    ExponentValid(n.exponent);
    Utf8.AsciiValid(".");
    Utf8.AsciiValid("-");
    Utf8.ValidConcat(".", n.fraction);
    Utf8.ValidConcat(n.whole, PointAndFraction(n));
    Utf8.ValidConcat(n.whole + PointAndFraction(n), SpellExponent(n.exponent));
    Utf8.ValidConcat("-", SpellUnsigned(n));
    assert spelling == Spell(n);
  }

  lemma {:induction false} ElementsValid(vs: seq<Json>, i: nat, depth: nat, limits: Limits)
    requires ElementsWithin(vs, depth, limits)
    ensures Utf8.Valid(ElementsFrom(vs, i))
    decreases vs, if i < |vs| then |vs| - i else 0
  {
    if i < |vs| {
      EncodingValid(vs[i], depth, limits);
      ElementsValid(vs, i + 1, depth, limits);
      Enclosed(Comma(i), Encode(vs[i]), "");
      assert Comma(i) + Encode(vs[i]) + "" == Comma(i) + Encode(vs[i]);
      Utf8.ValidConcat(Comma(i) + Encode(vs[i]), ElementsFrom(vs, i + 1));
    }
  }

  lemma {:induction false} MemberValid(m: Member, depth: nat, limits: Limits)
    requires CheckText(m.key).None? && Within(m.value, depth, limits)
    ensures Utf8.Valid(MemberText(m))
    decreases m, 1
  {
    QuoteValid(m.key);
    EncodingValid(m.value, depth, limits);
    Utf8.AsciiValid(":");
    Utf8.ValidConcat(Quote(m.key), ":");
    Utf8.ValidConcat(Quote(m.key) + ":", Encode(m.value));
  }

  lemma {:induction false} MembersValid(ms: seq<Member>, i: nat, depth: nat, limits: Limits)
    requires MembersWithin(ms, depth, limits)
    ensures Utf8.Valid(MembersFrom(ms, i))
    decreases ms, if i < |ms| then |ms| - i else 0
  {
    if i < |ms| {
      MemberWithin(ms, i, depth, limits);
      MemberValid(ms[i], depth, limits);
      MembersValid(ms, i + 1, depth, limits);
      Enclosed(Comma(i), MemberText(ms[i]), "");
      assert Comma(i) + MemberText(ms[i]) + "" == Comma(i) + MemberText(ms[i]);
      Utf8.ValidConcat(Comma(i) + MemberText(ms[i]), MembersFrom(ms, i + 1));
    }
  }

  /**
   Canonical bytes are their own canonical form: re-encoding them changes nothing, and is refused
   only when they are longer than the input bound.
   */
  lemma CanonicalizationIdempotent(raw: string, enforce: bool, limits: Limits)
    requires EncodeRaw(raw, enforce, limits).Ok?
    ensures var bytes := EncodeRaw(raw, enforce, limits).value;
            && EncodeRaw(bytes, false, limits) == Ok(bytes)
            && EncodeRaw(bytes, true, limits)
               == if |bytes| <= limits.maxInputBytes then Ok(bytes) else Err(MaxInputBytes)
  {
    var doc := ReadDocument(raw, enforce, limits).value;
    DocumentWithin(raw, enforce, limits);
    CanonFixed(doc, 0, limits);
    EncodingRoundTrip(Canon(doc), limits);
    EncodingValid(Canon(doc), 0, limits);
  }

  /**
   Two accepted documents have the same canonical bytes exactly when they denote the same value,
   so a digest of the bytes is a digest of the value.
   */
  lemma SameBytesIffSameValue(a: string, b: string, enforce: bool, limits: Limits)
    requires EncodeRaw(a, enforce, limits).Ok? && EncodeRaw(b, enforce, limits).Ok?
    ensures EncodeRaw(a, enforce, limits) == EncodeRaw(b, enforce, limits)
            <==> SameValue(ReadDocument(a, enforce, limits).value, ReadDocument(b, enforce, limits).value)
  {
    var v, w := ReadDocument(a, enforce, limits).value, ReadDocument(b, enforce, limits).value;
    DocumentWithin(a, enforce, limits);
    DocumentWithin(b, enforce, limits);
    CanonIffSameValue(v, w, 0, limits);
    CanonFixed(v, 0, limits);
    CanonFixed(w, 0, limits);
    if Encode(Canon(v)) == Encode(Canon(w)) { EncodingInjective(Canon(v), Canon(w), limits); }
  }

  /** The documents a canonicalizer accepts include every document within its limits, as encoded. */
  lemma WithinLimitsAccepted(v: Json, limits: Limits)
    requires Within(v, 0, limits)
    ensures ReadDocument(Encode(v), false, limits) == Ok(v)
    ensures EncodeRaw(Encode(v), false, limits).Ok? <==> |Encode(Canon(v))| <= limits.maxOutputBytes
  {
    EncodingRoundTrip(v, limits);
    EncodingValid(v, 0, limits);
  }
}
