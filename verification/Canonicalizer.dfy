/**
 The operations of the canonicalizer as the program runs them: a token reader that is advanced in
 place, loops that fill the members and elements of a value, and the bounded writer.
 */
module Canonicalizer {
  import opened DecimalNumbers
  import opened JsonEncoding
  import opened JsonTokens
  import opened JsonDecoding
  import opened Canonicalization
  import opened CanonicalBytes
  import Ordering
  import Utf8

  /** `json.Decoder` over one input. */
  class Decoder {
    var cursor: Cursor

    constructor (raw: string)
      ensures cursor == Start(raw)
    {
      cursor := Start(raw);
    }

    method Token() returns (scan: Scan)
      modifies this
      ensures scan == Next(old(cursor))
      ensures cursor == if scan.Got? then scan.next else old(cursor)
    {
      scan := Next(cursor);
      if scan.Got? { cursor := scan.next; }
    }
  }

  /** A method result agrees with the document read from `start`. */
  ghost predicate Agrees(result: Result<Json>, after: Cursor, decoded: Result<Decoded>) {
    match decoded
    case Err(error) => result == Err(error)
    case Ok(d) => result == Ok(Canon(d.doc)) && after == d.next
  }

  /** `decodeValue`. */
  method DecodeValue(decoder: Decoder, depth: nat, limits: Limits) returns (result: Result<Json>)
    modifies decoder
    ensures Agrees(result, decoder.cursor, Decode(old(decoder.cursor), depth, limits))
    decreases |decoder.cursor.rest|, 0
  {
    var scan := decoder.Token();
    if !scan.Got? { return Err(MalformedJson); }
    match scan.token
    case NullToken => return Ok(Null);
    case BoolToken(flag) => return Ok(Bool(flag));
    case TextToken(text) =>
      match CheckText(text) {
        case Some(error) => return Err(error);
        case None => return Ok(Text(text));
      }
    case NumberToken(spelling) =>
      var number := CanonicalNumber(spelling);
      match number {
        case None => return Err(InvalidNumber);
        case Some(text) => return Ok(Number(text));
      }
    case Delim(mark) =>
      if depth >= limits.maxDepth { return Err(MaxDepth); }
      if mark == '{' {
        result := DecodeObject(decoder, depth + 1, limits);
      } else if mark == '[' {
        result := DecodeArray(decoder, depth + 1, limits);
      } else {
        return Err(MalformedJson);
      }
  }

  /** `decodeArray`. */
  method DecodeArray(decoder: Decoder, depth: nat, limits: Limits) returns (result: Result<Json>)
    modifies decoder
    ensures Agrees(result, decoder.cursor, DecodeElements(old(decoder.cursor), depth, limits, []))
    decreases |decoder.cursor.rest|, 1
  {
    var values: seq<Json> := [];
    ghost var read: seq<Json> := [];
    ghost var whole := DecodeElements(decoder.cursor, depth, limits, []);
    while More(decoder.cursor)
      invariant |decoder.cursor.rest| <= old(|decoder.cursor.rest|)
      invariant values == CanonElements(read)
      invariant whole == DecodeElements(decoder.cursor, depth, limits, read)
      decreases |decoder.cursor.rest|
    {
      if |values| >= limits.maxArrayElements { return Err(MaxArrayElements); }
      ghost var before := decoder.cursor;
      var value := DecodeValue(decoder, depth, limits);
      if value.Err? { return value; }
      ghost var d := Decode(before, depth, limits).value;
      read := read + [d.doc];
      values := values + [value.value];
      assert values == CanonElements(read);
    }
    var scan := decoder.Token();
    if scan.Got? && scan.token == Delim(']') { return Ok(Array(values)); }
    return Err(MalformedJson);
  }

  /** `decodeObject`: duplicate keys are refused before the value after them is read. */
  method DecodeObject(decoder: Decoder, depth: nat, limits: Limits) returns (result: Result<Json>)
    modifies decoder
    ensures Agrees(result, decoder.cursor, DecodeMembers(old(decoder.cursor), depth, limits, []))
    decreases |decoder.cursor.rest|, 1
  {
    var members: seq<Member> := [];
    var seen: set<string> := {};
    ghost var read: seq<Member> := [];
    ghost var whole := DecodeMembers(decoder.cursor, depth, limits, []);
    while More(decoder.cursor)
      invariant |decoder.cursor.rest| <= old(|decoder.cursor.rest|)
      invariant members == CanonMembers(read)
      invariant forall key :: key in seen <==> HasKey(read, key)
      invariant whole == DecodeMembers(decoder.cursor, depth, limits, read)
      decreases |decoder.cursor.rest|
    {
      if |members| >= limits.maxObjectMembers { return Err(MaxObjectMembers); }
      var scan := decoder.Token();
      if !scan.Got? || !scan.token.TextToken? { return Err(MalformedJson); }
      var key := scan.token.text;
      var check := CheckText(key);
      if check.Some? { return Err(check.value); }
      if key in seen { return Err(DuplicateKey); }
      seen := seen + {key};
      ghost var before := decoder.cursor;
      var value := DecodeValue(decoder, depth, limits);
      if value.Err? { return value; }
      ghost var member := Member(key, Decode(before, depth, limits).value.doc);
      SeenGrows(read, member);
      read := read + [member];
      members := members + [Member(key, value.value)];
      assert members == CanonMembers(read);
    }
    var scan := decoder.Token();
    if scan.Got? && scan.token == Delim('}') { return Ok(Object(Ordering.Sort(members, KeyBefore))); }
    return Err(MalformedJson);
  }

  lemma SeenGrows(read: seq<Member>, member: Member)
    ensures forall key :: HasKey(read + [member], key) <==> HasKey(read, key) || key == member.key
  {
    forall key ensures HasKey(read + [member], key) <==> HasKey(read, key) || key == member.key {
      assert member in read + [member];
      assert forall m | m in read :: m in read + [member];
    }
  }

  /**
   `encodeRaw`, and with the input bound enforced `EncodeNormalizedJSON`: these bytes are returned exactly
   when the input is accepted JSON text and they are the canonical bytes of what it denotes.
   */
  method EncodeRawDocument(raw: string, enforceInputBound: bool, limits: Limits) returns (result: Result<string>)
    ensures result == EncodeRaw(raw, enforceInputBound, limits)
    ensures forall bytes :: result == Ok(bytes) <==> CanonicalBytesOf(bytes, raw, enforceInputBound, limits)
  {
    hide CanonicalBytesOf;
    forall bytes ensures EncodeRaw(raw, enforceInputBound, limits) == Ok(bytes)
                         <==> CanonicalBytesOf(bytes, raw, enforceInputBound, limits) {
      EncodeRawExactly(raw, enforceInputBound, limits, bytes);
    }
    if enforceInputBound && |raw| > limits.maxInputBytes { return Err(MaxInputBytes); }
    if !Utf8.Valid(raw) { return Err(InvalidUtf8); }
    var decoder := new Decoder(raw);
    var value := DecodeValue(decoder, 0, limits);
    if value.Err? { return Err(value.error); }
    var scan := decoder.Token();
    if !scan.EndOfInput? { return Err(TrailingData); }
    var writer := new BoundedWriter(limits.maxOutputBytes);
    var ok := EncodeCanonical(writer, value.value);
    if !ok { return Err(MaxOutputBytes); }
    assert "" + Encode(value.value) == Encode(value.value);
    return Ok(writer.buffer);
  }
}
