/**
 JSON values and their canonical text: what `encodeCanonical` and `encodeString` write, and the
 bounded buffer they write through.
 */
module JsonEncoding {
  import Utf8

  /**
   A JSON document as read (members in document order, numbers as spelled), or as it is about to be
   encoded (members sorted by key, numbers in canonical spelling).
   */
  datatype Json =
    | Null
    | Bool(flag: bool)
    | Text(text: string)
    | Number(spelling: string)
    | Array(elements: seq<Json>)
    | Object(members: seq<Member>)

  datatype Member = Member(key: string, value: Json)

  // ---------------------------------------------------------------- the text of a value

  function HexDigit(d: nat): char
    requires d < 16
  {
    if d < 10 then ('0' as int + d) as char else ('a' as int + d - 10) as char
  }

  predicate NeedsEscape(c: char) { c == '\\' || c == '"' || c as int < 0x20 }

  /** One byte of a string in JSON text: RFC 8259, section 7, escaping only what must be escaped. */
  function EscapeByte(c: char): (e: string)
    ensures e != ""
    ensures !NeedsEscape(c) ==> e == [c]
  {
    if c == '\\' then "\\\\"
    else if c == '"' then "\\\""
    else if c as int == 0x08 then "\\b"
    else if c as int == 0x0C then "\\f"
    else if c == '\n' then "\\n"
    else if c == '\r' then "\\r"
    else if c == '\t' then "\\t"
    else if c as int < 0x20 then "\\u00" + [HexDigit(c as int / 16), HexDigit(c as int % 16)]
    else [c]
  }

  function Escape(s: string): string {
    if s == "" then "" else EscapeByte(s[0]) + Escape(s[1..])
  }

  function Quote(s: string): string { "\"" + Escape(s) + "\"" }

  /** The encoding of a value, without any bound on its size. */
  function Encode(v: Json): string
    decreases v, 0
  {
    match v
    case Null => "null"
    case Bool(flag) => if flag then "true" else "false"
    case Text(text) => Quote(text)
    case Number(spelling) => spelling
    case Array(elements) => "[" + ElementsFrom(elements, 0) + "]"
    case Object(members) => "{" + MembersFrom(members, 0) + "}"
  }

  function Comma(i: nat): string { if i > 0 then "," else "" }

  /** The elements from position `i` on, each but the first of all after a comma. */
  function ElementsFrom(vs: seq<Json>, i: nat): string
    decreases vs, |vs| - i
  {
    if i >= |vs| then "" else Comma(i) + Encode(vs[i]) + ElementsFrom(vs, i + 1)
  }

  function MemberText(m: Member): string
    decreases m, 1
  {
    Quote(m.key) + ":" + Encode(m.value)
  }

  function MembersFrom(ms: seq<Member>, i: nat): string
    decreases ms, |ms| - i
  {
    if i >= |ms| then "" else Comma(i) + MemberText(ms[i]) + MembersFrom(ms, i + 1)
  }

  // ---------------------------------------------------------------- escaping in chunks

  lemma EscapeStep(c: char, rest: string)
    ensures Escape([c] + rest) == EscapeByte(c) + Escape(rest)
  {
    assert ([c] + rest)[1..] == rest;
  }

  lemma {:induction false} EscapeConcat(a: string, b: string)
    ensures Escape(a + b) == Escape(a) + Escape(b)
  {
    if a == "" {
      assert a + b == b;
    } else {
      var c, rest := a[0], a[1..];
      assert a == [c] + rest;
      EscapeConcat(rest, b);
      EscapeStep(c, rest);
      EscapeStep(c, rest + b);
      Utf8.Associative([c], rest, b);
      Utf8.Associative(EscapeByte(c), Escape(rest), Escape(b));
    }
  }

  lemma {:induction false} EscapeVerbatim(s: string)
    requires forall i | 0 <= i < |s| :: !NeedsEscape(s[i])
    ensures Escape(s) == s
  {
    if s != "" {
      EscapeVerbatim(s[1..]);
      assert s == [s[0]] + s[1..];
    }
  }

  lemma EscapeOne(s: string)
    requires |s| == 1
    ensures Escape(s) == EscapeByte(s[0])
  {
    assert Escape(s[1..]) == "";
  }

  lemma EscapeAscii(c: char)
    requires c as int < 0x80
    ensures Utf8.Ascii(EscapeByte(c))
  {
  }

  lemma EscapeRune(rune: string)
    requires Utf8.ValidWidth(rune) == |rune| > 0
    ensures Utf8.Valid(Escape(rune))
  {
    if |rune| == 1 {
      EscapeOne(rune);
      EscapeAscii(rune[0]);
      Utf8.AsciiValid(EscapeByte(rune[0]));
    } else {
      forall i | 0 <= i < |rune| ensures !NeedsEscape(rune[i]) { Utf8.WideRune(rune, i); }
      EscapeVerbatim(rune);
    }
  }

  /** Escaping keeps UTF-8 validity. */
  lemma {:induction false} EscapeValid(s: string)
    requires Utf8.Valid(s)
    ensures Utf8.Valid(Escape(s))
    decreases |s|
  {
    if s != "" {
      var rune, rest := Utf8.FirstRune(s);
      EscapeRune(rune);
      EscapeValid(rest);
      EscapeConcat(rune, rest);
      Utf8.ValidConcat(Escape(rune), Escape(rest));
    }
  }

  /** The bytes a `range` loop steps over need no escape unless the rune is one escapable byte. */
  lemma RuneVerbatim(value: string, index: nat)
    requires index < |value|
    requires Utf8.RuneWidth(value[index..]) > 1 || !NeedsEscape(value[index])
    ensures forall i | index <= i < index + Utf8.RuneWidth(value[index..]) :: !NeedsEscape(value[i])
  {
    var width := Utf8.RuneWidth(value[index..]);
    forall i | index <= i < index + width ensures !NeedsEscape(value[i]) {
      if width > 1 {
        Utf8.WideRune(value[index..], i - index);
        assert value[index..][i - index] == value[i];
      }
    }
  }

  // ---------------------------------------------------------------- the bounded buffer

  /** `boundedWriter`: a buffer that never grows beyond `maximum` bytes. */
  class BoundedWriter {
    const maximum: nat
    var buffer: string

    predicate Valid() reads this { |buffer| <= maximum }

    constructor (maximum: nat)
      ensures Valid() && this.maximum == maximum && buffer == ""
    {
      this.maximum := maximum;
      buffer := "";
    }

    /** What a write of `total` bytes in several pieces leaves behind, and when it succeeds. */
    twostate predicate Wrote(text: string, ok: bool)
      reads this
    {
      && Valid()
      && (ok <==> |old(buffer)| + |text| <= maximum)
      && (ok ==> buffer == old(buffer) + text)
      && (!ok ==> old(buffer) <= buffer <= old(buffer) + text)
    }

    method WriteString(value: string) returns (ok: bool)
      requires Valid()
      modifies this
      ensures Wrote(value, ok)
      ensures !ok ==> buffer == old(buffer)
    {
      if |value| > maximum - |buffer| {
        return false;
      }
      buffer := buffer + value;
      return true;
    }
  }

  /** Between two turns of the loop: what is written, and what waits from `start` on, of which a part is verbatim. */
  ghost predicate Remains(value: string, start: nat, index: nat, written: string, total: string) {
    && start <= index <= |value|
    && (forall i | start <= i < index :: !NeedsEscape(value[i]))
    && total == written + (Escape(value[start..]) + "\"")
  }

  /**
   `encodeString`: runs of bytes that need no escape are copied in one piece; the loop advances rune
   by rune. The result is the byte-by-byte escape map.
   */
  method EncodeString(writer: BoundedWriter, value: string) returns (ok: bool)
    requires writer.Valid()
    modifies writer
    ensures writer.Wrote(Quote(value), ok)
  {
    hide Escape, NeedsEscape, EscapeByte;
    ghost var before := writer.buffer;
    ghost var total := before + Quote(value);
    ok := writer.WriteString("\"");
    if !ok { return; }
    QuoteFrom(before, value);
    var start, index := 0, 0;
    while index < |value|
      invariant Remains(value, start, index, writer.buffer, total)
      invariant writer.Valid() && before <= writer.buffer
    {
      var width := Utf8.RuneWidth(value[index..]);
      if width > 1 || !NeedsEscape(value[index]) {
        RuneVerbatim(value, index);
        index := index + width;
        continue;
      }
      ok := WriteEscaped(writer, value, start, index, total);
      if !ok { return; }
      start := index + 1;
      index := start;
    }
    ok := WriteLast(writer, value, start, total);
  }

  /** The pending chunk and the escape of the byte after it. */
  method WriteEscaped(writer: BoundedWriter, value: string, start: nat, index: nat, ghost total: string)
    returns (ok: bool)
    requires writer.Valid() && index < |value| && Remains(value, start, index, writer.buffer, total)
    modifies writer
    ensures writer.Valid() && old(writer.buffer) <= writer.buffer
    ensures ok ==> Remains(value, index + 1, index + 1, writer.buffer, total)
    ensures !ok ==> |total| > writer.maximum && writer.buffer <= total
  {
    ChunkThenEscape(value, start, index);
    ok := WriteChunk(writer, value[start..index], EscapeByte(value[index]), Escape(value[index + 1..]) + "\"", total);
  }

  /** The last chunk and the closing quote. */
  method WriteLast(writer: BoundedWriter, value: string, start: nat, ghost total: string) returns (ok: bool)
    requires writer.Valid() && Remains(value, start, |value|, writer.buffer, total)
    modifies writer
    ensures writer.Valid() && old(writer.buffer) <= writer.buffer
    ensures ok ==> total == writer.buffer
    ensures !ok ==> |total| > writer.maximum && writer.buffer <= total
  {
    EscapeVerbatim(value[start..]);
    ok := WriteChunk(writer, value[start..], "\"", "", total);
    assert writer.buffer + "" == writer.buffer;
  }

  lemma QuoteFrom(before: string, value: string)
    ensures before + Quote(value) == (before + "\"") + (Escape(value[0..]) + "\"")
  {
    assert value[0..] == value;
    Utf8.Associative("\"", Escape(value), "\"");
    Utf8.Associative(before, "\"", Escape(value) + "\"");
  }

  /** Escaping the rest of a string is a verbatim chunk, one escape, and the escaped remainder. */
  lemma ChunkThenEscape(value: string, start: nat, index: nat)
    requires start <= index < |value|
    requires forall i | start <= i < index :: !NeedsEscape(value[i])
    ensures Escape(value[start..]) + "\""
            == value[start..index] + (EscapeByte(value[index]) + (Escape(value[index + 1..]) + "\""))
  {
    assert value[start..] == value[start..index] + value[index..];
    EscapeConcat(value[start..index], value[index..]);
    EscapeVerbatim(value[start..index]);
    assert value[index..][1..] == value[index + 1..];
    Utf8.Associative(value[start..index], Escape(value[index..]), "\"");
    Utf8.Associative(EscapeByte(value[index]), Escape(value[index + 1..]), "\"");
  }

  /** Two writes that are part of a longer text: they fail only if the whole text cannot fit. */
  method WriteChunk(writer: BoundedWriter, chunk: string, escaped: string, ghost rest: string, ghost total: string)
    returns (ok: bool)
    requires writer.Valid() && total == writer.buffer + (chunk + (escaped + rest))
    modifies writer
    ensures writer.Valid() && old(writer.buffer) <= writer.buffer
    ensures ok ==> total == writer.buffer + rest
    ensures !ok ==> |total| > writer.maximum && writer.buffer <= total
  {
    ok := writer.WriteString(chunk);
    if !ok { return; }
    Utf8.Associative(old(writer.buffer), chunk, escaped + rest);
    ghost var middle := writer.buffer;
    ok := writer.WriteString(escaped);
    Utf8.Associative(middle, escaped, rest);
  }

  // ---------------------------------------------------------------- encoding values

  /** Moving two written pieces from the text still to come to the text already there. */
  lemma Regroup(written: string, a: string, b: string, rest: string, close: string)
    ensures written + (((a + b) + rest) + close) == (written + a) + (b + (rest + close))
    ensures (written + a) + (b + (rest + close)) == ((written + a) + b) + (rest + close)
  {
    Utf8.Associative(a + b, rest, close);
    Utf8.Associative(a, b, rest + close);
    Utf8.Associative(written, a, b + (rest + close));
    Utf8.Associative(written + a, b, rest + close);
  }

  /** `encodeCanonical`: succeeds exactly when the whole encoding fits, and then writes all of it. */
  method EncodeCanonical(writer: BoundedWriter, value: Json) returns (ok: bool)
    requires writer.Valid()
    modifies writer
    ensures writer.Wrote(Encode(value), ok)
    decreases value, 0
  {
    match value
    case Null => ok := writer.WriteString("null");
    case Bool(flag) => ok := writer.WriteString(if flag then "true" else "false");
    case Text(text) => ok := EncodeString(writer, text);
    case Number(spelling) => ok := writer.WriteString(spelling);
    case Array(elements) => ok := EncodeArray(writer, elements);
    case Object(members) => ok := EncodeObject(writer, members);
  }

  /** One turn of the array loop: a comma unless it is the first, then the element. */
  method NextElement(writer: BoundedWriter, elements: seq<Json>, index: nat, ghost total: string) returns (ok: bool)
    requires writer.Valid() && index < |elements|
    requires total == writer.buffer + (ElementsFrom(elements, index) + "]")
    modifies writer
    ensures writer.Valid() && old(writer.buffer) <= writer.buffer
    ensures ok ==> total == writer.buffer + (ElementsFrom(elements, index + 1) + "]")
    ensures !ok ==> |total| > writer.maximum && writer.buffer <= total
    decreases elements, 0
  {
    Regroup(writer.buffer, Comma(index), Encode(elements[index]), ElementsFrom(elements, index + 1), "]");
    if index > 0 {
      ok := writer.WriteString(",");
      if !ok { return; }
    }
    ghost var written := writer.buffer;
    assert written == old(writer.buffer) + Comma(index);
    ok := EncodeCanonical(writer, elements[index]);
  }

  method EncodeArray(writer: BoundedWriter, elements: seq<Json>) returns (ok: bool)
    requires writer.Valid()
    modifies writer
    ensures writer.Wrote("[" + ElementsFrom(elements, 0) + "]", ok)
    decreases elements, 1
  {
    ghost var before := writer.buffer;
    ghost var total := before + ("[" + ElementsFrom(elements, 0) + "]");
    ok := writer.WriteString("[");
    if !ok { return; }
    Open(before, "[", ElementsFrom(elements, 0), "]");
    for index := 0 to |elements|
      invariant writer.Valid() && before <= writer.buffer
      invariant total == writer.buffer + (ElementsFrom(elements, index) + "]")
    {
      ok := NextElement(writer, elements, index, total);
      if !ok { return; }
    }
    ok := writer.WriteString("]");
  }

  lemma Open(before: string, open: string, body: string, close: string)
    ensures before + (open + body + close) == (before + open) + (body + close)
  {
    Utf8.Associative(open, body, close);
    Utf8.Associative(before, open, body + close);
  }

  /** One turn of the object loop: a comma unless it is the first, then the member. */
  method NextMember(writer: BoundedWriter, members: seq<Member>, index: nat, ghost total: string) returns (ok: bool)
    requires writer.Valid() && index < |members|
    requires total == writer.buffer + (MembersFrom(members, index) + "}")
    modifies writer
    ensures writer.Valid() && old(writer.buffer) <= writer.buffer
    ensures ok ==> total == writer.buffer + (MembersFrom(members, index + 1) + "}")
    ensures !ok ==> |total| > writer.maximum && writer.buffer <= total
    decreases members, 0
  {
    Regroup(writer.buffer, Comma(index), MemberText(members[index]), MembersFrom(members, index + 1), "}");
    if index > 0 {
      ok := writer.WriteString(",");
      if !ok { return; }
    }
    ghost var written := writer.buffer;
    assert written == old(writer.buffer) + Comma(index);
    ok := EncodeMember(writer, members[index]);
  }

  method EncodeObject(writer: BoundedWriter, members: seq<Member>) returns (ok: bool)
    requires writer.Valid()
    modifies writer
    ensures writer.Wrote("{" + MembersFrom(members, 0) + "}", ok)
    decreases members, 1
  {
    ghost var before := writer.buffer;
    ghost var total := before + ("{" + MembersFrom(members, 0) + "}");
    ok := writer.WriteString("{");
    if !ok { return; }
    Open(before, "{", MembersFrom(members, 0), "}");
    for index := 0 to |members|
      invariant writer.Valid() && before <= writer.buffer
      invariant total == writer.buffer + (MembersFrom(members, index) + "}")
    {
      ok := NextMember(writer, members, index, total);
      if !ok { return; }
    }
    ok := writer.WriteString("}");
  }

  method EncodeMember(writer: BoundedWriter, member: Member) returns (ok: bool)
    requires writer.Valid()
    modifies writer
    ensures writer.Wrote(MemberText(member), ok)
    decreases member, 1
  {
    ghost var before := writer.buffer;
    Open(before, Quote(member.key), ":", Encode(member.value));
    ok := EncodeString(writer, member.key);
    if !ok { return; }
    Utf8.Associative(before + Quote(member.key), ":", Encode(member.value));
    ok := writer.WriteString(":");
    if !ok { return; }
    ok := EncodeCanonical(writer, member.value);
  }
}
