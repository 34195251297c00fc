/**
  A processing instruction's attributes (ctbrowser/lib/DOM/document.cpp): the parser of
  pseudo-attributes (section 3 of the xml-stylesheet recommendation), the serialiser,
  and exactly which attribute lists survive being written and read back.
 */
module PseudoAttributes {
  import opened Options
  import opened Utf8
  import opened DomStore
  import Lists

  const SPACE: Byte := 0x20
  const QUOT: Byte := 0x22
  const AMP: Byte := 0x26
  const APOS: Byte := 0x27
  const SEMICOLON: Byte := 0x3B
  const LESS: Byte := 0x3C
  const EQUALS: Byte := 0x3D
  const GREATER: Byte := 0x3E

  predicate IsXmlSpace(b: Byte) { b == 0x20 || b == 0x09 || b == 0x0D || b == 0x0A }

  /** `pi_name_start`. */
  predicate IsNameStart(b: Byte) {
    0x61 <= b <= 0x7A || 0x41 <= b <= 0x5A || b == 0x5F || b == 0x3A || b >= 0x80
  }

  /** `pi_name_char`. */
  predicate IsNameChar(b: Byte) { IsNameStart(b) || 0x30 <= b <= 0x39 || b == 0x2D || b == 0x2E }

  predicate ValidName(name: Bytes) {
    name != [] && IsNameStart(name[0]) && forall i :: 0 <= i < |name| ==> IsNameChar(name[i])
  }

  predicate HasName(attributes: seq<Attribute>, name: Bytes) {
    exists i :: 0 <= i < |attributes| && attributes[i].name == name
  }

  /** Every name is a valid one, and no two are the same. */
  predicate WellNamed(attributes: seq<Attribute>) {
    && (forall i :: 0 <= i < |attributes| ==> ValidName(attributes[i].name))
    && (forall i, j :: 0 <= i < j < |attributes| ==> attributes[i].name != attributes[j].name)
  }

  // --- What the parser computes ------------------------------------------------------

  function SkipXml(s: Bytes): (r: Bytes)
    ensures |r| <= |s|
  {
    if s != [] && IsXmlSpace(s[0]) then SkipXml(s[1..]) else s
  }

  function NameLength(s: Bytes): (n: nat)
    ensures n <= |s|
  {
    if s != [] && IsNameChar(s[0]) then 1 + NameLength(s[1..]) else 0
  }

  /** Where the first `b` is, or the end. */
  function IndexOfByte(s: Bytes, b: Byte): (i: nat)
    ensures i <= |s|
    ensures i < |s| ==> s[i] == b
    ensures forall j :: 0 <= j < i ==> s[j] != b
  {
    if s == [] || s[0] == b then 0 else 1 + IndexOfByte(s[1..], b)
  }

  /** The byte one of the five predefined entities names. */
  function Predefined(body: Bytes): Option<Byte> {
    if body == [0x61, 0x6D, 0x70] then Some(AMP)
    else if body == [0x6C, 0x74] then Some(LESS)
    else if body == [0x67, 0x74] then Some(GREATER)
    else if body == [0x71, 0x75, 0x6F, 0x74] then Some(QUOT)
    else if body == [0x61, 0x70, 0x6F, 0x73] then Some(APOS)
    else None
  }

  function DigitValue(d: Byte, hex: bool): (v: int)
    ensures -1 <= v < 16
  {
    if hex then HexValue(d) else if 0x30 <= d <= 0x39 then d as int - 0x30 else -1
  }

  /** The code the digits spell after `code`; stops once past the last code point. */
  function CodeOf(digits: Bytes, hex: bool, code: nat): (r: Option<nat>) {
    if digits == [] then Some(code)
    else
      var v := DigitValue(digits[0], hex);
      if v < 0 || code > 0x10_FFFF then None
      else CodeOf(digits[1..], hex, if hex then code * 16 + v else code * 10 + v)
  }

  /** XML's Char production. */
  predicate IsXmlChar(c: nat) {
    c == 0x9 || c == 0xA || c == 0xD || 0x20 <= c <= 0xD7FF || 0xE000 <= c <= 0xFFFD || 0x1_0000 <= c <= 0x10_FFFF
  }

  /** What the text between `&` and `;` stands for. */
  function Resolved(body: Bytes): (r: Option<Bytes>) {
    if Predefined(body).Some? then Some([Predefined(body).value])
    else if |body| < 2 || body[0] != 0x23 then None
    else
      var hex := body[1] == 0x78;
      var digits := if hex then body[2..] else body[1..];
      if digits == [] then None
      else
        match CodeOf(digits, hex, 0)
        case None => None
        case Some(code) => if IsXmlChar(code) then Some(Encode(code)) else None
  }

  datatype Read = Read(value: Bytes, rest: Bytes)

  /** A quoted value after its opening quote, appended to `acc`. */
  function ReadQuoted(s: Bytes, quote: Byte, acc: Bytes): (r: Option<Read>)
    ensures r.Some? ==> |r.value.rest| < |s|
    decreases |s|
  {
    if s == [] then None
    else if s[0] == quote then Some(Read(acc, s[1..]))
    else if s[0] == LESS then None
    else if s[0] == AMP then
      var end := IndexOfByte(s, SEMICOLON);
      if end == |s| then None
      else
        match Resolved(s[1..end])
        case None => None
        case Some(bytes) => ReadQuoted(s[end + 1..], quote, acc + bytes)
    else ReadQuoted(s[1..], quote, acc + [s[0]])
  }

  /** After a name: `=` and a quoted value, with white space around the sign. */
  function ReadAssigned(s: Bytes): (r: Option<Read>)
    ensures r.Some? ==> |r.value.rest| < |s|
  {
    var t := SkipXml(s);
    if t == [] || t[0] != EQUALS then None
    else
      var u := SkipXml(t[1..]);
      if u == [] || (u[0] != QUOT && u[0] != APOS) then None else ReadQuoted(u[1..], u[0], [])
  }

  /** The attributes of `s` after those of `out`, or nothing when it is not well-formed. */
  function ReadAll(s: Bytes, out: seq<Attribute>): (r: Option<seq<Attribute>>)
    decreases |s|
  {
    var t := SkipXml(s);
    if t == [] then Some(out)
    else if (out != [] && t == s) || !IsNameStart(t[0]) then None
    else
      var name := t[..NameLength(t)];
      match ReadAssigned(t[NameLength(t)..])
      case None => None
      case Some(read) =>
        if HasName(out, name) then None else ReadAll(read.rest, out + [Attribute(name, read.value)])
  }

  /** `parse_pseudo_attributes`. */
  function Parsed(data: Bytes): (r: Option<seq<Attribute>>) { ReadAll(data, []) }

  // --- The parser itself ---------------------------------------------------------------

  method SkipSpace(data: Bytes, start: nat) returns (at: nat)
    requires start <= |data|
    ensures start <= at <= |data| && data[at..] == SkipXml(data[start..])
    ensures at == start <==> SkipXml(data[start..]) == data[start..]
  {
    at := start;
    while at < |data| && IsXmlSpace(data[at])
      invariant start <= at <= |data|
      invariant SkipXml(data[at..]) == SkipXml(data[start..])
    {
      assert data[at..][1..] == data[at + 1..];
      at := at + 1;
    }
    assert |data[at..]| == |data| - at && |data[start..]| == |data| - start;
  }

  /** The loop over the digits of a character reference. */
  method ReadCode(digits: Bytes, hex: bool) returns (r: Option<nat>)
    ensures r == CodeOf(digits, hex, 0)
  {
    var code: nat := 0;
    var i := 0;
    while i < |digits|
      invariant i <= |digits|
      invariant CodeOf(digits[i..], hex, code) == CodeOf(digits, hex, 0)
    {
      assert digits[i..][1..] == digits[i + 1..];
      var v := DigitValue(digits[i], hex);
      if v < 0 || code > 0x10_FFFF {
        return None;
      }
      code := if hex then code * 16 + v else code * 10 + v;
      i := i + 1;
    }
    return Some(code);
  }

  /** `reference`, the cursor on its `&`. */
  method Reference(data: Bytes, start: nat) returns (ok: bool, text: Bytes, at: nat)
    requires start < |data| && data[start] == AMP
    ensures start <= at <= |data|
    ensures var end := IndexOfByte(data[start..], SEMICOLON);
            ok == (end < |data[start..]| && Resolved(data[start..][1..end]).Some?)
            && (ok ==> at == start + end + 1 && Some(text) == Resolved(data[start..][1..end]))
  {
    hide CodeOf;
    ghost var s := data[start..];
    text, at := [], start;
    while at < |data| && data[at] != SEMICOLON
      invariant start <= at <= |data|
      invariant forall k :: 0 <= k < at - start ==> s[k] != SEMICOLON
    {
      assert s[at - start] == data[at];
      at := at + 1;
    }
    if at == |data| {
      return false, [], at;
    }
    assert s[at - start] == SEMICOLON;
    FirstByteIs(s, SEMICOLON, at - start);
    var body := data[start + 1..at];
    assert body == s[1..at - start];
    hide IndexOfByte;
    at := at + 1;
    if Predefined(body).Some? {
      return true, [Predefined(body).value], at;
    }
    hide Predefined;
    if |body| < 2 || body[0] != 0x23 {
      return false, [], at;
    }
    var hex := body[1] == 0x78;
    var digits := if hex then body[2..] else body[1..];
    if digits == [] {
      return false, [], at;
    }
    var code := ReadCode(digits, hex);
    if code.None? || !IsXmlChar(code.value) {
      return false, [], at;
    }
    return true, Encode(code.value), at;
  }

  /** One turn of the loop over a quoted value. */
  lemma QuotedStep(data: Bytes, at: nat, quote: Byte, acc: Bytes)
    requires at <= |data|
    ensures var s := data[at..];
            ReadQuoted(s, quote, acc) ==
              if at == |data| then None
              else if data[at] == quote then Some(Read(acc, data[at + 1..]))
              else if data[at] == LESS then None
              else if data[at] == AMP then
                var end := IndexOfByte(s, SEMICOLON);
                if end == |s| || Resolved(s[1..end]).None? then None
                else ReadQuoted(data[at + end + 1..], quote, acc + Resolved(s[1..end]).value)
              else ReadQuoted(data[at + 1..], quote, acc + [data[at]])
  {
    hide Resolved;
    var s := data[at..];
    if at < |data| {
      assert s[0] == data[at] && s[1..] == data[at + 1..];
      var end := IndexOfByte(s, SEMICOLON);
      if end < |s| {
        assert s[end + 1..] == data[at + end + 1..];
      }
    }
  }

  /** The loop over a quoted value, the cursor after its opening quote. */
  method QuotedValue(data: Bytes, start: nat, quote: Byte) returns (ok: bool, value: Bytes, at: nat)
    requires start <= |data|
    ensures start <= at <= |data|
    ensures var r := ReadQuoted(data[start..], quote, []);
            ok == r.Some? && (ok ==> start < at && r.value == Read(value, data[at..]))
  {
    hide ReadQuoted, Resolved, IndexOfByte;
    value, at := [], start;
    while true
      invariant start <= at <= |data|
      invariant ReadQuoted(data[at..], quote, value) == ReadQuoted(data[start..], quote, [])
      decreases |data| - at
    {
      QuotedStep(data, at, quote, value);
      if at >= |data| {
        return false, value, at;
      }
      var c := data[at];
      if c == quote {
        return true, value, at + 1;
      }
      if c == LESS {
        return false, value, at;
      }
      if c == AMP {
        var good, text, next := Reference(data, at);
        if !good {
          return false, value, at;
        }
        value := value + text;
        at := next;
        continue;
      }
      value := value + [c];
      at := at + 1;
    }
  }

  /** The sign and the quoted value after a name. */
  method AssignedValue(data: Bytes, start: nat) returns (ok: bool, value: Bytes, at: nat)
    requires start <= |data|
    ensures start <= at <= |data|
    ensures var r := ReadAssigned(data[start..]);
            ok == r.Some? && (ok ==> start < at && r.value == Read(value, data[at..]))
  {
    hide ReadQuoted, SkipXml;
    at := SkipSpace(data, start);
    if at >= |data| || data[at] != EQUALS {
      return false, [], at;
    }
    assert data[at..][1..] == data[at + 1..];
    at := SkipSpace(data, at + 1);
    if at >= |data| || (data[at] != QUOT && data[at] != APOS) {
      return false, [], at;
    }
    assert data[at..][1..] == data[at + 1..];
    ok, value, at := QuotedValue(data, at + 1, data[at]);
  }

  /** `parse_pseudo_attributes`. */
  method ParsePseudoAttributes(data: Bytes) returns (r: Option<seq<Attribute>>)
    ensures r == Parsed(data)
  {
    hide ReadAssigned, SkipXml;
    var out: seq<Attribute> := [];
    var at := 0;
    assert data[0..] == data;
    while true
      invariant at <= |data|
      invariant ReadAll(data[at..], out) == Parsed(data)
      decreases |data| - at
    {
      var start := at;
      at := SkipSpace(data, at);
      if at == |data| {
        return Some(out);
      }
      if (out != [] && at == start) || !IsNameStart(data[at]) {
        return None;
      }
      var nameBegin := at;
      at := SkipName(data, at);
      var name := data[nameBegin..at];
      ghost var t := data[nameBegin..];
      assert name == t[..NameLength(t)] && t[NameLength(t)..] == data[at..];
      var good, value, next := AssignedValue(data, at);
      if !good || HasName(out, name) {
        return None;
      }
      at := next;
      out := out + [Attribute(name, value)];
    }
  }

  method SkipName(data: Bytes, start: nat) returns (at: nat)
    requires start <= |data|
    ensures start <= at <= |data| && at - start == NameLength(data[start..])
  {
    at := start;
    while at < |data| && IsNameChar(data[at])
      invariant start <= at <= |data|
      invariant at - start + NameLength(data[at..]) == NameLength(data[start..])
    {
      assert data[at..][1..] == data[at + 1..];
      at := at + 1;
    }
  }

  // --- The serialiser --------------------------------------------------------------------

  /** How one byte of a value is written. */
  function EscapedByte(b: Byte): (s: Bytes) {
    if b == AMP then [AMP, 0x61, 0x6D, 0x70, SEMICOLON]
    else if b == LESS then [AMP, 0x6C, 0x74, SEMICOLON]
    else if b == GREATER then [AMP, 0x67, 0x74, SEMICOLON]
    else if b == QUOT then [AMP, 0x71, 0x75, 0x6F, 0x74, SEMICOLON]
    else [b]
  }

  function EscapedValue(value: Bytes): (s: Bytes) {
    if value == [] then [] else EscapedByte(value[0]) + EscapedValue(value[1..])
  }

  function Assignment(a: Attribute): (s: Bytes)
    ensures s != []
  {
    a.name + ([EQUALS, QUOT] + (EscapedValue(a.value) + [QUOT]))
  }

  /** Further attributes, each after one space. */
  function Further(attributes: seq<Attribute>): (s: Bytes) {
    if attributes == [] then []
    else [SPACE] + (Assignment(attributes[0]) + Further(attributes[1..]))
  }

  function Serialized(attributes: seq<Attribute>): (s: Bytes) {
    if attributes == [] then [] else Assignment(attributes[0]) + Further(attributes[1..])
  }

  lemma {:induction false} FurtherSnoc(attributes: seq<Attribute>, a: Attribute)
    ensures Further(attributes + [a]) == Further(attributes) + ([SPACE] + Assignment(a))
  {
    if attributes == [] {
      assert attributes + [a] == [a];
    } else {
      assert (attributes + [a])[1..] == attributes[1..] + [a];
      FurtherSnoc(attributes[1..], a);
    }
  }

  lemma SerializedSnoc(attributes: seq<Attribute>, a: Attribute)
    ensures Serialized(attributes + [a]) ==
            Serialized(attributes) + ((if attributes == [] then [] else [SPACE]) + Assignment(a))
    ensures Serialized(attributes) == [] <==> attributes == []
  {
    if attributes == [] {
      assert attributes + [a] == [a];
    } else {
      assert (attributes + [a])[1..] == attributes[1..] + [a];
      FurtherSnoc(attributes[1..], a);
    }
  }

  lemma {:induction false} EscapedSnoc(value: Bytes, b: Byte)
    ensures EscapedValue(value + [b]) == EscapedValue(value) + EscapedByte(b)
  {
    if value == [] {
      assert value + [b] == [b];
    } else {
      assert (value + [b])[1..] == value[1..] + [b];
      EscapedSnoc(value[1..], b);
    }
  }

  method EscapeValue(value: Bytes) returns (s: Bytes)
    ensures s == EscapedValue(value)
  {
    s := [];
    for k := 0 to |value|
      invariant s == EscapedValue(value[..k])
    {
      assert value[..k + 1] == value[..k] + [value[k]];
      EscapedSnoc(value[..k], value[k]);
      s := s + EscapedByte(value[k]);
    }
    assert value[..|value|] == value;
  }

  /** `serialize_pseudo_attributes`. */
  method SerializePseudoAttributes(attributes: seq<Attribute>) returns (data: Bytes)
    ensures data == Serialized(attributes)
  {
    hide EscapedValue, Serialized;
    data := [];
    NothingSerialized();
    for i := 0 to |attributes|
      invariant data == Serialized(attributes[..i])
    {
      var a := attributes[i];
      ghost var before := data;
      assert attributes[..i + 1] == attributes[..i] + [a];
      SerializedSnoc(attributes[..i], a);
      if data != [] {
        data := data + [SPACE];
      }
      var escaped := EscapeValue(a.value);
      ghost var spaced := data;
      data := data + a.name;
      data := data + [EQUALS, QUOT];
      data := data + escaped + [QUOT];
      assert data == spaced + Assignment(a);
      assert data == before + ((if attributes[..i] == [] then [] else [SPACE]) + Assignment(a));
    }
    assert attributes[..|attributes|] == attributes;
  }

  lemma NothingSerialized()
    ensures Serialized([]) == []
  {
  }

  // --- Written and read back -----------------------------------------------------------

  lemma FirstByteIs(s: Bytes, b: Byte, i: nat)
    requires i < |s| && s[i] == b && forall j :: 0 <= j < i ==> s[j] != b
    ensures IndexOfByte(s, b) == i
  {
  }

  lemma ReadsReference(body: Bytes, rest: Bytes, quote: Byte, acc: Bytes)
    requires Resolved(body).Some? && SEMICOLON !in body && quote != AMP
    ensures ReadQuoted([AMP] + body + [SEMICOLON] + rest, quote, acc) ==
            ReadQuoted(rest, quote, acc + Resolved(body).value)
  {
    hide Resolved;
    var s := [AMP] + body + [SEMICOLON] + rest;
    assert forall j :: 0 <= j < |body| ==> s[j + 1] == body[j];
    FirstByteIs(s, SEMICOLON, |body| + 1);
    assert s[1..|body| + 1] == body && s[|body| + 2..] == rest;
  }

  lemma ReadsByte(b: Byte, rest: Bytes, acc: Bytes)
    ensures ReadQuoted(EscapedByte(b) + rest, QUOT, acc) == ReadQuoted(rest, QUOT, acc + [b])
  {
    hide Resolved, IndexOfByte, ReadQuoted, Predefined;
    EntitiesAreResolved();
    if b == AMP {
      ReadsReference([0x61, 0x6D, 0x70], rest, QUOT, acc);
      assert EscapedByte(b) + rest == [AMP] + [0x61, 0x6D, 0x70] + [SEMICOLON] + rest;
    } else if b == LESS {
      ReadsReference([0x6C, 0x74], rest, QUOT, acc);
      assert EscapedByte(b) + rest == [AMP] + [0x6C, 0x74] + [SEMICOLON] + rest;
    } else if b == GREATER {
      ReadsReference([0x67, 0x74], rest, QUOT, acc);
      assert EscapedByte(b) + rest == [AMP] + [0x67, 0x74] + [SEMICOLON] + rest;
    } else if b == QUOT {
      ReadsReference([0x71, 0x75, 0x6F, 0x74], rest, QUOT, acc);
      assert EscapedByte(b) + rest == [AMP] + [0x71, 0x75, 0x6F, 0x74] + [SEMICOLON] + rest;
    } else {
      ReadsPlain(b, rest, acc);
    }
  }

  lemma EntitiesAreResolved()
    ensures Resolved([0x61, 0x6D, 0x70]) == Some([AMP]) && Resolved([0x6C, 0x74]) == Some([LESS])
    ensures Resolved([0x67, 0x74]) == Some([GREATER]) && Resolved([0x71, 0x75, 0x6F, 0x74]) == Some([QUOT])
    ensures Resolved([0x61, 0x70, 0x6F, 0x73]) == Some([APOS])
  {
  }

  lemma ReadsPlain(b: Byte, rest: Bytes, acc: Bytes)
    requires b != AMP && b != LESS && b != QUOT
    ensures ReadQuoted([b] + rest, QUOT, acc) == ReadQuoted(rest, QUOT, acc + [b])
  {
    assert ([b] + rest)[1..] == rest;
  }

  lemma {:induction false} ReadsValue(value: Bytes, rest: Bytes, acc: Bytes)
    ensures ReadQuoted(EscapedValue(value) + ([QUOT] + rest), QUOT, acc) == Some(Read(acc + value, rest))
    decreases |value|
  {
    hide EscapedByte, ReadQuoted, EscapedValue;
    var tail := [QUOT] + rest;
    if value == [] {
      ReadsEnd(rest, acc);
      assert [] + tail == tail && acc + value == acc;
    } else {
      var after := EscapedValue(value[1..]) + tail;
      EscapedCons(value, tail);
      ReadsByte(value[0], after, acc);
      ReadsValue(value[1..], rest, acc + [value[0]]);
      Lists.Regroup(acc, [value[0]], value[1..]);
      assert [value[0]] + value[1..] == value;
    }
  }

  lemma ReadsEnd(rest: Bytes, acc: Bytes)
    ensures EscapedValue([]) == [] && ReadQuoted([QUOT] + rest, QUOT, acc) == Some(Read(acc, rest))
  {
    assert ([QUOT] + rest)[1..] == rest;
  }

  lemma EscapedCons(value: Bytes, tail: Bytes)
    requires value != []
    ensures EscapedValue(value) + tail == EscapedByte(value[0]) + (EscapedValue(value[1..]) + tail)
  {
    hide EscapedByte;
  }

  lemma {:induction false} NameEnds(name: Bytes, s: Bytes)
    requires forall i :: 0 <= i < |name| ==> IsNameChar(name[i])
    requires s == [] || !IsNameChar(s[0])
    ensures NameLength(name + s) == |name|
  {
    if name == [] {
      assert name + s == s;
    } else {
      assert (name + s)[1..] == name[1..] + s;
      NameEnds(name[1..], s);
    }
  }

  /** One assignment is read, and the rest goes on from there. */
  lemma ReadsAssignment(a: Attribute, rest: Bytes, out: seq<Attribute>, spaces: Bytes)
    requires ValidName(a.name) && !HasName(out, a.name)
    requires spaces == if out == [] then [] else [SPACE]
    ensures ReadAll(spaces + (Assignment(a) + rest), out) == ReadAll(rest, out + [a])
  {
    hide ReadQuoted, EscapedValue, HasName;
    var t := Assignment(a) + rest;
    var s := spaces + t;
    var fromSign := [EQUALS, QUOT] + (EscapedValue(a.value) + ([QUOT] + rest));
    assert t == a.name + fromSign && t[0] == a.name[0];
    assert SkipXml(s) == t by {
      assert spaces != [] ==> s[1..] == t;
      assert spaces == [] ==> s == t;
    }
    NameEnds(a.name, fromSign);
    assert t[..|a.name|] == a.name && t[|a.name|..] == fromSign;
    assert fromSign[1..][0] == QUOT && fromSign[1..][1..] == EscapedValue(a.value) + ([QUOT] + rest);
    ReadsValue(a.value, rest, []);
    assert [] + a.value == a.value;
    assert ReadAssigned(fromSign) == Some(Read(a.value, rest));
    assert Attribute(a.name, a.value) == a;
  }

  lemma {:induction false} ReadsFurther(more: seq<Attribute>, out: seq<Attribute>)
    requires out != [] && WellNamed(out + more)
    ensures ReadAll(Further(more), out) == Some(out + more)
    decreases |more|
  {
    hide Assignment;
    if more == [] {
      assert out + more == out;
    } else {
      hide ReadAll;
      var a := more[0];
      assert (out + more)[|out|] == a;
      assert !HasName(out, a.name) by {
        assert forall i :: 0 <= i < |out| ==> (out + more)[i] == out[i];
      }
      ReadsAssignment(a, Further(more[1..]), out, [SPACE]);
      assert out + [a] + more[1..] == out + more;
      ReadsFurther(more[1..], out + [a]);
    }
  }

  /** Whatever the values, well-named attributes are read back as they were written. */
  lemma SerializedIsRead(attributes: seq<Attribute>)
    requires WellNamed(attributes)
    ensures Parsed(Serialized(attributes)) == Some(attributes)
  {
    hide ReadAll, Assignment, Further;
    if attributes == [] {
      NothingRead();
    } else {
      var a := attributes[0];
      ReadsAssignment(a, Further(attributes[1..]), [], []);
      assert [] + (Assignment(a) + Further(attributes[1..])) == Serialized(attributes);
      assert [] + [a] == [a] && [a] + attributes[1..] == attributes;
      ReadsFurther(attributes[1..], [a]);
    }
  }

  lemma NothingRead()
    ensures Parsed([]) == Some([]) && Serialized([]) == []
  {
  }

  lemma {:induction false} NameIsValid(s: Bytes)
    requires s != [] && IsNameStart(s[0])
    ensures ValidName(s[..NameLength(s)])
  {
    NameChars(s);
  }

  lemma {:induction false} NameChars(s: Bytes)
    ensures forall i :: 0 <= i < NameLength(s) ==> IsNameChar(s[i])
  {
    if s != [] && IsNameChar(s[0]) {
      NameChars(s[1..]);
      forall i | 0 <= i < NameLength(s) ensures IsNameChar(s[i]) {
        assert i > 0 ==> s[i] == s[1..][i - 1];
      }
    }
  }

  lemma {:induction false} ReadIsWellNamed(s: Bytes, out: seq<Attribute>)
    requires WellNamed(out)
    ensures ReadAll(s, out).Some? ==> WellNamed(ReadAll(s, out).value)
    decreases |s|
  {
    hide ReadAssigned;
    var t := SkipXml(s);
    if t != [] && !(out != [] && t == s) && IsNameStart(t[0]) {
      var name := t[..NameLength(t)];
      NameIsValid(t);
      var read := ReadAssigned(t[NameLength(t)..]);
      if read.Some? && !HasName(out, name) {
        var more := out + [Attribute(name, read.value.value)];
        assert WellNamed(more);
        ReadIsWellNamed(read.value.rest, more);
      }
    }
  }

  /** An attribute list is read back from its text exactly when it is well named. */
  lemma SerializedRoundTripExactly(attributes: seq<Attribute>)
    ensures Parsed(Serialized(attributes)) == Some(attributes) <==> WellNamed(attributes)
  {
    hide ReadAll, Serialized, WellNamed;
    if WellNamed(attributes) {
      SerializedIsRead(attributes);
    }
    NothingIsWellNamed();
    ReadIsWellNamed(Serialized(attributes), []);
  }

  lemma NothingIsWellNamed()
    ensures WellNamed([])
  {
  }
}
