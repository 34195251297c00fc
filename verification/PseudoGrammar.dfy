/**
  The pseudo-attributes of a processing instruction as section 3 of the xml-stylesheet
  recommendation writes them, and that `parse_pseudo_attributes` reads exactly those
  texts: assignments kept apart by white space, values between quotes of either kind,
  in them bytes as they are, the five predefined entities and character references.
 */
module PseudoGrammar {
  import opened Options
  import opened Utf8
  import opened DomStore
  import opened PseudoAttributes
  import Lists

  const HASH: Byte := 0x23
  const LETTER_X: Byte := 0x78

  // --- The grammar ----------------------------------------------------------------------

  /** One part of a value: a byte as it is, a predefined entity by its byte, or a numeric reference. */
  datatype Part =
    | Plain(byte: Byte)
    | Entity(byte: Byte)
    | Reference(hex: bool, digits: Bytes)

  datatype Written = Written(
    before: Bytes, name: Bytes, left: Bytes, right: Bytes, quote: Byte, value: seq<Part>)

  predicate AllXmlSpaces(s: Bytes) { forall i :: 0 <= i < |s| ==> IsXmlSpace(s[i]) }

  predicate AreDigits(digits: Bytes, hex: bool) {
    forall i :: 0 <= i < |digits| ==> DigitValue(digits[i], hex) >= 0
  }

  /** The number the digits spell. */
  function NumberOf(digits: Bytes, hex: bool): (n: nat)
    requires AreDigits(digits, hex)
  {
    if digits == [] then 0
    else
      var front, last := digits[..|digits| - 1], digits[|digits| - 1];
      NumberOf(front, hex) * (if hex then 16 else 10) + DigitValue(last, hex)
  }

  function EntityName(b: Byte): (name: Bytes) {
    if b == AMP then [0x61, 0x6D, 0x70]
    else if b == LESS then [0x6C, 0x74]
    else if b == GREATER then [0x67, 0x74]
    else if b == QUOT then [0x71, 0x75, 0x6F, 0x74]
    else [0x61, 0x70, 0x6F, 0x73]
  }

  predicate LegalPart(p: Part, quote: Byte) {
    match p
    case Plain(b) => b != quote && b != LESS && b != AMP
    case Entity(b) => b == AMP || b == LESS || b == GREATER || b == QUOT || b == APOS
    case Reference(hex, digits) => digits != [] && AreDigits(digits, hex) && IsXmlChar(NumberOf(digits, hex))
  }

  predicate LegalValue(value: seq<Part>, quote: Byte) { forall i :: 0 <= i < |value| ==> LegalPart(value[i], quote) }

  predicate LegalWritten(w: Written) {
    && AllXmlSpaces(w.before) && ValidName(w.name) && AllXmlSpaces(w.left) && AllXmlSpaces(w.right)
    && (w.quote == QUOT || w.quote == APOS) && LegalValue(w.value, w.quote)
  }

  function ReferenceBody(hex: bool, digits: Bytes): (s: Bytes) {
    [HASH] + ((if hex then [LETTER_X] else []) + digits)
  }

  function PrintPart(p: Part): (s: Bytes) {
    match p
    case Plain(b) => [b]
    case Entity(b) => [AMP] + EntityName(b) + [SEMICOLON]
    case Reference(hex, digits) => [AMP] + ReferenceBody(hex, digits) + [SEMICOLON]
  }

  function PrintValue(value: seq<Part>): (s: Bytes) {
    if value == [] then [] else PrintPart(value[0]) + PrintValue(value[1..])
  }

  /** An assignment's sign and value, in front of what follows. */
  function PrintAssigned(w: Written, rest: Bytes): (s: Bytes) {
    w.left + ([EQUALS] + (w.right + ([w.quote] + (PrintValue(w.value) + ([w.quote] + rest)))))
  }

  /** The assignments in order, and the white space behind them. */
  function PrintAll(ws: seq<Written>, after: Bytes): (s: Bytes) {
    if ws == [] then after
    else ws[0].before + (ws[0].name + PrintAssigned(ws[0], PrintAll(ws[1..], after)))
  }

  function PartMeaning(p: Part, quote: Byte): (s: Bytes)
    requires LegalPart(p, quote)
  {
    match p
    case Plain(b) => [b]
    case Entity(b) => [b]
    case Reference(hex, digits) => Encode(NumberOf(digits, hex))
  }

  function ValueMeaning(value: seq<Part>, quote: Byte): (s: Bytes)
    requires LegalValue(value, quote)
  {
    if value == [] then [] else PartMeaning(value[0], quote) + ValueMeaning(value[1..], quote)
  }

  function AttributeOf(w: Written): (a: Attribute)
    requires LegalWritten(w)
  {
    Attribute(w.name, ValueMeaning(w.value, w.quote))
  }

  function AttributesOf(ws: seq<Written>): (r: seq<Attribute>)
    requires forall i :: 0 <= i < |ws| ==> LegalWritten(ws[i])
    ensures |r| == |ws| && forall i :: 0 <= i < |ws| ==> r[i] == AttributeOf(ws[i])
  {
    seq(|ws|, i requires 0 <= i < |ws| => AttributeOf(ws[i]))
  }

  /** Legal assignments, white space before each but the first, no name written twice. */
  ghost predicate Spells(data: Bytes, ws: seq<Written>, after: Bytes) {
    && data == PrintAll(ws, after) && AllXmlSpaces(after)
    && (forall i :: 0 <= i < |ws| ==> LegalWritten(ws[i]))
    && (forall i :: 0 < i < |ws| ==> ws[i].before != [])
    && (forall i, j :: 0 <= i < j < |ws| ==> ws[i].name != ws[j].name)
  }

  // --- Terminals -----------------------------------------------------------------------

  /** XML's Char: no surrogate, no FFFE or FFFF, and of the controls below space only three. */
  lemma XmlChars(c: nat)
    ensures IsXmlChar(c) <==>
            && c <= 0x10_FFFF && !(0xD800 <= c < 0xE000) && c != 0xFFFE && c != 0xFFFF
            && (c < 0x20 ==> c in {0x09, 0x0A, 0x0D})
  {
  }

  /** Which byte may start a name: an ASCII letter, an underscore, a colon or any byte that is not ASCII. */
  lemma NameStarts(b: Byte)
    ensures Parsed([b, 0x3D, 0x22, 0x22]) != None <==>
            0x41 <= b <= 0x5A || 0x61 <= b <= 0x7A || b == 0x5F || b == 0x3A || b >= 0x80
  {
    var s: Bytes := [b, 0x3D, 0x22, 0x22];
    var tail := s[1..];
    assert tail == [0x3D, 0x22, 0x22] && NameLength(tail) == 0;
    if IsXmlSpace(b) {
      assert SkipXml(s) == tail && SkipXml(tail) == tail;
    } else {
      assert SkipXml(s) == s;
    }
    if IsNameStart(b) {
      var w := Written([], [b], [], [], 0x22, []);
      assert s == PrintAll([w], []) by { OnePrints(w); }
      assert Spells(s, [w], []);
      ReadsAll([w], [], []);
    }
  }

  lemma OnePrints(w: Written)
    requires w.before == [] && w.left == [] && w.right == [] && w.value == []
    ensures PrintAll([w], []) == w.name + [0x3D, w.quote, w.quote]
  {
    assert [w][1..] == [] && PrintAll([], []) == [];
    assert PrintAssigned(w, []) == [0x3D, w.quote, w.quote];
  }

  /** Which byte may go on in a name: those, a digit, a dash or a point. */
  lemma NameGoesOn(b: Byte)
    ensures Parsed([0x61, b, 0x3D, 0x22, 0x22]) == Some([Attribute([0x61, b], [])]) <==>
            || 0x41 <= b <= 0x5A || 0x61 <= b <= 0x7A || b == 0x5F || b == 0x3A || b >= 0x80
            || 0x30 <= b <= 0x39 || b == 0x2D || b == 0x2E
  {
    var s: Bytes := [0x61, b, 0x3D, 0x22, 0x22];
    if IsNameChar(b) {
      var w := Written([], [0x61, b], [], [], 0x22, []);
      assert s == PrintAll([w], []) by { OnePrints(w); }
      assert Spells(s, [w], []);
      ReadsAll([w], [], []);
      assert [] + AttributesOf([w]) == [Attribute([0x61, b], [])];
    } else {
      NameIsRead(s, Attribute([0x61, b], []));
      assert [0x61, b][1] == b;
    }
  }

  lemma NameIsRead(s: Bytes, a: Attribute)
    ensures Parsed(s) == Some([a]) ==> ValidName(a.name)
  {
    hide ReadAll, ValidName;
    ReadIsWellNamed(s, []);
    assert [a][0] == a;
  }

  /** Which byte is white space. */
  lemma XmlSpaces(b: Byte)
    ensures Parsed([b]) == Some([]) <==> b == 0x20 || b == 0x09 || b == 0x0A || b == 0x0D
  {
    var s := [b];
    assert s[1..] == [];
    if IsXmlSpace(b) {
      assert SkipXml(s) == [];
    } else {
      assert SkipXml(s) == s;
      if IsNameStart(b) {
        assert NameLength(s) <= 1 && s[NameLength(s)..] == (if IsNameChar(b) then [] else s);
        assert ReadAssigned([]) == None;
      }
    }
  }

  /** Decimal digits are those of the alphabet, in its order. */
  lemma DecimalDigits(b: Byte)
    ensures DigitValue(b, false) >= 0 <==> 0x30 <= b <= 0x39
    ensures forall k :: 0 <= k < 10 && b as int == "0123456789"[k] as int ==> DigitValue(b, false) == k
  {
  }

  // --- Character references ------------------------------------------------------------

  /** The loop over the digits, after some of them. */
  lemma {:induction false} CodeIsNumber(digits: Bytes, hex: bool, done: nat)
    requires done <= |digits| && AreDigits(digits[..done], hex)
    ensures var r := CodeOf(digits[done..], hex, NumberOf(digits[..done], hex));
            && (r.Some? ==> AreDigits(digits, hex) && r.value == NumberOf(digits, hex))
            && (AreDigits(digits, hex) && NumberOf(digits, hex) <= 0x10_FFFF ==> r.Some?)
    decreases |digits| - done
  {
    if done == |digits| {
      assert digits[..done] == digits;
    } else {
      hide NumberOf, DigitValue, CodeOf, AreDigits;
      var v := DigitValue(digits[done], hex);
      CodeStep(digits, hex, done, NumberOf(digits[..done], hex));
      DigitAt(digits, hex, done);
      if v >= 0 {
        OneMoreDigit(digits, hex, done);
        CodeIsNumber(digits, hex, done + 1);
      }
      if AreDigits(digits, hex) {
        NumberGrows(digits, hex, done);
      }
    }
  }

  lemma CodeStep(digits: Bytes, hex: bool, done: nat, code: nat)
    requires done < |digits|
    ensures var v := DigitValue(digits[done], hex);
            CodeOf(digits[done..], hex, code) ==
              if v < 0 || code > 0x10_FFFF then None
              else CodeOf(digits[done + 1..], hex, if hex then code * 16 + v else code * 10 + v)
  {
    hide DigitValue;
    assert digits[done..][1..] == digits[done + 1..];
  }

  lemma DigitAt(digits: Bytes, hex: bool, i: nat)
    requires i < |digits|
    ensures AreDigits(digits, hex) ==> DigitValue(digits[i], hex) >= 0
  {
  }

  lemma OneMoreDigit(digits: Bytes, hex: bool, done: nat)
    requires done < |digits| && AreDigits(digits[..done], hex) && DigitValue(digits[done], hex) >= 0
    ensures AreDigits(digits[..done + 1], hex)
    ensures NumberOf(digits[..done + 1], hex) ==
            (if hex then NumberOf(digits[..done], hex) * 16 else NumberOf(digits[..done], hex) * 10)
              + DigitValue(digits[done], hex)
  {
    hide DigitValue;
    assert digits[..done + 1][..done] == digits[..done];
    assert forall i :: 0 <= i < done ==> digits[..done + 1][i] == digits[..done][i];
  }

  /** The first digits spell no more than all of them. */
  lemma {:induction false} NumberGrows(digits: Bytes, hex: bool, done: nat)
    requires done <= |digits| && AreDigits(digits, hex)
    ensures NumberOf(digits[..done], hex) <= NumberOf(digits, hex)
    decreases |digits|
  {
    if done < |digits| {
      var front := digits[..|digits| - 1];
      NumberGrows(front, hex, done);
      assert front[..done] == digits[..done];
    } else {
      assert digits[..done] == digits;
    }
  }

  lemma CodeExactly(digits: Bytes, hex: bool)
    ensures var r := CodeOf(digits, hex, 0);
            && (r.Some? ==> AreDigits(digits, hex) && r.value == NumberOf(digits, hex))
            && (AreDigits(digits, hex) ==> (r.Some? && IsXmlChar(r.value) <==> IsXmlChar(NumberOf(digits, hex))))
  {
    assert digits[..0] == [] && digits[0..] == digits;
    CodeIsNumber(digits, hex, 0);
  }

  lemma BodyParts(hex: bool, digits: Bytes)
    requires digits != [] && AreDigits(digits, hex)
    ensures var body := ReferenceBody(hex, digits);
            && |body| >= 2 && body[0] == HASH && (body[1] == LETTER_X <==> hex)
            && (if hex then body[2..] else body[1..]) == digits
            && SEMICOLON !in body && Predefined(body).None?
  {
    var body := ReferenceBody(hex, digits);
    assert body[0] == HASH;
    assert !hex ==> body[1] == digits[0] && body[1..] == digits;
    assert hex ==> body[1] == LETTER_X && body[2..] == digits;
    assert SEMICOLON !in digits;
  }

  lemma ReferenceResolves(hex: bool, digits: Bytes)
    requires LegalPart(Reference(hex, digits), QUOT)
    ensures var body := ReferenceBody(hex, digits);
            SEMICOLON !in body && Resolved(body) == Some(PartMeaning(Reference(hex, digits), QUOT))
  {
    hide ReferenceBody, Predefined, CodeOf, NumberOf, AreDigits, Encode;
    BodyParts(hex, digits);
    CodeExactly(digits, hex);
  }

  lemma EntityResolves(b: Byte)
    requires LegalPart(Entity(b), QUOT)
    ensures SEMICOLON !in EntityName(b) && Resolved(EntityName(b)) == Some([b])
  {
    hide Resolved;
    EntitiesAreResolved();
  }

  lemma PredefinedIsNamed(body: Bytes)
    requires Predefined(body).Some?
    ensures var b := Predefined(body).value; LegalPart(Entity(b), QUOT) && body == EntityName(b)
  {
  }

  /** What resolves is a part of a value. */
  lemma ResolvedIsPart(body: Bytes, quote: Byte) returns (p: Part)
    requires Resolved(body).Some?
    ensures LegalPart(p, quote) && PrintPart(p) == [AMP] + body + [SEMICOLON]
    ensures PartMeaning(p, quote) == Resolved(body).value
  {
    hide CodeOf, NumberOf, AreDigits, Encode, EntityName;
    if Predefined(body).Some? {
      PredefinedIsNamed(body);
      p := Entity(Predefined(body).value);
    } else {
      hide Predefined;
      var hex := body[1] == LETTER_X;
      var digits := if hex then body[2..] else body[1..];
      CodeExactly(digits, hex);
      p := Reference(hex, digits);
      assert body == ReferenceBody(hex, digits);
    }
  }

  // --- What is printed is read -------------------------------------------------------------

  lemma ReadsPart(p: Part, rest: Bytes, quote: Byte, acc: Bytes)
    requires LegalPart(p, quote) && (quote == QUOT || quote == APOS)
    ensures ReadQuoted(PrintPart(p) + rest, quote, acc) == ReadQuoted(rest, quote, acc + PartMeaning(p, quote))
  {
    match p
    case Plain(b) =>
      assert ([b] + rest)[1..] == rest;
    case Entity(b) =>
      hide ReadQuoted, Resolved, EntityName;
      EntityResolves(b);
      ReadsReference(EntityName(b), rest, quote, acc);
    case Reference(hex, digits) =>
      hide ReadQuoted, Resolved, ReferenceBody, NumberOf, AreDigits, Encode;
      ReferenceResolves(hex, digits);
      ReadsReference(ReferenceBody(hex, digits), rest, quote, acc);
  }

  lemma {:induction false} ReadsParts(value: seq<Part>, rest: Bytes, quote: Byte, acc: Bytes)
    requires LegalValue(value, quote) && (quote == QUOT || quote == APOS)
    ensures ReadQuoted(PrintValue(value) + ([quote] + rest), quote, acc) ==
            Some(Read(acc + ValueMeaning(value, quote), rest))
    decreases |value|
  {
    hide LegalPart, PartMeaning, PrintPart;
    var tail := [quote] + rest;
    if value == [] {
      assert PrintValue(value) + tail == tail && tail[1..] == rest;
      assert acc + ValueMeaning(value, quote) == acc;
    } else {
      hide ReadQuoted;
      var after := PrintValue(value[1..]) + tail;
      Lists.Regroup(PrintPart(value[0]), PrintValue(value[1..]), tail);
      ReadsPart(value[0], after, quote, acc);
      ReadsParts(value[1..], rest, quote, acc + PartMeaning(value[0], quote));
      Lists.Regroup(acc, PartMeaning(value[0], quote), ValueMeaning(value[1..], quote));
    }
  }

  lemma {:induction false} SkipsXml(spaces: Bytes, s: Bytes)
    requires AllXmlSpaces(spaces) && (s == [] || !IsXmlSpace(s[0]))
    ensures SkipXml(spaces + s) == s
    decreases |spaces|
  {
    if spaces == [] {
      assert spaces + s == s;
    } else {
      assert (spaces + s)[1..] == spaces[1..] + s;
      SkipsXml(spaces[1..], s);
    }
  }

  lemma ReadsAssigned(w: Written, rest: Bytes)
    requires LegalWritten(w)
    ensures ReadAssigned(PrintAssigned(w, rest)) == Some(Read(ValueMeaning(w.value, w.quote), rest))
  {
    hide ReadQuoted, LegalValue, ValueMeaning, PrintValue, SkipXml;
    var fromValue := PrintValue(w.value) + ([w.quote] + rest);
    var fromQuote := [w.quote] + fromValue;
    var fromSign := [EQUALS] + (w.right + fromQuote);
    SkipsXml(w.left, fromSign);
    assert fromSign[1..] == w.right + fromQuote;
    SkipsXml(w.right, fromQuote);
    assert fromQuote[1..] == fromValue;
    ReadsParts(w.value, rest, w.quote, []);
    assert [] + ValueMeaning(w.value, w.quote) == ValueMeaning(w.value, w.quote);
  }

  /** No name character follows a name: white space or the sign does. */
  lemma AfterName(w: Written, rest: Bytes)
    requires LegalWritten(w)
    ensures PrintAssigned(w, rest) != [] && !IsNameChar(PrintAssigned(w, rest)[0])
  {
    hide LegalValue, PrintValue;
    var s := PrintAssigned(w, rest);
    assert s[0] == if w.left == [] then EQUALS else w.left[0];
  }

  /** One turn of the parser. */
  lemma ReadsWritten(w: Written, rest: Bytes, out: seq<Attribute>)
    requires LegalWritten(w) && !HasName(out, w.name) && (out != [] ==> w.before != [])
    ensures ReadAll(w.before + (w.name + PrintAssigned(w, rest)), out) == ReadAll(rest, out + [AttributeOf(w)])
  {
    hide LegalValue, ValueMeaning, PrintAssigned, ReadAssigned, SkipXml, HasName;
    var fromSign := PrintAssigned(w, rest);
    var t := w.name + fromSign;
    var s := w.before + t;
    assert t[0] == w.name[0];
    SkipsXml(w.before, t);
    assert w.before != [] ==> |t| < |s|;
    AfterName(w, rest);
    NameEnds(w.name, fromSign);
    assert t[..|w.name|] == w.name && t[|w.name|..] == fromSign;
    ReadsAssigned(w, rest);
  }

  lemma {:induction false} ReadsAll(ws: seq<Written>, after: Bytes, out: seq<Attribute>)
    requires Spells(PrintAll(ws, after), ws, after)
    requires forall i :: 0 <= i < |ws| ==> !HasName(out, ws[i].name)
    requires out != [] && ws != [] ==> ws[0].before != []
    ensures ReadAll(PrintAll(ws, after), out) == Some(out + AttributesOf(ws))
    decreases |ws|
  {
    hide LegalWritten, PrintAssigned, AttributeOf, SkipXml;
    if ws == [] {
      assert after + [] == after;
      SkipsXml(after, []);
      assert out + AttributesOf(ws) == out;
    } else {
      hide ReadAll, HasName, Spells, AttributesOf;
      SpellsTail(ws, after);
      var a := AttributeOf(ws[0]);
      ReadsWritten(ws[0], PrintAll(ws[1..], after), out);
      forall i | 0 <= i < |ws| - 1 ensures !HasName(out + [a], ws[1..][i].name) {
        NoNewName(out, a, ws[0], ws[1..][i].name);
      }
      ReadsAll(ws[1..], after, out + [a]);
      Lists.Regroup(out, [a], AttributesOf(ws[1..]));
    }
  }

  lemma SpellsTail(ws: seq<Written>, after: Bytes)
    requires ws != [] && Spells(PrintAll(ws, after), ws, after)
    ensures forall i :: 0 <= i < |ws| ==> LegalWritten(ws[i])
    ensures Spells(PrintAll(ws[1..], after), ws[1..], after)
    ensures forall i :: 0 <= i < |ws| - 1 ==> ws[1..][i] == ws[i + 1] && ws[1..][i].name != ws[0].name
    ensures |ws| > 1 ==> ws[1].before != []
    ensures AttributesOf(ws) == [AttributeOf(ws[0])] + AttributesOf(ws[1..])
  {
    hide PrintAll, LegalWritten, AttributeOf;
  }

  lemma SpellsCons(w: Written, rest: Bytes, more: seq<Written>, after: Bytes)
    requires LegalWritten(w) && Spells(rest, more, after)
    requires forall i :: 0 <= i < |more| ==> more[i].name != w.name
    requires more != [] ==> more[0].before != []
    ensures Spells(w.before + (w.name + PrintAssigned(w, rest)), [w] + more, after)
    ensures AttributesOf([w] + more) == [AttributeOf(w)] + AttributesOf(more)
  {
    hide LegalWritten, PrintAssigned, AttributeOf, PrintAll;
    var ws := [w] + more;
    PrintsCons(w, more, after);
    forall i | 0 <= i < |ws| ensures LegalWritten(ws[i]) && (i > 0 ==> ws[i].before != [] && ws[i].name != w.name) {
      assert i > 0 ==> ws[i] == more[i - 1];
    }
    forall i, j | 0 <= i < j < |ws| ensures ws[i].name != ws[j].name {
      assert ws[j] == more[j - 1] && (i > 0 ==> ws[i] == more[i - 1]);
    }
  }

  lemma PrintsCons(w: Written, more: seq<Written>, after: Bytes)
    ensures PrintAll([w] + more, after) == w.before + (w.name + PrintAssigned(w, PrintAll(more, after)))
  {
    assert ([w] + more)[1..] == more;
  }

  lemma NoNewName(out: seq<Attribute>, a: Attribute, w: Written, name: Bytes)
    requires LegalWritten(w) && a == AttributeOf(w) && !HasName(out, name) && w.name != name
    ensures !HasName(out + [a], name)
  {
    hide LegalWritten;
    forall i | 0 <= i < |out| + 1 ensures (out + [a])[i].name != name {
      assert i < |out| ==> (out + [a])[i] == out[i];
    }
  }

  // --- What is read was printed ---------------------------------------------------------

  lemma {:induction false} SplitXmlSpaces(s: Bytes) returns (spaces: Bytes)
    ensures AllXmlSpaces(spaces) && s == spaces + SkipXml(s)
    ensures spaces == [] <==> SkipXml(s) == s
  {
    if s != [] && IsXmlSpace(s[0]) {
      var more := SplitXmlSpaces(s[1..]);
      spaces := [s[0]] + more;
      Lists.Regroup([s[0]], more, SkipXml(s));
      assert s == [s[0]] + s[1..];
    } else {
      spaces := [];
    }
  }

  lemma ConsPart(p: Part, value: seq<Part>, quote: Byte)
    requires LegalPart(p, quote) && LegalValue(value, quote)
    ensures LegalValue([p] + value, quote)
    ensures PrintValue([p] + value) == PrintPart(p) + PrintValue(value)
    ensures ValueMeaning([p] + value, quote) == PartMeaning(p, quote) + ValueMeaning(value, quote)
  {
    hide LegalPart, PrintPart, PartMeaning;
    assert ([p] + value)[1..] == value;
  }

  lemma {:induction false} QuotedHasParts(s: Bytes, quote: Byte, acc: Bytes) returns (value: seq<Part>)
    requires ReadQuoted(s, quote, acc).Some? && (quote == QUOT || quote == APOS)
    ensures LegalValue(value, quote)
    ensures s == PrintValue(value) + ([quote] + ReadQuoted(s, quote, acc).value.rest)
    ensures ReadQuoted(s, quote, acc).value.value == acc + ValueMeaning(value, quote)
    decreases |s|
  {
    hide Resolved, PrintValue, ValueMeaning, LegalValue, LegalPart, PrintPart, PartMeaning, ReadQuoted, IndexOfByte;
    QuotedStep(s, 0, quote, acc);
    assert s[0..] == s;
    var tail := [quote] + ReadQuoted(s, quote, acc).value.rest;
    if s[0] == quote {
      value := [];
      NoParts(quote, acc);
      assert s == [s[0]] + s[1..] && [] + tail == tail;
    } else if s[0] == AMP {
      var end := IndexOfByte(s, SEMICOLON);
      var body := s[1..end];
      var p := ResolvedIsPart(body, quote);
      var more := QuotedHasParts(s[end + 1..], quote, acc + Resolved(body).value);
      value := [p] + more;
      ConsPart(p, more, quote);
      assert s == [AMP] + body + [SEMICOLON] + s[end + 1..];
      Lists.Regroup(PrintPart(p), PrintValue(more), tail);
      Lists.Regroup(acc, PartMeaning(p, quote), ValueMeaning(more, quote));
    } else {
      var p := Plain(s[0]);
      var more := QuotedHasParts(s[1..], quote, acc + [s[0]]);
      value := [p] + more;
      PlainPart(s[0], quote);
      ConsPart(p, more, quote);
      assert s == [s[0]] + s[1..];
      Lists.Regroup(PrintPart(p), PrintValue(more), tail);
      Lists.Regroup(acc, PartMeaning(p, quote), ValueMeaning(more, quote));
    }
  }

  lemma NoParts(quote: Byte, acc: Bytes)
    ensures LegalValue([], quote) && PrintValue([]) == [] && acc + ValueMeaning([], quote) == acc
  {
  }

  lemma PlainPart(b: Byte, quote: Byte)
    requires b != quote && b != LESS && b != AMP
    ensures LegalPart(Plain(b), quote) && PrintPart(Plain(b)) == [b] && PartMeaning(Plain(b), quote) == [b]
  {
  }

  /** The assignment behind a name. */
  lemma AssignedIsWritten(before: Bytes, name: Bytes, s: Bytes) returns (w: Written)
    requires AllXmlSpaces(before) && ValidName(name) && ReadAssigned(s).Some?
    ensures LegalWritten(w) && w.before == before && w.name == name
    ensures s == PrintAssigned(w, ReadAssigned(s).value.rest)
    ensures AttributeOf(w) == Attribute(name, ReadAssigned(s).value.value)
  {
    hide ReadQuoted, SkipXml, LegalValue, PrintValue, ValueMeaning, ValidName;
    var left := SplitXmlSpaces(s);
    var t := SkipXml(s);
    var right := SplitXmlSpaces(t[1..]);
    var u := SkipXml(t[1..]);
    var value := QuotedHasParts(u[1..], u[0], []);
    w := Written(before, name, left, right, u[0], value);
    assert t == [EQUALS] + t[1..] && u == [u[0]] + u[1..];
    assert [] + ValueMeaning(value, u[0]) == ValueMeaning(value, u[0]);
  }

  lemma {:induction false} AllIsWritten(s: Bytes, out: seq<Attribute>) returns (ws: seq<Written>, after: Bytes)
    requires ReadAll(s, out).Some?
    ensures Spells(s, ws, after)
    ensures forall i :: 0 <= i < |ws| ==> !HasName(out, ws[i].name)
    ensures out != [] && ws != [] ==> ws[0].before != []
    ensures ReadAll(s, out).value == out + AttributesOf(ws)
    decreases |s|
  {
    hide SkipXml, ReadAssigned, LegalWritten, PrintAssigned, AttributeOf, HasName, NameLength;
    hide AllXmlSpaces, PrintAll, ValidName, IsNameStart;
    var before := SplitXmlSpaces(s);
    var t := SkipXml(s);
    if t == [] {
      ws, after := [], before;
      assert before + [] == before;
      NothingWritten(before);
      assert out + AttributesOf(ws) == out;
    } else {
      var n := NameLength(t);
      var name, fromSign := t[..n], t[n..];
      NameIsValid(t);
      var w := AssignedIsWritten(before, name, fromSign);
      var rest := ReadAssigned(fromSign).value.rest;
      var more;
      more, after := AllIsWritten(rest, out + [AttributeOf(w)]);
      ws := [w] + more;
      assert t == name + fromSign;
      hide Spells, AttributesOf;
      forall i | 0 <= i < |more| ensures !HasName(out, more[i].name) && more[i].name != w.name {
        WrittenName(w);
        FewerNames(out, AttributeOf(w), more[i].name);
      }
      SpellsCons(w, rest, more, after);
      assert AttributeOf(w).name == name by { WrittenName(w); }
      Lists.Regroup(out, [AttributeOf(w)], AttributesOf(more));
    }
  }

  lemma NothingWritten(after: Bytes)
    requires AllXmlSpaces(after)
    ensures Spells(after, [], after) && AttributesOf([]) == []
  {
  }

  lemma WrittenName(w: Written)
    requires LegalWritten(w)
    ensures AttributeOf(w).name == w.name
  {
  }

  lemma FewerNames(out: seq<Attribute>, a: Attribute, name: Bytes)
    requires !HasName(out + [a], name)
    ensures !HasName(out, name) && a.name != name
  {
    assert (out + [a])[|out|] == a;
    forall i | 0 <= i < |out| ensures out[i].name != name {
      assert (out + [a])[i] == out[i];
    }
  }

  /** The parser accepts exactly what the grammar spells, and gives what it means. */
  lemma ParsesExactlyTheGrammar(data: Bytes, attributes: seq<Attribute>)
    ensures Parsed(data) == Some(attributes) <==>
            exists ws, after :: Spells(data, ws, after) && AttributesOf(ws) == attributes
  {
    hide PrintAll, LegalWritten, ReadAll, AttributeOf;
    if Parsed(data) == Some(attributes) {
      var ws, after := AllIsWritten(data, []);
      assert [] + AttributesOf(ws) == AttributesOf(ws);
    }
    if exists ws, after :: Spells(data, ws, after) && AttributesOf(ws) == attributes {
      var ws, after :| Spells(data, ws, after) && AttributesOf(ws) == attributes;
      ReadsAll(ws, after, []);
      assert [] + AttributesOf(ws) == AttributesOf(ws);
    }
  }

  // --- What the serialiser writes ----------------------------------------------------------

  /** The parts a value is written in: `&`, `<`, `>` and the double quote as entities, all else as it is. */
  function PartsOf(value: Bytes): (parts: seq<Part>) {
    if value == [] then []
    else
      var b := value[0];
      [if b == 0x26 || b == 0x3C || b == 0x3E || b == 0x22 then Entity(b) else Plain(b)] + PartsOf(value[1..])
  }

  /** Each attribute between double quotes, none but single spaces, one before each but the first. */
  function WrittenFor(attributes: seq<Attribute>, first: bool): (ws: seq<Written>) {
    if attributes == [] then []
    else
      var a := attributes[0];
      [Written(if first then [] else [0x20], a.name, [], [], 0x22, PartsOf(a.value))]
        + WrittenFor(attributes[1..], false)
  }

  lemma {:induction false} EscapedIsPrinted(value: Bytes)
    ensures EscapedValue(value) == PrintValue(PartsOf(value))
  {
    if value != [] {
      EscapedIsPrinted(value[1..]);
      var parts := PartsOf(value);
      assert parts[1..] == PartsOf(value[1..]);
      assert EscapedByte(value[0]) == PrintPart(parts[0]);
    }
  }

  lemma AssignmentIsPrinted(a: Attribute, rest: Bytes, before: Bytes)
    ensures var w := Written(before, a.name, [], [], 0x22, PartsOf(a.value));
            Assignment(a) + rest == a.name + PrintAssigned(w, rest)
  {
    hide EscapedValue, PrintValue, PartsOf;
    EscapedIsPrinted(a.value);
  }

  lemma {:induction false} FurtherIsPrinted(attributes: seq<Attribute>)
    ensures Further(attributes) == PrintAll(WrittenFor(attributes, false), [])
  {
    if attributes != [] {
      hide Assignment, PrintAssigned, PartsOf;
      FurtherIsPrinted(attributes[1..]);
      AssignmentIsPrinted(attributes[0], Further(attributes[1..]), [0x20]);
      assert WrittenFor(attributes, false)[1..] == WrittenFor(attributes[1..], false);
    }
  }

  /** The serialiser's text is that of the grammar, quote by quote and space by space. */
  lemma SerializedIsPrinted(attributes: seq<Attribute>)
    ensures Serialized(attributes) == PrintAll(WrittenFor(attributes, true), [])
  {
    if attributes != [] {
      hide Assignment, PrintAssigned, PartsOf, Further;
      FurtherIsPrinted(attributes[1..]);
      AssignmentIsPrinted(attributes[0], Further(attributes[1..]), []);
      assert WrittenFor(attributes, true)[1..] == WrittenFor(attributes[1..], false);
      var s := Assignment(attributes[0]) + Further(attributes[1..]);
      assert [] + s == s;
    }
  }
}
