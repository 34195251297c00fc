/**
  The terminals of JSON at `parse_json` (ctbrowser/lib/Core/json.cpp), spelled out byte by
  byte after RFC 8259: white space, literals, digits, string bytes, the eight escapes and
  `\u`. Grammar and reader share the predicates that tell them apart; here is what they
  are. Then where reading stops.
 */
module JsonSurface {
  import opened Utf8
  import opened Utf16
  import opened JsonGrammar
  import opened JsonReading
  import JsonExact

  // --- Strings ------------------------------------------------------------------------------

  lemma StringIs(s: Bytes)
    ensures var r := ReadPieces(s, []);
            var end := Skip(r.rest);
            ParseText([0x22] + s) == if r.Ok? && end == [] then Parsed(Text(r.value)) else Stopped(|s| + 1 - |end|)
  {
    hide *;
    var text := [0x22] + s;
    QuotedPieces(s);
    QuotedValue(text);
    ParseTextIs(text);
  }

  lemma QuotedPieces(s: Bytes)
    ensures Starts([0x22] + s, 0x22) && ReadString([0x22] + s) == ReadPieces(s, [])
  {
    hide ReadPieces;
    assert ([0x22] + s)[1..] == s;
  }

  lemma ParseTextIs(text: Bytes)
    ensures var r := ReadValue(text, 0);
            var end := Skip(r.rest);
            ParseText(text) == if r.Ok? && end == [] then Parsed(r.value) else Stopped(|text| - |end|)
  {
    hide ReadValue, Skip;
  }

  lemma QuotedValue(text: Bytes)
    requires Starts(text, 0x22)
    ensures ReadValue(text, 0) == match ReadString(text)
                                  case Ok(read, rest) => Ok(Text(read), rest)
                                  case Fail(rest) => Fail(rest)
  {
    hide ReadString, ReadArray, ReadObject, ReadNumber;
    assert Skip(text) == text;
  }

  /** Between quotes a byte stands for itself if it is no control byte, no quote and no backslash. */
  lemma RawBytes(b: Byte)
    ensures ParseText([0x22, b, 0x22]) ==
            if b < 0x20 then Stopped(if b == 0x09 || b == 0x0A || b == 0x0D then 2 else 1)
            else if b == 0x22 then Stopped(2)
            else if b == 0x5C then Stopped(3)
            else Parsed(Text([b]))
  {
    hide ParseText;
    var s: Bytes := [b, 0x22];
    StringIs(s);
    assert [0x22, b, 0x22] == [0x22] + s;
    assert s[1..] == [0x22] && [0x22][1..] == [] && s[2..] == [];
    assert [] + [b] == [b];
    assert Skip([0x22]) == [0x22] && Skip(s) == if IsSpace(b) then [0x22] else s;
    if b == 0x5C {
      assert ReadPieces([], [0x22]).Fail? && ReadPieces(s, []) == ReadPieces([], [] + [Escaped(0x22)]);
    }
  }

  /** The eight two-character escapes of RFC 8259, section 7, and no others. */
  lemma EightEscapes(letter: Byte)
    ensures ParseText([0x22, 0x5C, letter, 0x22]) ==
            if letter == 0x22 then Parsed(Text([0x22]))
            else if letter == 0x5C then Parsed(Text([0x5C]))
            else if letter == 0x2F then Parsed(Text([0x2F]))
            else if letter == 0x62 then Parsed(Text([0x08]))
            else if letter == 0x66 then Parsed(Text([0x0C]))
            else if letter == 0x6E then Parsed(Text([0x0A]))
            else if letter == 0x72 then Parsed(Text([0x0D]))
            else if letter == 0x74 then Parsed(Text([0x09]))
            else Stopped(3)
  {
    hide ParseText;
    var s: Bytes := [0x5C, letter, 0x22];
    StringIs(s);
    assert [0x22, 0x5C, letter, 0x22] == [0x22] + s;
    assert s[2..] == [0x22] && [0x22][1..] == [];
    assert Skip([0x22]) == [0x22];
    assert Escaped(letter) >= 0 ==> [] + [Escaped(letter)] == [Escaped(letter)];
  }

  /** `\u` and four hex digits, the most significant first, name a code unit. */
  lemma UnicodeEscape(a: Byte, b: Byte, c: Byte, d: Byte)
    requires IsHex(a) && IsHex(b) && IsHex(c) && IsHex(d)
    ensures ParseText([0x22, 0x5C, 0x75, a, b, c, d, 0x22]) ==
            Parsed(Text(Encode(HexValue(a) * 4096 + HexValue(b) * 256 + HexValue(c) * 16 + HexValue(d))))
  {
    hide ParseText, Encode, HexValue, IsHex;
    var s: Bytes := [0x5C, 0x75, a, b, c, d, 0x22];
    StringIs(s);
    assert [0x22, 0x5C, 0x75, a, b, c, d, 0x22] == [0x22] + s;
    var hex := s[2..];
    assert hex == [a, b, c, d, 0x22] && s[6..] == [0x22] && [0x22][1..] == [];
    assert [] + Encode(HexOf(a, b, c, d)) == Encode(HexOf(a, b, c, d));
  }

  /** U+1F600 as a pair of escapes is one code point. */
  lemma EscapedPair()
    ensures ParseText([0x22] + ([0x5C, 0x75, 0x64, 0x38, 0x33, 0x64]
                                + [0x5C, 0x75, 0x64, 0x65, 0x30, 0x30] + [0x22])) ==
            Parsed(Text([0xF0, 0x9F, 0x98, 0x80]))
  {
    hide ParseText;
    var high, low := Unicode(0x64, 0x38, 0x33, 0x64), Unicode(0x64, 0x65, 0x30, 0x30);
    PairPrints(high, low);
    PairMeans(high, low);
    assert UnitOf(high) == 0xD83D && UnitOf(low) == 0xDE00;
    assert Encode(Combine(0xD83D, 0xDE00)) == [0xF0, 0x9F, 0x98, 0x80];
    assert PrintPiece(high) == [0x5C, 0x75, 0x64, 0x38, 0x33, 0x64];
    assert PrintPiece(low) == [0x5C, 0x75, 0x64, 0x65, 0x30, 0x30];
    hide PrintPiece, PrintString, LegalPieces, Meaning, Encode, Combine;
    TreeIsParsed(StringTree([high, low]), PrintString([high, low]));
  }

  lemma PairPrints(p: Piece, q: Piece)
    ensures PrintString([p, q]) == [0x22] + (PrintPiece(p) + PrintPiece(q) + [0x22])
  {
    hide PrintPiece;
    assert [p, q][1..] == [q] && [q][1..] == [];
    assert PrintPieces([q]) == PrintPiece(q) + PrintPieces([]);
  }

  lemma PairMeans(p: Piece, q: Piece)
    requires p.Unicode? && q.Unicode? && LegalPiece(p) && LegalPiece(q) && IsHigh(UnitOf(p)) && IsLow(UnitOf(q))
    ensures LegalPieces([p, q]) && Meaning([p, q]) == Encode(Combine(UnitOf(p), UnitOf(q)))
  {
    hide UnitOf, LegalPiece, Encode, Combine;
    assert [p, q][2..] == [];
  }

  lemma TreeIsParsed(t: Tree, text: Bytes)
    requires Legal(t) && text == Print(t) && Nesting(t) <= MAX_DEPTH
    ensures ParseText(text) == Parsed(ValueOf(t))
  {
    assert text == [] + (Print(t) + []);
    JsonExact.DerivationIsParsed(text, [], t, []);
  }

  // --- The rest of the alphabet ----------------------------------------------------------------

  lemma NullIsRead()
    ensures ParseText([0x6E, 0x75, 0x6C, 0x6C]) == Parsed(Null)
    ensures ParseText([0x74, 0x72, 0x75, 0x65]) == Parsed(Bool(true))
    ensures ParseText([0x66, 0x61, 0x6C, 0x73, 0x65]) == Parsed(Bool(false))
  {
    TreeIsParsed(NullTree, [0x6E, 0x75, 0x6C, 0x6C]);
    TreeIsParsed(TrueTree, [0x74, 0x72, 0x75, 0x65]);
    TreeIsParsed(FalseTree, [0x66, 0x61, 0x6C, 0x73, 0x65]);
  }

  /** A text is null exactly when it is the literal with white space around it. */
  lemma NullExactly(text: Bytes)
    ensures ParseText(text) == Parsed(Null) <==>
            exists before, after :: AllSpaces(before) && AllSpaces(after) && text == before + (NULL + after)
  {
    hide ParseText;
    if ParseText(text) == Parsed(Null) {
      var before, t, after := JsonExact.ParsedHasDerivation(text);
      assert t == NullTree;
    }
    if before, after :| AllSpaces(before) && AllSpaces(after) && text == before + (NULL + after) {
      JsonExact.DerivationIsParsed(text, before, NullTree, after);
    }
  }

  /** Four bytes are white space: a value may stand behind or before exactly these. */
  lemma FourSpaces(b: Byte)
    ensures ParseText([b, 0x6E, 0x75, 0x6C, 0x6C]) == Parsed(Null) <==> b == 0x20 || b == 0x09 || b == 0x0A || b == 0x0D
    ensures ParseText([0x6E, 0x75, 0x6C, 0x6C, b]) == Parsed(Null) <==> b == 0x20 || b == 0x09 || b == 0x0A || b == 0x0D
  {
    hide ParseText;
    OneSpace([b], []);
    OneSpace([], [b]);
    assert [b, 0x6E, 0x75, 0x6C, 0x6C] == [b] + (NULL + []) && [0x6E, 0x75, 0x6C, 0x6C, b] == [] + (NULL + [b]);
    assert AllSpaces([b]) <==> IsSpace([b][0]);
  }

  lemma OneSpace(front: Bytes, back: Bytes)
    requires |front| + |back| <= 1
    ensures ParseText(front + (NULL + back)) == Parsed(Null) <==> AllSpaces(front) && AllSpaces(back)
  {
    hide ParseText;
    var text := front + (NULL + back);
    NullExactly(text);
    if before, after :| AllSpaces(before) && AllSpaces(after) && text == before + (NULL + after) {
      assert |before| == |front| || |before| + 1 == |front| || |before| == |front| + 1;
      assert text[|before|] == 0x6E && text[|before| + 1] == 0x75;
      assert text[|front|] == 0x6E && text[|front| + 1] == 0x75;
      assert before == text[..|before|] && front == text[..|front|];
      assert after == text[|before| + 4..] && back == text[|front| + 4..];
    }
  }

  /** Ten bytes are digits. */
  lemma TenDigits(b: Byte)
    ensures ParseText([b]).Parsed? <==> 0x30 <= b <= 0x39
    ensures ParseText([b]).Parsed? ==> ParseText([b]) == Parsed(Number([b]))
  {
    var s: Bytes := [b];
    assert s[1..] == [] && s[..1] == s;
    NothingIsNoValue();
    if IsSpace(b) {
      assert Skip(s) == [];
    } else {
      assert Skip(s) == s;
      hide ReadArray, ReadObject, ReadString;
      OneByteNumber(b);
    }
  }

  lemma NothingIsNoValue()
    ensures ReadArray([], 1).Fail? && ReadObject([], 1).Fail? && ReadString([0x22]).Fail?
    ensures Skip([]) == []
  {
    assert ReadValue([], 1).Fail? && ReadField([], 1).Fail?;
    assert [0x22][1..] == [];
  }

  lemma OneByteNumber(b: Byte)
    ensures ReadNumber([b]) == if IsDigit(b) then Ok(Number([b]), []) else Fail(if b == MINUS then [] else [b])
  {
    var s: Bytes := [b];
    assert s[1..] == [] && s[..1] == s;
    assert SkipDigits([]) == [];
  }

  lemma BarePrints(t: Tree)
    ensures PrintElement(Element([], t, [])) == Print(t)
    ensures Legal(t) ==> LegalElement(Element([], t, [])) && ElementValue(Element([], t, [])) == ValueOf(t)
  {
    hide Print, Legal, ValueOf;
    assert [] + (Print(t) + []) == Print(t);
  }

  lemma TwoItems(t: Tree, u: Tree)
    requires Legal(t) && Legal(u)
    ensures var es := MoreElements(Element([], t, []), LastElement(Element([], u, [])));
            && Legal(ArrayTree(es))
            && Print(ArrayTree(es)) == [0x5B] + (Print(t) + ([0x2C] + Print(u))) + [0x5D]
            && ValueOf(ArrayTree(es)) == Array([ValueOf(t), ValueOf(u)])
            && Nesting(ArrayTree(es)) == 1 + Max(Nesting(t), Nesting(u))
  {
    BarePrints(t);
    BarePrints(u);
    var last := LastElement(Element([], u, []));
    var es := MoreElements(Element([], t, []), last);
    hide PrintElement, LegalElement;
    assert PrintElements(last) == Print(u) && LegalElements(last) && ValuesOf(last) == [ValueOf(u)];
    assert NestingOfElements(last) == Nesting(u) && NestingOfElements(es) == Max(Nesting(t), Nesting(u));
    assert [ValueOf(t)] + [ValueOf(u)] == [ValueOf(t), ValueOf(u)];
  }

  lemma OneMember(b: Byte, t: Tree)
    requires b >= 0x20 && b != QUOTE && b != BACKSLASH && Legal(t)
    ensures var fs := LastField(Field([], [Raw(b)], [], Element([], t, [])));
            && Legal(ObjectTree(fs))
            && Print(ObjectTree(fs)) == [0x7B] + ([0x22, b, 0x22] + ([0x3A] + Print(t))) + [0x7D]
            && ValueOf(ObjectTree(fs)) == Object([Member([b], ValueOf(t))])
            && Nesting(ObjectTree(fs)) == 1 + Nesting(t)
  {
    BarePrints(t);
    RawPrints(b);
    hide PrintElement, LegalElement, ElementValue, PrintString, Meaning, LegalPieces;
    var f := Field([], [Raw(b)], [], Element([], t, []));
    assert LegalField(f) && MemberOf(f) == Member([b], ValueOf(t));
    assert PrintField(f) == [0x22, b, 0x22] + ([0x3A] + Print(t));
    assert LegalFields(LastField(f)) && MembersOf(LastField(f)) == [Member([b], ValueOf(t))];
    assert NestingOfFields(LastField(f)) == Nesting(t);
    PutOne(Member([b], ValueOf(t)));
  }

  lemma RawPrints(b: Byte)
    requires b >= 0x20 && b != QUOTE && b != BACKSLASH
    ensures LegalPieces([Raw(b)]) && PrintString([Raw(b)]) == [0x22, b, 0x22] && Meaning([Raw(b)]) == [b]
  {
    var ps := [Raw(b)];
    assert ps[1..] == [];
    assert PrintPieces(ps) == [b] + PrintPieces([]);
    assert !PairAhead(ps) && Meaning(ps) == [b] + Meaning([]);
  }

  lemma PutOne(m: Member)
    ensures PutAll([], [m]) == [m]
  {
    assert [m][1..] == [] && PutAll([m], []) == [m];
  }

  lemma NumberIs(n: Numeral)
    requires LegalNumeral(n)
    ensures var t := NumberTree(n);
            Legal(t) && Print(t) == PrintNumeral(n) && ValueOf(t) == Number(PrintNumeral(n)) && Nesting(t) == 0
  {
  }

  /** Brackets, comma, colon, signs, point and exponents: `{"a":[-1.5e+3,0E-2]}`. */
  lemma Punctuation()
    ensures ParseText([0x7B] + ([0x22, 0x61, 0x22] + ([0x3A]
              + ([0x5B] + ([0x2D, 0x31, 0x2E, 0x35, 0x65, 0x2B, 0x33] + ([0x2C] + [0x30, 0x45, 0x2D, 0x32])) + [0x5D])))
              + [0x7D]) ==
            Parsed(Object([Member([0x61], Array([Number([0x2D, 0x31, 0x2E, 0x35, 0x65, 0x2B, 0x33]),
                                                 Number([0x30, 0x45, 0x2D, 0x32])]))]))
  {
    hide ParseText;
    var x := Numeral(true, [0x31], [0x35], Exponent(0x65, [0x2B], [0x33]));
    var y := Numeral(false, [0x30], [], Exponent(0x45, [0x2D], [0x32]));
    assert PrintNumeral(x) == [0x2D, 0x31, 0x2E, 0x35, 0x65, 0x2B, 0x33];
    assert PrintNumeral(y) == [0x30, 0x45, 0x2D, 0x32];
    assert LegalNumeral(x) && LegalNumeral(y);
    TwoItems(NumberTree(x), NumberTree(y));
    hide PrintNumeral, LegalNumeral, Print, Legal, ValueOf, Nesting;
    var items := ArrayTree(MoreElements(Element([], NumberTree(x), []), LastElement(Element([], NumberTree(y), []))));
    NumberIs(x);
    NumberIs(y);
    OneMember(0x61, items);
    var t := ObjectTree(LastField(Field([], [Raw(0x61)], [], Element([], items, []))));
    TreeIsParsed(t, Print(t));
  }

  // --- Where reading stops ------------------------------------------------------------------

  /** Behind a whole value and its white space, reading stops at the first byte that is too much. */
  lemma StopsBehindValue(before: Bytes, t: Tree, after: Bytes, rest: Bytes)
    requires AllSpaces(before) && Legal(t) && AllSpaces(after) && Nesting(t) <= MAX_DEPTH
    requires rest != [] && !IsSpace(rest[0]) && MayFollow(after + rest)
    ensures ParseText(before + (Print(t) + (after + rest))) == Stopped(|before| + |Print(t)| + |after|)
  {
    hide Print, Legal, Nesting, ReadValue, ValueOf;
    ReadsTree(t, before, after + rest, 0);
    SkipSpaces(after, rest);
  }

  /** Where a digit was due, it stops at the end of the number: a sign, a point or an exponent letter alone. */
  lemma StopsInNumber()
    ensures ParseText([0x2D]) == Stopped(1)
    ensures ParseText([0x31, 0x2E]) == Stopped(2)
    ensures ParseText([0x31, 0x65]) == Stopped(2)
  {
    hide ReadPieces, ReadArray, ReadObject;
    assert [0x2D][1..] == [] && SkipDigits([]) == [];
    var point, power: Bytes := [0x31, 0x2E], [0x31, 0x65];
    assert point[1..] == [0x2E] && [0x2E][1..] == [] && power[1..] == [0x65] && [0x65][1..] == [];
    assert SkipDigits([0x2E]) == [0x2E] && SkipDigits([0x65]) == [0x65];
  }

  /** Where a comma, a bracket or a key was due, it stops at what is there instead. */
  lemma StopsAtSeparator()
    ensures ParseText([0x5B, 0x31, 0x3B]) == Stopped(2)
    ensures ParseText([0x7B, 0x31]) == Stopped(1)
  {
    hide ReadPieces;
    var items, field: Bytes := [0x5B, 0x31, 0x3B], [0x7B, 0x31];
    assert items[1..] == [0x31, 0x3B] && field[1..] == [0x31];
    OneThenOther();
    assert ReadFields([0x31], 1, []) == Fail([0x31]);
  }

  lemma OneThenOther()
    ensures ReadItems([0x31, 0x3B], 1, []) == Fail([0x3B])
  {
    hide ReadPieces, ReadArray, ReadObject, ReadString;
    assert [0x31, 0x3B][1..] == [0x3B] && SkipDigits([0x3B]) == [0x3B];
    assert ReadNumber([0x31, 0x3B]).Ok? && ReadNumber([0x31, 0x3B]).rest == [0x3B];
  }

  /** A text of nothing but white space is read to its end. */
  lemma StopsAtEnd(s: Bytes)
    requires AllSpaces(s)
    ensures ParseText(s) == Stopped(|s|)
  {
    SkipSpaces(s, []);
    assert s + [] == s;
  }
}
