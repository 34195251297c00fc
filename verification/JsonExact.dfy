/**
  The converse of module JsonReading's reading lemmas: whatever the reader accepts
  has a derivation, with the value the reader returned. Together they say that
  `parse_json` accepts exactly the grammar.
 */
module JsonExact {
  import opened Utf8
  import opened Utf16
  import Lists
  import opened JsonGrammar
  import opened JsonReading

  lemma {:induction false} SplitSpaces(s: Bytes) returns (spaces: Bytes)
    ensures AllSpaces(spaces) && s == spaces + Skip(s)
    ensures Skip(s) != [] ==> !IsSpace(Skip(s)[0])
  {
    if s != [] && IsSpace(s[0]) {
      var more := SplitSpaces(s[1..]);
      spaces := [s[0]] + more;
      assert s == [s[0]] + s[1..];
      Lists.Regroup([s[0]], more, Skip(s));
    } else {
      spaces := [];
      assert [] + s == s;
    }
  }

  lemma {:induction false} SplitDigits(s: Bytes) returns (digits: Bytes)
    ensures AllDigits(digits) && s == digits + SkipDigits(s)
  {
    if s != [] && IsDigit(s[0]) {
      var more := SplitDigits(s[1..]);
      digits := [s[0]] + more;
      assert s == [s[0]] + s[1..];
      Lists.Regroup([s[0]], more, SkipDigits(s));
    } else {
      digits := [];
      assert [] + s == s;
    }
  }

  // --- Strings --------------------------------------------------------------

  lemma LowPieceIsAhead(ps: seq<Piece>, rest: Bytes)
    requires LegalPieces(ps) && ps != [] && ps[0].Unicode? && IsLow(UnitOf(ps[0]))
    ensures LowAhead(PrintPieces(ps) + rest)
  {
    var s := PrintPieces(ps) + rest;
    var p := ps[0];
    assert s == PrintPiece(p) + (PrintPieces(ps[1..]) + rest);
    assert s[2..][0] == p.a && s[2..][1] == p.b && s[2..][2] == p.c && s[2..][3] == p.d;
  }

  /** One more piece in front, when it does not pair up with what follows. */
  lemma ConsPiece(p: Piece, ps: seq<Piece>, acc: Bytes)
    requires LegalPiece(p) && LegalPieces(ps)
    requires !PairAhead([p] + ps)
    ensures LegalPieces([p] + ps)
    ensures PrintPieces([p] + ps) == PrintPiece(p) + PrintPieces(ps)
    ensures (acc + PieceMeaning(p)) + Meaning(ps) == acc + Meaning([p] + ps)
  {
    assert ([p] + ps)[1..] == ps;
    Lists.Regroup(acc, PieceMeaning(p), Meaning(ps));
  }

  lemma ConsPair(high: Piece, low: Piece, ps: seq<Piece>, acc: Bytes)
    requires LegalPiece(high) && LegalPiece(low) && LegalPieces(ps)
    requires high.Unicode? && low.Unicode? && IsHigh(UnitOf(high)) && IsLow(UnitOf(low))
    ensures var both := Encode(Combine(UnitOf(high), UnitOf(low)));
            (acc + both) + Meaning(ps) == acc + Meaning([high, low] + ps)
    ensures PrintPieces([high, low] + ps) == PrintPiece(high) + (PrintPiece(low) + PrintPieces(ps))
  {
    var all := [high, low] + ps;
    assert all[2..] == ps && all[1..] == [low] + ps && ([low] + ps)[1..] == ps;
    assert PairAhead(all);
    Lists.Regroup(acc, Encode(Combine(UnitOf(high), UnitOf(low))), Meaning(ps));
  }

  lemma {:induction false} PiecesHaveDerivation(s: Bytes, acc: Bytes) returns (ps: seq<Piece>)
    requires ReadPieces(s, acc).Ok?
    ensures LegalPieces(ps)
    ensures s == PrintPieces(ps) + ([QUOTE] + ReadPieces(s, acc).rest)
    ensures ReadPieces(s, acc).value == acc + Meaning(ps)
    decreases |s|
  {
    hide Meaning, PieceMeaning, Encode, Combine, HexAhead, LowAhead, HexOf, PrintPieces, LegalPieces;
    var tail := [QUOTE] + ReadPieces(s, acc).rest;
    if s[0] == QUOTE {
      ps := [];
      MeaningOfNothing(acc);
      PrintNothing();
      assert PrintPieces([]) + tail == tail;
      assert s == [s[0]] + s[1..];
    } else if s[0] != BACKSLASH {
      var p := Raw(s[0]);
      var more := PiecesHaveDerivation(s[1..], acc + [s[0]]);
      ps := [p] + more;
      RawMeaning(s[0]);
      ConsPiece(p, more, acc);
      assert s == [s[0]] + s[1..];
      Lists.Regroup(PrintPiece(p), PrintPieces(more), tail);
    } else if s[1] != LETTER_U {
      var p := Short(s[1]);
      var more := PiecesHaveDerivation(s[2..], acc + [Escaped(s[1])]);
      ps := [p] + more;
      ShortMeaning(s[1]);
      ConsPiece(p, more, acc);
      assert s == [s[0], s[1]] + s[2..];
      Lists.Regroup(PrintPiece(p), PrintPieces(more), tail);
    } else {
      ps := EscapeHasDerivation(s, acc);
    }
  }

  lemma PrintNothing()
    ensures PrintPieces([]) == [] && LegalPieces([])
  {
  }

  lemma MeaningOfNothing(acc: Bytes)
    ensures acc + Meaning([]) == acc
  {
  }

  lemma RawMeaning(b: Byte)
    requires LegalPiece(Raw(b))
    ensures PieceMeaning(Raw(b)) == [b]
  {
  }

  lemma ShortMeaning(letter: Byte)
    requires LegalPiece(Short(letter))
    ensures PieceMeaning(Short(letter)) == [Escaped(letter)]
  {
  }

  lemma {:induction false} EscapeHasDerivation(s: Bytes, acc: Bytes) returns (ps: seq<Piece>)
    requires ReadPieces(s, acc).Ok?
    requires |s| >= 2 && s[0] == BACKSLASH && s[1] == LETTER_U
    ensures LegalPieces(ps)
    ensures s == PrintPieces(ps) + ([QUOTE] + ReadPieces(s, acc).rest)
    ensures ReadPieces(s, acc).value == acc + Meaning(ps)
    decreases |s|, 0
  {
    hide Meaning, Encode, Combine, PrintPieces, ReadPieces, HexOf;
    EscapeIsHex(s, acc);
    var p := Unicode(s[2], s[3], s[4], s[5]);
    assert s == PrintPiece(p) + s[6..];
    if IsHigh(UnitOf(p)) && LowAhead(s[6..]) {
      var low := Unicode(s[8], s[9], s[10], s[11]);
      assert s[6..] == PrintPiece(low) + s[12..];
      assert [p, low][0] == p && [p, low][1] == low;
      ReadsPair(p, low, s[12..], acc);
      var more := PiecesHaveDerivation(s[12..], acc + Encode(Combine(UnitOf(p), UnitOf(low))));
      ps := [p, low] + more;
      ConsPair(p, low, more, acc);
      RegroupThree(PrintPiece(p), PrintPiece(low), PrintPieces(more), [QUOTE] + ReadPieces(s, acc).rest);
    } else {
      ReadsPiece(p, s[6..], acc);
      var more := PiecesHaveDerivation(s[6..], acc + Encode(UnitOf(p)));
      ps := [p] + more;
      NoPairMade(p, more, [QUOTE] + ReadPieces(s, acc).rest);
      ConsPiece(p, more, acc);
      Lists.Regroup(PrintPiece(p), PrintPieces(more), [QUOTE] + ReadPieces(s, acc).rest);
    }
  }

  lemma EscapeIsHex(s: Bytes, acc: Bytes)
    requires ReadPieces(s, acc).Ok?
    requires |s| >= 2 && s[0] == BACKSLASH && s[1] == LETTER_U
    ensures |s| >= 6 && IsHex(s[2]) && IsHex(s[3]) && IsHex(s[4]) && IsHex(s[5])
  {
    assert HexAhead(s[2..]);
  }

  lemma RegroupThree(a: Bytes, b: Bytes, c: Bytes, d: Bytes)
    ensures a + (b + (c + d)) == (a + (b + c)) + d
  {
  }

  lemma RegroupFour(a: Bytes, b: Bytes, c: Bytes, d: Bytes)
    ensures a + (b + (c + d)) == (a + b + c) + d
  {
  }

  /** The look-ahead of the reader sees every pair. */
  lemma NoPairMade(p: Piece, more: seq<Piece>, rest: Bytes)
    requires LegalPiece(p) && LegalPieces(more)
    requires p.Unicode? && IsHigh(UnitOf(p)) ==> !LowAhead(PrintPieces(more) + rest)
    ensures !PairAhead([p] + more)
  {
    var ps := [p] + more;
    if |ps| >= 2 && ps[1].Unicode? && IsLow(UnitOf(ps[1])) {
      assert more[0] == ps[1];
      LowPieceIsAhead(more, rest);
    }
  }

  lemma StringHasDerivation(s: Bytes) returns (ps: seq<Piece>)
    requires ReadString(s).Ok?
    ensures LegalPieces(ps)
    ensures s == PrintString(ps) + ReadString(s).rest
    ensures ReadString(s).value == Meaning(ps)
  {
    hide ReadPieces, PrintPieces, Meaning, LegalPieces;
    ps := PiecesHaveDerivation(s[1..], []);
    var rest := ReadString(s).rest;
    assert s == [QUOTE] + s[1..];
    RegroupThree([QUOTE], PrintPieces(ps), [QUOTE], rest);
    assert [] + Meaning(ps) == Meaning(ps);
  }

  // --- Numbers --------------------------------------------------------------

  lemma DigitsHaveDerivation(s: Bytes) returns (digits: Bytes)
    requires ReadDigits(s).Ok?
    ensures digits != [] && AllDigits(digits) && s == digits + ReadDigits(s).rest
    ensures digits[0] == s[0]
  {
    var more := SplitDigits(s[1..]);
    digits := [s[0]] + more;
    assert s == [s[0]] + s[1..];
    Lists.Regroup([s[0]], more, ReadDigits(s).rest);
  }

  lemma SignSplits(s: Bytes)
    ensures s == (if Starts(s, PLUS) || Starts(s, MINUS) then [s[0]] else []) + SkipSign(s)
  {
  }

  lemma ExponentHasDerivation(s: Bytes) returns (x: Exponent)
    requires ReadExponent(s).Ok?
    ensures LegalExponent(x) && s == PrintExponent(x) + ReadExponent(s).rest
  {
    hide ReadDigits, SkipSign, AllDigits;
    if Starts(s, 0x65) || Starts(s, 0x45) {
      var digits := DigitsHaveDerivation(SkipSign(s[1..]));
      var sign := if Starts(s[1..], PLUS) || Starts(s[1..], MINUS) then [s[1]] else [];
      x := Exponent(s[0], sign, digits);
      SignSplits(s[1..]);
      assert s == [s[0]] + s[1..];
      RegroupThree([s[0]], sign, digits, ReadExponent(s).rest);
      Lists.Regroup([s[0]], sign, digits);
    } else {
      x := NoExponent;
    }
  }

  lemma FractionHasDerivation(s: Bytes) returns (f: Bytes)
    requires ReadFraction(s).Ok?
    ensures AllDigits(f) && s == PrintFraction(f) + ReadFraction(s).rest
  {
    if Starts(s, POINT) {
      f := DigitsHaveDerivation(s[1..]);
      assert s == [POINT] + s[1..];
    } else {
      f := [];
    }
  }

  lemma WholeHasDerivation(s: Bytes) returns (w: Bytes)
    requires ReadWhole(s).Ok?
    ensures w != [] && AllDigits(w) && (w[0] == ZERO ==> |w| == 1)
    ensures s == w + ReadWhole(s).rest
  {
    if Starts(s, ZERO) {
      w := [ZERO];
    } else {
      w := DigitsHaveDerivation(s);
    }
  }

  lemma NumberHasDerivation(s: Bytes) returns (n: Numeral)
    requires ReadNumber(s).Ok?
    ensures LegalNumeral(n) && s == PrintNumeral(n) + ReadNumber(s).rest
    ensures ReadNumber(s).value == Number(PrintNumeral(n))
  {
    hide ReadWhole, ReadFraction, ReadExponent, PrintFraction, PrintExponent;
    var minus := Starts(s, MINUS);
    var unsigned := if minus then s[1..] else s;
    var w := WholeHasDerivation(unsigned);
    var f := FractionHasDerivation(ReadWhole(unsigned).rest);
    var x := ExponentHasDerivation(ReadFraction(ReadWhole(unsigned).rest).rest);
    n := Numeral(minus, w, f, x);
    var rest := ReadNumber(s).rest;
    var sign := if minus then [MINUS] else [];
    assert s == sign + unsigned;
    RegroupThree(w, PrintFraction(f), PrintExponent(x), rest);
    Lists.Regroup(sign, w + (PrintFraction(f) + PrintExponent(x)), rest);
    assert s[..|PrintNumeral(n)|] == PrintNumeral(n);
  }

  // --- Values ---------------------------------------------------------------

  predicate IsNested(s: Bytes) { Starts(s, OPEN_ARRAY) || Starts(s, OPEN_OBJECT) }

  lemma LeafHasDerivation(u: Bytes, depth: nat) returns (t: Tree)
    requires Skip(u) == u && !IsNested(u) && ReadValue(u, depth).Ok?
    ensures Legal(t) && Nesting(t) == 0
    ensures u == Print(t) + ReadValue(u, depth).rest
    ensures ReadValue(u, depth).value == ValueOf(t)
  {
    hide LegalPieces, LegalNumeral, ReadString, ReadNumber, PrintString, Meaning, PrintNumeral, Skip;
    if u[0] == QUOTE {
      var ps := StringHasDerivation(u);
      t := StringTree(ps);
    } else if TRUE <= u {
      t := TrueTree;
      assert u == TRUE + u[4..];
    } else if FALSE <= u {
      t := FalseTree;
      assert u == FALSE + u[5..];
    } else if NULL <= u {
      t := NullTree;
      assert u == NULL + u[4..];
    } else {
      var n := NumberHasDerivation(u);
      t := NumberTree(n);
    }
  }

  lemma NestedValue(u: Bytes, depth: nat)
    requires Skip(u) == u && IsNested(u) && ReadValue(u, depth).Ok?
    ensures depth + 1 <= MAX_DEPTH
    ensures u[0] == OPEN_ARRAY ==> ReadValue(u, depth) == ReadArray(u[1..], depth + 1)
    ensures u[0] == OPEN_OBJECT ==> ReadValue(u, depth) == ReadObject(u[1..], depth + 1)
  {
  }

  lemma SkippedValue(s: Bytes, depth: nat)
    ensures ReadValue(Skip(s), depth) == ReadValue(s, depth)
  {
    SkipTwice(s);
  }

  lemma {:induction false} ValueHasDerivation(s: Bytes, depth: nat) returns (before: Bytes, t: Tree)
    requires depth <= MAX_DEPTH && ReadValue(s, depth).Ok?
    ensures AllSpaces(before) && Legal(t) && depth + Nesting(t) <= MAX_DEPTH
    ensures s == before + (Print(t) + ReadValue(s, depth).rest)
    ensures ReadValue(s, depth).value == ValueOf(t)
    decreases |s|, 0
  {
    hide ReadValue, ReadArray, ReadObject, Legal, Print, ValueOf, Nesting, Skip, AllSpaces;
    before := SplitSpaces(s);
    var u := Skip(s);
    SkipTwice(s);
    SkippedValue(s, depth);
    if IsNested(u) {
      NestedValue(u, depth);
      assert [u[0]] + u[1..] == u;
      if u[0] == OPEN_ARRAY {
        t := ArrayHasDerivation(u[1..], depth + 1);
      } else {
        t := ObjectHasDerivation(u[1..], depth + 1);
      }
    } else {
      t := LeafHasDerivation(u, depth);
    }
  }

  lemma {:induction false} ArrayHasDerivation(s: Bytes, depth: nat) returns (t: Tree)
    requires 1 <= depth <= MAX_DEPTH && ReadArray(s, depth).Ok?
    ensures Legal(t) && depth - 1 + Nesting(t) <= MAX_DEPTH
    ensures [OPEN_ARRAY] + s == Print(t) + ReadArray(s, depth).rest
    ensures ReadArray(s, depth).value == ValueOf(t)
    decreases |s|, 2
  {
    hide Skip, ReadItems, PrintElements, LegalElements, ValuesOf;
    var spaces := SplitSpaces(s);
    var u := Skip(s);
    var rest := ReadArray(s, depth).rest;
    if Starts(u, CLOSE_ARRAY) {
      t := EmptyArrayTree(spaces);
      assert u == [CLOSE_ARRAY] + rest;
      RegroupFour([OPEN_ARRAY], spaces, [CLOSE_ARRAY], rest);
    } else {
      SkippedItems(s, depth, []);
      var es := ItemsHaveDerivation(s, depth, []);
      t := ArrayTree(es);
      assert [] + ValuesOf(es) == ValuesOf(es);
      RegroupFour([OPEN_ARRAY], PrintElements(es), [CLOSE_ARRAY], rest);
    }
  }

  lemma {:induction false} ObjectHasDerivation(s: Bytes, depth: nat) returns (t: Tree)
    requires 1 <= depth <= MAX_DEPTH && ReadObject(s, depth).Ok?
    ensures Legal(t) && depth - 1 + Nesting(t) <= MAX_DEPTH
    ensures [OPEN_OBJECT] + s == Print(t) + ReadObject(s, depth).rest
    ensures ReadObject(s, depth).value == ValueOf(t)
    decreases |s|, 3
  {
    hide Skip, ReadFields, PrintFields, LegalFields, MembersOf, PutAll;
    var spaces := SplitSpaces(s);
    var u := Skip(s);
    var rest := ReadObject(s, depth).rest;
    if Starts(u, CLOSE_OBJECT) {
      t := EmptyObjectTree(spaces);
      assert u == [CLOSE_OBJECT] + rest;
      RegroupFour([OPEN_OBJECT], spaces, [CLOSE_OBJECT], rest);
    } else {
      SkippedFields(s, depth, []);
      var fs := FieldsHaveDerivation(s, depth, []);
      t := ObjectTree(fs);
      RegroupFour([OPEN_OBJECT], PrintFields(fs), [CLOSE_OBJECT], rest);
    }
  }

  lemma {:induction false} ItemsHaveDerivation(s: Bytes, depth: nat, items: seq<Value>) returns (es: Elements)
    requires depth <= MAX_DEPTH && ReadItems(s, depth, items).Ok?
    ensures LegalElements(es) && depth + NestingOfElements(es) <= MAX_DEPTH
    ensures s == PrintElements(es) + ([CLOSE_ARRAY] + ReadItems(s, depth, items).rest)
    ensures ReadItems(s, depth, items).value == Array(items + ValuesOf(es))
    decreases |s|, 1
  {
    hide ReadValue, Legal, Print, ValueOf, Nesting;
    var before, t := ValueHasDerivation(s, depth);
    var r := ReadValue(s, depth);
    var after := SplitSpaces(r.rest);
    var u := Skip(r.rest);
    var e := Element(before, t, after);
    assert LegalElement(e) && ElementValue(e) == r.value;
    RegroupThree(before, Print(t), after, u);
    assert u == [u[0]] + u[1..];
    if u[0] == COMMA {
      var more := ItemsHaveDerivation(u[1..], depth, items + [r.value]);
      es := MoreElements(e, more);
      Lists.Regroup(items, [r.value], ValuesOf(more));
      RegroupThree(PrintElement(e), [COMMA], PrintElements(more), [CLOSE_ARRAY] + ReadItems(s, depth, items).rest);
    } else {
      es := LastElement(e);
    }
  }

  lemma {:induction false} FieldHasDerivation(s: Bytes, depth: nat) returns (f: Field)
    requires depth <= MAX_DEPTH && ReadField(s, depth).Ok?
    ensures LegalField(f) && depth + Nesting(f.element.tree) <= MAX_DEPTH
    ensures f.element.after == []
    ensures s == PrintField(f) + ReadField(s, depth).rest
    ensures ReadField(s, depth).value == MemberOf(f)
    decreases |s|, 1
  {
    hide PrintString, ReadString, Meaning, ReadValue, LegalPieces, Legal, Print, Skip, AllSpaces;
    var before := SplitSpaces(s);
    var key := StringHasDerivation(Skip(s));
    var afterKey := ReadString(Skip(s)).rest;
    var after := SplitSpaces(afterKey);
    var u := Skip(afterKey);
    assert u == [COLON] + u[1..];
    var space, t := ValueHasDerivation(u[1..], depth);
    var rest := ReadField(s, depth).rest;
    var e := Element(space, t, []);
    f := Field(before, key, after, e);
    BareElement(space, t);
    assert LegalElement(e);
    Lists.Regroup(space, Print(t), rest);
    RegroupFive(before, PrintString(key), after, [COLON], PrintElement(e), rest);
  }

  lemma BareElement(before: Bytes, t: Tree)
    requires AllSpaces(before) && Legal(t)
    ensures PrintElement(Element(before, t, [])) == before + Print(t) && LegalElement(Element(before, t, []))
  {
    assert Print(t) + [] == Print(t);
  }

  lemma RegroupFive(a: Bytes, b: Bytes, c: Bytes, d: Bytes, e: Bytes, rest: Bytes)
    ensures a + (b + (c + (d + (e + rest)))) == (a + (b + (c + (d + e)))) + rest
  {
    Lists.Regroup(d, e, rest);
    Lists.Regroup(c, d + e, rest);
    Lists.Regroup(b, c + (d + e), rest);
    Lists.Regroup(a, b + (c + (d + e)), rest);
  }

  lemma {:induction false} FieldsHaveDerivation(s: Bytes, depth: nat, members: seq<Member>) returns (fs: Fields)
    requires depth <= MAX_DEPTH && ReadFields(s, depth, members).Ok?
    ensures LegalFields(fs) && depth + NestingOfFields(fs) <= MAX_DEPTH
    ensures s == PrintFields(fs) + ([CLOSE_OBJECT] + ReadFields(s, depth, members).rest)
    ensures ReadFields(s, depth, members).value == Object(PutAll(members, MembersOf(fs)))
    decreases |s|, 2
  {
    hide ReadField, ReadFields, Put, MemberOf, LegalField, PrintField, Skip, AllSpaces, LegalFields;
    FieldsStep(s, depth, members);
    var bare := FieldHasDerivation(s, depth);
    var r := ReadField(s, depth);
    var after := SplitSpaces(r.rest);
    var u := Skip(r.rest);
    var f := bare.(element := bare.element.(after := after));
    FieldAfter(bare, after);
    Lists.Regroup(PrintField(bare), after, u);
    assert s == PrintField(f) + u;
    assert u == [u[0]] + u[1..];
    if u[0] == COMMA {
      var more := FieldsHaveDerivation(u[1..], depth, Put(members, r.value));
      fs := MoreFields(f, more);
      ManyFields(f, more, members);
      var end := [CLOSE_OBJECT] + ReadFields(s, depth, members).rest;
      Lists.Regroup([COMMA], PrintFields(more), end);
      Lists.Regroup(PrintField(f), [COMMA] + PrintFields(more), end);
    } else {
      fs := LastField(f);
      OneField(f, members);
    }
  }

  lemma OneField(f: Field, members: seq<Member>)
    requires LegalField(f)
    ensures LegalFields(LastField(f)) && PutAll(members, MembersOf(LastField(f))) == Put(members, MemberOf(f))
  {
    assert [MemberOf(f)][1..] == [];
  }

  lemma ManyFields(f: Field, more: Fields, members: seq<Member>)
    requires LegalField(f) && LegalFields(more)
    ensures LegalFields(MoreFields(f, more))
    ensures PutAll(members, MembersOf(MoreFields(f, more))) == PutAll(Put(members, MemberOf(f)), MembersOf(more))
  {
    var ms := MembersOf(MoreFields(f, more));
    assert ms[0] == MemberOf(f) && ms[1..] == MembersOf(more);
  }

  /** White space after a field changes neither its legality nor its meaning. */
  lemma FieldAfter(f: Field, after: Bytes)
    requires LegalField(f) && f.element.after == [] && AllSpaces(after)
    ensures var g := f.(element := f.element.(after := after));
            && LegalField(g) && MemberOf(g) == MemberOf(f)
            && PrintField(g) == PrintField(f) + after
  {
    var g := f.(element := f.element.(after := after));
    assert LegalElement(f.element);
    assert LegalElement(g.element) && ElementValue(g.element) == ElementValue(f.element);
    assert PrintElement(g.element) == PrintElement(f.element) + after;
  }

  // --- Documents ------------------------------------------------------------

  /** `parse_json` gives every derivation within the depth limit the value of that derivation. */
  lemma DerivationIsParsed(text: Bytes, before: Bytes, t: Tree, after: Bytes)
    requires Derives(text, before, t, after) && Nesting(t) <= MAX_DEPTH
    ensures ParseText(text) == Parsed(ValueOf(t))
  {
    ReadsTree(t, before, after, 0);
    SkipSpaces(after, []);
    assert after + [] == after;
  }

  lemma ParsedHasDerivation(text: Bytes) returns (before: Bytes, t: Tree, after: Bytes)
    requires ParseText(text).Parsed?
    ensures Derives(text, before, t, after) && Nesting(t) <= MAX_DEPTH
    ensures ParseText(text).value == ValueOf(t)
  {
    before, t := ValueHasDerivation(text, 0);
    after := SplitSpaces(ReadValue(text, 0).rest);
    assert after + [] == after;
  }

  /** `parse_json` accepts exactly the grammar, with at most MAX_DEPTH open brackets. */
  lemma ParsesExactlyTheGrammar(text: Bytes)
    ensures ParseText(text).Parsed? <==>
            exists before, t, after :: Derives(text, before, t, after) && Nesting(t) <= MAX_DEPTH
    ensures forall before, t, after :: Derives(text, before, t, after) && Nesting(t) <= MAX_DEPTH ==>
              ParseText(text) == Parsed(ValueOf(t))
    ensures ParseText(text).Stopped? ==> ParseText(text).offset <= |text|
  {
    hide ParseText, Nesting;
    forall before, t, after | Derives(text, before, t, after) && Nesting(t) <= MAX_DEPTH
      ensures ParseText(text) == Parsed(ValueOf(t))
    {
      DerivationIsParsed(text, before, t, after);
    }
    if ParseText(text).Parsed? {
      var before, t, after := ParsedHasDerivation(text);
    }
    OffsetInText(text);
  }

  lemma OffsetInText(text: Bytes)
    ensures ParseText(text).Stopped? ==> ParseText(text).offset <= |text|
  {
  }
}
