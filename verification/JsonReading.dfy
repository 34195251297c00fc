/**
  What the JSON reader (ctbrowser/lib/Core/json.cpp) computes, as functions on the
  text that is still to be read, and the proof that it accepts exactly the grammar
  of module JsonGrammar and returns the value the grammar gives.
 */
module JsonReading {
  import opened Utf8
  import opened Utf16
  import Lists
  import opened JsonGrammar

  const MAX_DEPTH: nat := 1000

  /** A value read and the text after it, or the text at which reading stopped. */
  datatype Out<+T> = Ok(value: T, rest: Bytes) | Fail(rest: Bytes)

  predicate Starts(s: Bytes, b: Byte) { s != [] && s[0] == b }

  function Skip(s: Bytes): (r: Bytes)
    ensures |r| <= |s|
  {
    if s != [] && IsSpace(s[0]) then Skip(s[1..]) else s
  }

  function SkipDigits(s: Bytes): (r: Bytes)
    ensures |r| <= |s|
  {
    if s != [] && IsDigit(s[0]) then SkipDigits(s[1..]) else s
  }

  // --- Strings --------------------------------------------------------------

  predicate HexAhead(s: Bytes) {
    |s| >= 4 && IsHex(s[0]) && IsHex(s[1]) && IsHex(s[2]) && IsHex(s[3])
  }

  function HexOfFront(s: Bytes): (u: Unit)
    requires HexAhead(s)
  {
    HexOf(s[0], s[1], s[2], s[3])
  }

  /** A `\u` escape naming a low surrogate comes next. */
  predicate LowAhead(s: Bytes) {
    |s| >= 2 && s[0] == BACKSLASH && s[1] == LETTER_U && HexAhead(s[2..]) && IsLow(HexOfFront(s[2..]))
  }

  /** The bytes of a string after its opening quote, appended to `acc`. */
  function ReadPieces(s: Bytes, acc: Bytes): (r: Out<Bytes>)
    ensures |r.rest| <= |s|
    decreases |s|
  {
    if s == [] then Fail(s)
    else if s[0] == QUOTE then Ok(acc, s[1..])
    else if s[0] < 0x20 then Fail(s)
    else if s[0] != BACKSLASH then ReadPieces(s[1..], acc + [s[0]])
    else if |s| == 1 then Fail(s[1..])
    else if s[1] == LETTER_U then
      if !HexAhead(s[2..]) then Fail(s[2..])
      else
        var unit := HexOfFront(s[2..]);
        if IsHigh(unit) && LowAhead(s[6..]) then
          ReadPieces(s[12..], acc + Encode(Combine(unit, HexOfFront(s[8..]))))
        else
          ReadPieces(s[6..], acc + Encode(unit))
    else if Escaped(s[1]) >= 0 then ReadPieces(s[2..], acc + [Escaped(s[1])])
    else Fail(s[2..])
  }

  function ReadString(s: Bytes): (r: Out<Bytes>)
    ensures |r.rest| <= |s|
    ensures r.Ok? ==> |r.rest| < |s|
  {
    if Starts(s, QUOTE) then ReadPieces(s[1..], []) else Fail(s)
  }

  // --- Numbers --------------------------------------------------------------

  /** At least one digit, then as many as there are. */
  function ReadDigits(s: Bytes): (r: Out<()>)
    ensures |r.rest| <= |s|
    ensures r.Ok? ==> |r.rest| < |s|
  {
    if s == [] || !IsDigit(s[0]) then Fail(s) else Ok((), SkipDigits(s[1..]))
  }

  function ReadWhole(s: Bytes): (r: Out<()>)
    ensures |r.rest| <= |s|
    ensures r.Ok? ==> |r.rest| < |s|
  {
    if Starts(s, ZERO) then Ok((), s[1..]) else ReadDigits(s)
  }

  function ReadFraction(s: Bytes): (r: Out<()>)
    ensures |r.rest| <= |s|
  {
    if Starts(s, POINT) then ReadDigits(s[1..]) else Ok((), s)
  }

  function SkipSign(s: Bytes): (r: Bytes)
    ensures |r| <= |s|
  {
    if Starts(s, PLUS) || Starts(s, MINUS) then s[1..] else s
  }

  function ReadExponent(s: Bytes): (r: Out<()>)
    ensures |r.rest| <= |s|
  {
    if Starts(s, 0x65) || Starts(s, 0x45) then ReadDigits(SkipSign(s[1..])) else Ok((), s)
  }

  /** The end of the number at the front of `s`. */
  function NumberEnd(s: Bytes): (r: Out<()>)
    ensures |r.rest| <= |s|
    ensures r.Ok? ==> |r.rest| < |s|
  {
    var whole := ReadWhole(if Starts(s, MINUS) then s[1..] else s);
    if whole.Fail? then whole
    else
      var fraction := ReadFraction(whole.rest);
      if fraction.Fail? then fraction else ReadExponent(fraction.rest)
  }

  function ReadNumber(s: Bytes): (r: Out<Value>)
    ensures |r.rest| <= |s|
    ensures r.Ok? ==> |r.rest| < |s|
  {
    var end := NumberEnd(s);
    if end.Fail? then Fail(end.rest) else Ok(Number(s[..|s| - |end.rest|]), end.rest)
  }

  // --- Values ---------------------------------------------------------------

  function ReadValue(s: Bytes, depth: int): (r: Out<Value>)
    ensures |r.rest| <= |s|
    ensures r.Ok? ==> |r.rest| < |s|
    decreases |s|, 0
  {
    var t := Skip(s);
    if t == [] then Fail(t)
    else if t[0] == OPEN_OBJECT || t[0] == OPEN_ARRAY then
      if depth + 1 > MAX_DEPTH then Fail(t)
      else if t[0] == OPEN_OBJECT then ReadObject(t[1..], depth + 1)
      else ReadArray(t[1..], depth + 1)
    else if t[0] == QUOTE then
      match ReadString(t)
      case Ok(text, rest) => Ok(Text(text), rest)
      case Fail(rest) => Fail(rest)
    else if TRUE <= t then Ok(Bool(true), t[4..])
    else if FALSE <= t then Ok(Bool(false), t[5..])
    else if NULL <= t then Ok(Null, t[4..])
    else ReadNumber(t)
  }

  function ReadArray(s: Bytes, depth: int): (r: Out<Value>)
    ensures |r.rest| <= |s|
    decreases |s|, 2
  {
    var t := Skip(s);
    if Starts(t, CLOSE_ARRAY) then Ok(Array([]), t[1..]) else ReadItems(t, depth, [])
  }

  function ReadItems(s: Bytes, depth: int, items: seq<Value>): (r: Out<Value>)
    ensures |r.rest| <= |s|
    decreases |s|, 1
  {
    match ReadValue(s, depth)
    case Fail(rest) => Fail(rest)
    case Ok(v, rest) =>
      var t := Skip(rest);
      if Starts(t, COMMA) then ReadItems(t[1..], depth, items + [v])
      else if Starts(t, CLOSE_ARRAY) then Ok(Array(items + [v]), t[1..])
      else Fail(t)
  }

  function ReadObject(s: Bytes, depth: int): (r: Out<Value>)
    ensures |r.rest| <= |s|
    decreases |s|, 3
  {
    var t := Skip(s);
    if Starts(t, CLOSE_OBJECT) then Ok(Object([]), t[1..]) else ReadFields(t, depth, [])
  }

  /** A key, its colon and its value. */
  function ReadField(s: Bytes, depth: int): (r: Out<Member>)
    ensures |r.rest| <= |s|
    ensures r.Ok? ==> |r.rest| < |s|
    decreases |s|, 1
  {
    match ReadString(Skip(s))
    case Fail(rest) => Fail(rest)
    case Ok(key, rest) =>
      var t := Skip(rest);
      if !Starts(t, COLON) then Fail(t)
      else
        match ReadValue(t[1..], depth)
        case Fail(end) => Fail(end)
        case Ok(v, end) => Ok(Member(key, v), end)
  }

  function ReadFields(s: Bytes, depth: int, members: seq<Member>): (r: Out<Value>)
    ensures |r.rest| <= |s|
    decreases |s|, 2
  {
    match ReadField(s, depth)
    case Fail(rest) => Fail(rest)
    case Ok(m, rest) =>
      var t := Skip(rest);
      if Starts(t, COMMA) then ReadFields(t[1..], depth, Put(members, m))
      else if Starts(t, CLOSE_OBJECT) then Ok(Object(Put(members, m)), t[1..])
      else Fail(t)
  }

  /** One turn of the element loop. */
  lemma ItemsStep(s: Bytes, depth: int, items: seq<Value>)
    ensures var r := ReadValue(s, depth);
            ReadItems(s, depth, items) ==
              if r.Fail? then Fail(r.rest)
              else
                var t := Skip(r.rest);
                if Starts(t, COMMA) then ReadItems(t[1..], depth, items + [r.value])
                else if Starts(t, CLOSE_ARRAY) then Ok(Array(items + [r.value]), t[1..])
                else Fail(t)
  {
  }

  /** One turn of the member loop. */
  lemma FieldsStep(s: Bytes, depth: int, members: seq<Member>)
    ensures var r := ReadField(s, depth);
            ReadFields(s, depth, members) ==
              if r.Fail? then Fail(r.rest)
              else
                var t := Skip(r.rest);
                if Starts(t, COMMA) then ReadFields(t[1..], depth, Put(members, r.value))
                else if Starts(t, CLOSE_OBJECT) then Ok(Object(Put(members, r.value)), t[1..])
                else Fail(t)
  {
  }

  /** `parse_json`: the value, or the byte offset at which reading stopped. */
  datatype Parsed = Parsed(value: Value) | Stopped(offset: nat)

  function ParseText(text: Bytes): (p: Parsed) {
    var r := ReadValue(text, 0);
    var end := Skip(r.rest);
    if r.Ok? && end == [] then Parsed(r.value) else Stopped(|text| - |end|)
  }

  // --- The reader accepts every derivation ------------------------------------

  lemma {:induction false} SkipSpaces(spaces: Bytes, s: Bytes)
    requires AllSpaces(spaces)
    requires s == [] || !IsSpace(s[0])
    ensures Skip(spaces + s) == s
  {
    if spaces == [] {
      assert spaces + s == s;
    } else {
      assert (spaces + s)[1..] == spaces[1..] + s;
      SkipSpaces(spaces[1..], s);
    }
  }

  lemma {:induction false} SkipAllDigits(digits: Bytes, s: Bytes)
    requires AllDigits(digits)
    requires s == [] || !IsDigit(s[0])
    ensures SkipDigits(digits + s) == s
  {
    if digits == [] {
      assert digits + s == s;
    } else {
      assert (digits + s)[1..] == digits[1..] + s;
      SkipAllDigits(digits[1..], s);
    }
  }

  /** What may follow a value: the end, white space, or a structural character. */
  predicate MayFollow(s: Bytes) {
    s == [] || IsSpace(s[0]) || s[0] == COMMA || s[0] == CLOSE_ARRAY || s[0] == CLOSE_OBJECT
  }

  lemma ReadsPiece(p: Piece, rest: Bytes, acc: Bytes)
    requires LegalPiece(p)
    requires p.Unicode? && IsHigh(UnitOf(p)) ==> !LowAhead(rest)
    ensures ReadPieces(PrintPiece(p) + rest, acc) == ReadPieces(rest, acc + PieceMeaning(p))
  {
    var s := PrintPiece(p) + rest;
    match p
    case Raw(b) =>
      assert s[0] == b && s[1..] == rest;
    case Short(letter) =>
      assert s[0] == BACKSLASH && s[1] == letter && s[2..] == rest;
    case Unicode(a, b, c, d) =>
      assert s[0] == BACKSLASH && s[1] == LETTER_U && s[6..] == rest;
      assert s[2..][0] == a && s[2..][1] == b && s[2..][2] == c && s[2..][3] == d;
  }

  lemma ReadsPair(high: Piece, low: Piece, rest: Bytes, acc: Bytes)
    requires LegalPieces([high, low]) && PairAhead([high, low])
    ensures ReadPieces(PrintPiece(high) + (PrintPiece(low) + rest), acc)
         == ReadPieces(rest, acc + Encode(Combine(UnitOf(high), UnitOf(low))))
  {
    assert [high, low][0] == high && [high, low][1] == low;
    var s := PrintPiece(high) + (PrintPiece(low) + rest);
    assert s[0] == BACKSLASH && s[1] == LETTER_U;
    assert s[2..][0] == high.a && s[2..][1] == high.b && s[2..][2] == high.c && s[2..][3] == high.d;
    assert s[6..] == PrintPiece(low) + rest;
    assert s[8..][0] == low.a && s[8..][1] == low.b && s[8..][2] == low.c && s[8..][3] == low.d;
    assert s[6..][2..] == s[8..];
    assert s[12..] == rest;
  }

  /** The text of the next piece starts with a low surrogate escape only if the piece is one. */
  lemma LowAheadIsPiece(ps: seq<Piece>, rest: Bytes)
    requires LegalPieces(ps)
    ensures LowAhead(PrintPieces(ps) + ([QUOTE] + rest)) ==>
              ps != [] && ps[0].Unicode? && IsLow(UnitOf(ps[0]))
  {
    hide LowAhead, LegalPiece, PrintPiece;
    var close := [QUOTE] + rest;
    if ps == [] {
      NoLowAhead(PrintPieces(ps) + close);
    } else {
      Lists.Regroup(PrintPiece(ps[0]), PrintPieces(ps[1..]), close);
      LowAheadInPiece(ps[0], PrintPieces(ps[1..]) + close);
    }
  }

  lemma NoLowAhead(s: Bytes)
    requires Starts(s, QUOTE)
    ensures !LowAhead(s)
  {
  }

  lemma LowAheadInPiece(p: Piece, rest: Bytes)
    requires LegalPiece(p)
    ensures LowAhead(PrintPiece(p) + rest) ==> p.Unicode? && IsLow(UnitOf(p))
  {
    hide IsLow;
    var s := PrintPiece(p) + rest;
    assert s[0] == PrintPiece(p)[0];
    match p
    case Raw(b) =>
    case Short(letter) => assert s[1] == letter;
    case Unicode(a, b, c, d) =>
      assert s[2..][0] == a && s[2..][1] == b && s[2..][2] == c && s[2..][3] == d;
  }

  lemma {:induction false} ReadsPieces(ps: seq<Piece>, rest: Bytes, acc: Bytes)
    requires LegalPieces(ps)
    ensures ReadPieces(PrintPieces(ps) + ([QUOTE] + rest), acc) == Ok(acc + Meaning(ps), rest)
    decreases |ps|
  {
    hide ReadPieces, HexAhead, LowAhead, PrintPiece, PieceMeaning, Encode, Combine, LegalPiece;
    var tail := [QUOTE] + rest;
    if ps == [] {
      ReadsQuote(rest, acc);
      assert PrintPieces(ps) + tail == tail;
      assert acc + Meaning(ps) == acc;
    } else if PairAhead(ps) {
      var after := PrintPieces(ps[2..]) + tail;
      assert PrintPieces(ps) + tail == PrintPiece(ps[0]) + (PrintPiece(ps[1]) + after) by {
        assert ps[1..][1..] == ps[2..] && ps[1..][0] == ps[1];
      }
      ReadsPair(ps[0], ps[1], after, acc);
      var both := Encode(Combine(UnitOf(ps[0]), UnitOf(ps[1])));
      ReadsPieces(ps[2..], rest, acc + both);
      Lists.Regroup(acc, both, Meaning(ps[2..]));
    } else {
      var after := PrintPieces(ps[1..]) + tail;
      assert PrintPieces(ps) + tail == PrintPiece(ps[0]) + after;
      LowAheadIsPiece(ps[1..], rest);
      ReadsPiece(ps[0], after, acc);
      ReadsPieces(ps[1..], rest, acc + PieceMeaning(ps[0]));
      Lists.Regroup(acc, PieceMeaning(ps[0]), Meaning(ps[1..]));
    }
  }

  lemma ReadsQuote(rest: Bytes, acc: Bytes)
    ensures ReadPieces([QUOTE] + rest, acc) == Ok(acc, rest)
  {
    assert ([QUOTE] + rest)[1..] == rest;
  }

  lemma ReadsString(ps: seq<Piece>, rest: Bytes)
    requires LegalPieces(ps)
    ensures ReadString(PrintString(ps) + rest) == Ok(Meaning(ps), rest)
  {
    hide ReadPieces, Meaning, PrintPieces;
    var s := PrintString(ps) + rest;
    assert s[1..] == PrintPieces(ps) + ([QUOTE] + rest);
    ReadsPieces(ps, rest, []);
    assert [] + Meaning(ps) == Meaning(ps);
  }

  lemma ReadsDigits(digits: Bytes, rest: Bytes)
    requires digits != [] && AllDigits(digits)
    requires rest == [] || !IsDigit(rest[0])
    ensures ReadDigits(digits + rest) == Ok((), rest)
  {
    assert (digits + rest)[1..] == digits[1..] + rest;
    SkipAllDigits(digits[1..], rest);
  }

  lemma SkipsSign(sign: Bytes, digits: Bytes, rest: Bytes)
    requires sign == [] || sign == [PLUS] || sign == [MINUS]
    requires digits != [] && AllDigits(digits)
    ensures SkipSign(sign + (digits + rest)) == digits + rest
  {
    var s := sign + (digits + rest);
    if sign == [] {
      assert s == digits + rest;
      assert s[0] == digits[0];
    } else {
      assert s[0] == sign[0] && s[1..] == digits + rest;
    }
  }

  lemma RegroupExponent(e: Byte, sign: Bytes, digits: Bytes, rest: Bytes)
    ensures (([e] + sign + digits) + rest)[1..] == sign + (digits + rest)
  {
  }

  lemma ReadsExponent(x: Exponent, rest: Bytes)
    requires LegalExponent(x) && MayFollow(rest)
    ensures ReadExponent(PrintExponent(x) + rest) == Ok((), rest)
    ensures var s := PrintExponent(x) + rest; s == [] || !(IsDigit(s[0]) || s[0] == POINT)
  {
    hide ReadDigits, SkipSign, AllDigits;
    var s := PrintExponent(x) + rest;
    if x.NoExponent? {
      assert s == rest;
    } else {
      RegroupExponent(x.e, x.sign, x.digits, rest);
      assert s[0] == x.e;
      SkipsSign(x.sign, x.digits, rest);
      ReadsDigits(x.digits, rest);
    }
  }

  lemma ReadsFraction(f: Bytes, rest: Bytes)
    requires AllDigits(f)
    requires rest == [] || !(IsDigit(rest[0]) || rest[0] == POINT)
    ensures ReadFraction(PrintFraction(f) + rest) == Ok((), rest)
    ensures var s := PrintFraction(f) + rest; s == [] || !IsDigit(s[0])
  {
    var s := PrintFraction(f) + rest;
    if f == [] {
      assert s == rest;
    } else {
      assert s[1..] == f + rest;
      ReadsDigits(f, rest);
    }
  }

  lemma ReadsWhole(w: Bytes, rest: Bytes)
    requires w != [] && AllDigits(w) && (w[0] == ZERO ==> |w| == 1)
    requires rest == [] || !IsDigit(rest[0])
    ensures ReadWhole(w + rest) == Ok((), rest)
  {
    assert (w + rest)[|w|..] == rest;
    ReadsDigits(w, rest);
  }

  lemma ReadsNumeral(n: Numeral, rest: Bytes)
    requires LegalNumeral(n) && MayFollow(rest)
    ensures ReadNumber(PrintNumeral(n) + rest) == Ok(Number(PrintNumeral(n)), rest)
    ensures PrintNumeral(n) != [] && (IsDigit(PrintNumeral(n)[0]) || PrintNumeral(n)[0] == MINUS)
  {
    hide ReadWhole, ReadFraction, ReadExponent, PrintFraction, PrintExponent, LegalExponent;
    var s := PrintNumeral(n) + rest;
    var sign := if n.minus then [MINUS] else [];
    var fromExponent := PrintExponent(n.exponent) + rest;
    var fromFraction := PrintFraction(n.fraction) + fromExponent;
    var unsigned := n.whole + fromFraction;
    Lists.Regroup(PrintFraction(n.fraction), PrintExponent(n.exponent), rest);
    Lists.Regroup(n.whole, PrintFraction(n.fraction) + PrintExponent(n.exponent), rest);
    Lists.Regroup(sign, n.whole + (PrintFraction(n.fraction) + PrintExponent(n.exponent)), rest);
    assert s == sign + unsigned;
    assert unsigned[0] == n.whole[0];
    assert (if Starts(s, MINUS) then s[1..] else s) == unsigned;
    ReadsExponent(n.exponent, rest);
    ReadsFraction(n.fraction, fromExponent);
    ReadsWhole(n.whole, fromFraction);
    assert s[..|s| - |rest|] == PrintNumeral(n);
  }

  predicate StartsValue(s: Bytes) {
    && s != [] && !IsSpace(s[0])
    && s[0] != COMMA && s[0] != CLOSE_ARRAY && s[0] != CLOSE_OBJECT
  }

  lemma PrintStarts(t: Tree)
    requires Legal(t)
    ensures StartsValue(Print(t))
  {
    if t.NumberTree? {
      var n := t.numeral;
      assert Print(t)[0] == if n.minus then MINUS else n.whole[0];
    }
  }

  lemma PrintsQuote(ps: seq<Piece>, rest: Bytes)
    ensures Starts(PrintString(ps) + rest, QUOTE)
  {
  }

  lemma ReadsLiteral(t: Tree, rest: Bytes, depth: int)
    requires t.NullTree? || t.TrueTree? || t.FalseTree?
    ensures ReadValue(Print(t) + rest, depth) == Ok(ValueOf(t), rest)
  {
    var s := Print(t) + rest;
    assert Skip(s) == s;
    assert s[..|Print(t)|] == Print(t) && s[|Print(t)|..] == rest;
    assert s[0] == Print(t)[0];
  }

  lemma ReadsEmpty(t: Tree, rest: Bytes, depth: int)
    requires (t.EmptyArrayTree? || t.EmptyObjectTree?) && Legal(t) && depth + 1 <= MAX_DEPTH
    ensures ReadValue(Print(t) + rest, depth) == Ok(ValueOf(t), rest)
  {
    var s := Print(t) + rest;
    var close := [if t.EmptyArrayTree? then CLOSE_ARRAY else CLOSE_OBJECT] + rest;
    assert Skip(s) == s;
    assert s[1..] == t.space + close;
    SkipSpaces(t.space, close);
    assert close[1..] == rest;
  }

  /** White space in front of a value is skipped. */
  lemma ReadsAfterSpaces(before: Bytes, s: Bytes, depth: int)
    requires AllSpaces(before) && StartsValue(s)
    ensures Skip(s) == s
    ensures ReadValue(before + s, depth) == ReadValue(s, depth)
  {
    SkipSpaces(before, s);
  }

  /** Every legal tree that fits below the depth limit is read, and gives its value. */
  lemma {:induction false} ReadsTree(t: Tree, before: Bytes, rest: Bytes, depth: int)
    requires Legal(t) && AllSpaces(before) && MayFollow(rest)
    requires depth + Nesting(t) <= MAX_DEPTH
    ensures ReadValue(before + (Print(t) + rest), depth) == Ok(ValueOf(t), rest)
    decreases t, 0
  {
    hide LegalPieces, LegalNumeral, ReadArray, ReadObject, ReadString, ReadNumber, PrintString, Meaning;
    hide PrintNumeral, PrintElements, PrintFields, ReadItems, ReadFields, LegalElements, LegalFields;
    hide ValuesOf, MembersOf, PutAll, Skip, AllSpaces;
    var s := Print(t) + rest;
    PrintStarts(t);
    assert s[0] == Print(t)[0];
    ReadsAfterSpaces(before, s, depth);
    match t
    case NullTree => ReadsLiteral(t, rest, depth);
    case TrueTree => ReadsLiteral(t, rest, depth);
    case FalseTree => ReadsLiteral(t, rest, depth);
    case NumberTree(n) => ReadsNumeral(n, rest); ReadValueOfNumber(s, depth);
    case StringTree(ps) => ReadsString(ps, rest); PrintsQuote(ps, rest);
    case EmptyArrayTree(w) => ReadsEmpty(t, rest, depth);
    case ArrayTree(es) =>
      assert s[1..] == PrintElements(es) + ([CLOSE_ARRAY] + rest);
      ReadsElements(es, rest, depth + 1, []);
      ReadsArray(es, rest, depth + 1);
      assert [] + ValuesOf(es) == ValuesOf(es);
    case EmptyObjectTree(w) => ReadsEmpty(t, rest, depth);
    case ObjectTree(fs) =>
      assert s[1..] == PrintFields(fs) + ([CLOSE_OBJECT] + rest);
      ReadsFields(fs, rest, depth + 1, []);
      ReadsObject(fs, rest, depth + 1);
  }

  lemma ReadValueOfNumber(s: Bytes, depth: int)
    requires s != [] && (IsDigit(s[0]) || s[0] == MINUS)
    ensures ReadValue(s, depth) == ReadNumber(s)
  {
    assert Skip(s) == s;
    assert s[0] != TRUE[0] && s[0] != FALSE[0] && s[0] != NULL[0];
  }

  lemma {:induction false} SkipTwice(s: Bytes)
    ensures Skip(Skip(s)) == Skip(s)
  {
    if s != [] && IsSpace(s[0]) {
      SkipTwice(s[1..]);
    }
  }

  /** Skipping white space before a list changes nothing: its first value skips it anyway. */
  lemma SkippedItems(s: Bytes, depth: int, items: seq<Value>)
    ensures ReadItems(Skip(s), depth, items) == ReadItems(s, depth, items)
  {
    SkipTwice(s);
    assert ReadValue(Skip(s), depth) == ReadValue(s, depth);
  }

  lemma SkippedFields(s: Bytes, depth: int, members: seq<Member>)
    ensures ReadFields(Skip(s), depth, members) == ReadFields(s, depth, members)
  {
    SkipTwice(s);
    assert ReadField(Skip(s), depth) == ReadField(s, depth);
  }

  /** What is printed after the first element. */
  function ElementsTail(es: Elements): Bytes {
    if es.LastElement? then [] else [COMMA] + PrintElements(es.rest)
  }

  function FieldsTail(fs: Fields): Bytes {
    if fs.LastField? then [] else [COMMA] + PrintFields(fs.rest)
  }

  /** A list of elements starts with a value, once its white space is skipped. */
  lemma ReadsArray(es: Elements, rest: Bytes, depth: int)
    requires LegalElements(es)
    ensures var s := PrintElements(es) + ([CLOSE_ARRAY] + rest);
            ReadArray(s, depth) == ReadItems(s, depth, [])
  {
    var s := PrintElements(es) + ([CLOSE_ARRAY] + rest);
    var e := if es.LastElement? then es.last else es.first;
    assert LegalElement(e);
    PrintStarts(e.tree);
    var tail := e.after + ElementsTail(es) + ([CLOSE_ARRAY] + rest);
    assert PrintElements(es) == PrintElement(e) + ElementsTail(es);
    assert s == e.before + (Print(e.tree) + tail);
    SkipSpaces(e.before, Print(e.tree) + tail);
    assert Skip(s)[0] == Print(e.tree)[0];
    SkippedItems(s, depth, []);
  }

  lemma ReadsObject(fs: Fields, rest: Bytes, depth: int)
    requires LegalFields(fs)
    ensures var s := PrintFields(fs) + ([CLOSE_OBJECT] + rest);
            ReadObject(s, depth) == ReadFields(s, depth, [])
  {
    var s := PrintFields(fs) + ([CLOSE_OBJECT] + rest);
    var f := if fs.LastField? then fs.last else fs.first;
    assert LegalField(f);
    var key := PrintString(f.key);
    var tail := f.after + ([COLON] + PrintElement(f.element)) + FieldsTail(fs) + ([CLOSE_OBJECT] + rest);
    assert PrintFields(fs) == PrintField(f) + FieldsTail(fs);
    assert s == f.before + (key + tail);
    SkipSpaces(f.before, key + tail);
    assert Skip(s)[0] == QUOTE;
    SkippedFields(s, depth, []);
  }

  /** An element, then a separator or a closing bracket. */
  lemma ReadsElement(e: Element, next: Bytes, depth: int)
    requires LegalElement(e) && next != [] && MayFollow(next) && !IsSpace(next[0])
    requires depth + Nesting(e.tree) <= MAX_DEPTH
    ensures var r := ReadValue(PrintElement(e) + next, depth);
            r == Ok(ElementValue(e), e.after + next) && Skip(r.rest) == next
    decreases e, 1
  {
    var after := e.after + next;
    assert e.after != [] ==> after[0] == e.after[0];
    assert PrintElement(e) + next == e.before + (Print(e.tree) + after);
    ReadsTree(e.tree, e.before, after, depth);
    SkipSpaces(e.after, next);
  }

  lemma {:induction false} ReadsElements(es: Elements, rest: Bytes, depth: int, items: seq<Value>)
    requires LegalElements(es)
    requires depth + NestingOfElements(es) <= MAX_DEPTH
    ensures ReadItems(PrintElements(es) + ([CLOSE_ARRAY] + rest), depth, items)
         == Ok(Array(items + ValuesOf(es)), rest)
    decreases es, 2
  {
    hide ReadValue, ElementValue, LegalElement, PrintElement, Skip;
    var close := [CLOSE_ARRAY] + rest;
    var s := PrintElements(es) + close;
    match es
    case LastElement(e) =>
      ReadsElement(e, close, depth);
      assert close[1..] == rest;
    case MoreElements(e, more) =>
      var next := [COMMA] + (PrintElements(more) + close);
      Lists.Regroup([COMMA], PrintElements(more), close);
      Lists.Regroup(PrintElement(e), [COMMA] + PrintElements(more), close);
      ReadsElement(e, next, depth);
      assert next[1..] == PrintElements(more) + close;
      ReadsElements(more, rest, depth, items + [ElementValue(e)]);
      Lists.Regroup(items, [ElementValue(e)], ValuesOf(more));
  }

  lemma ReadsField(f: Field, next: Bytes, depth: int)
    requires LegalField(f) && next != [] && MayFollow(next) && !IsSpace(next[0])
    requires depth + Nesting(f.element.tree) <= MAX_DEPTH
    ensures var r := ReadField(PrintField(f) + next, depth);
            r == Ok(MemberOf(f), f.element.after + next) && Skip(r.rest) == next
    decreases f, 2
  {
    hide PrintString, ReadString, Meaning, ReadValue;
    var fromElement := PrintElement(f.element) + next;
    var fromColon := [COLON] + fromElement;
    var fromAfter := f.after + fromColon;
    var fromKey := PrintString(f.key) + fromAfter;
    assert PrintField(f) + next == f.before + fromKey;
    PrintsQuote(f.key, fromAfter);
    SkipSpaces(f.before, fromKey);
    ReadsString(f.key, fromAfter);
    SkipSpaces(f.after, fromColon);
    assert fromColon[1..] == fromElement;
    ReadsElement(f.element, next, depth);
  }

  lemma {:induction false} ReadsFields(fs: Fields, rest: Bytes, depth: int, members: seq<Member>)
    requires LegalFields(fs)
    requires depth + NestingOfFields(fs) <= MAX_DEPTH
    ensures ReadFields(PrintFields(fs) + ([CLOSE_OBJECT] + rest), depth, members)
         == Ok(Object(PutAll(members, MembersOf(fs))), rest)
    decreases fs, 3
  {
    hide Put, ReadField;
    var close := [CLOSE_OBJECT] + rest;
    var s := PrintFields(fs) + close;
    match fs
    case LastField(f) =>
      ReadsField(f, close, depth);
      assert close[1..] == rest;
      assert [MemberOf(f)][1..] == [];
    case MoreFields(f, more) =>
      var next := [COMMA] + (PrintFields(more) + close);
      assert s == PrintField(f) + next;
      ReadsField(f, next, depth);
      assert next[1..] == PrintFields(more) + close;
      ReadsFields(more, rest, depth, Put(members, MemberOf(f)));
      assert MembersOf(fs)[0] == MemberOf(f) && MembersOf(fs)[1..] == MembersOf(more);
  }
}
