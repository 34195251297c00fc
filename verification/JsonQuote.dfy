/**
  `quote_json` of ctbrowser/lib/Core/json.cpp, and exactly which byte strings survive
  being quoted and read back.
 */
module JsonQuote {
  import opened Utf8
  import opened Utf16
  import Lists
  import opened JsonGrammar
  import opened JsonReading
  import JsonExact

  /** The lower-case hex digit of a number below sixteen. */
  function HexDigit(n: nat): (b: Byte)
    requires n < 16
    ensures HexValue(b) == n
  {
    if n < 10 then 0x30 + n else 0x61 + n - 10
  }

  function UnicodePiece(unit: Unit): (p: Piece)
    ensures p.Unicode?
  {
    Unicode(HexDigit(unit as int / 4096), HexDigit(unit as int / 256 % 16),
            HexDigit(unit as int / 16 % 16), HexDigit(unit as int % 16))
  }

  lemma UnicodePieceMeans(unit: Unit)
    ensures LegalPiece(UnicodePiece(unit)) && UnitOf(UnicodePiece(unit)) == unit
  {
    var u: int := unit;
    assert u / 256 == u / 4096 * 16 + u / 256 % 16;
    assert u / 16 == u / 256 * 16 + u / 16 % 16;
  }

  /** How one byte is written. */
  function BytePiece(b: Byte): (p: Piece) {
    if b == QUOTE || b == BACKSLASH then Short(b)
    else if b == 0x08 then Short(0x62)
    else if b == 0x0C then Short(0x66)
    else if b == 0x0A then Short(0x6E)
    else if b == 0x0D then Short(0x72)
    else if b == 0x09 then Short(0x74)
    else if b < 0x20 then UnicodePiece(b)
    else Raw(b)
  }

  /** The bytes the writer takes for an encoded surrogate. */
  predicate TakenAsSurrogate(s: Bytes, i: nat) {
    i + 2 < |s| && s[i] == 0xED && s[i + 1] >= 0xA0
  }

  /** The unit the writer reads out of three such bytes. */
  function TakenUnit(s: Bytes): (u: Unit)
    requires |s| >= 3
  {
    0xD000 + Tail(s[1]) * 64 + Tail(s[2])
  }

  function Pieces(s: Bytes): (ps: seq<Piece>) {
    if s == [] then []
    else if TakenAsSurrogate(s, 0) then [UnicodePiece(TakenUnit(s))] + Pieces(s[3..])
    else [BytePiece(s[0])] + Pieces(s[1..])
  }

  function Quoted(s: Bytes): (r: Bytes) { PrintString(Pieces(s)) }

  lemma BytePieceMeans(b: Byte)
    ensures LegalPiece(BytePiece(b)) && PieceMeaning(BytePiece(b)) == [b]
    ensures BytePiece(b).Unicode? ==> UnitOf(BytePiece(b)) < 0x20
  {
    hide UnicodePiece, HexOf, LegalPieces;
    if BytePiece(b).Unicode? {
      UnicodePieceMeans(b);
      assert Encode(b) == [b];
    }
  }

  lemma {:induction false} PiecesAreLegal(s: Bytes)
    ensures LegalPieces(Pieces(s))
  {
    if s == [] {
    } else if TakenAsSurrogate(s, 0) {
      UnicodePieceMeans(TakenUnit(s));
      PiecesAreLegal(s[3..]);
    } else {
      BytePieceMeans(s[0]);
      PiecesAreLegal(s[1..]);
    }
  }

  lemma QuotedStep(text: Bytes, i: nat, done: Bytes, p: Piece, next: nat)
    requires i < next <= |text|
    requires Pieces(text[i..]) == [p] + Pieces(text[next..])
    ensures (done + PrintPiece(p)) + PrintPieces(Pieces(text[next..])) == done + PrintPieces(Pieces(text[i..]))
  {
    assert ([p] + Pieces(text[next..]))[1..] == Pieces(text[next..]);
    Lists.Regroup(done, PrintPiece(p), PrintPieces(Pieces(text[next..])));
  }

  lemma PiecesStep(text: Bytes, i: nat)
    requires i < |text|
    ensures TakenAsSurrogate(text, i) ==>
              Pieces(text[i..]) == [UnicodePiece(TakenUnit(text[i..]))] + Pieces(text[i + 3..])
    ensures !TakenAsSurrogate(text, i) ==>
              Pieces(text[i..]) == [BytePiece(text[i])] + Pieces(text[i + 1..])
  {
    assert text[i..][1..] == text[i + 1..];
    if TakenAsSurrogate(text, i) {
      assert text[i..][3..] == text[i + 3..];
    }
  }

  /** `quote_json`, which appends to `out`. */
  method QuoteJson(text: Bytes, before: Bytes) returns (out: Bytes)
    ensures out == before + Quoted(text)
  {
    hide Pieces, PrintPieces, UnicodePiece;
    out := before + [QUOTE];
    var i := 0;
    while i < |text|
      invariant i <= |text|
      invariant out + PrintPieces(Pieces(text[i..])) == (before + [QUOTE]) + PrintPieces(Pieces(text))
    {
      PiecesStep(text, i);
      var c := text[i];
      if c == 0xED && i + 2 < |text| && text[i + 1] >= 0xA0 {
        var cp: Unit := 13 * 4096 + Tail(text[i + 1]) * 64 + Tail(text[i + 2]);
        assert cp == TakenUnit(text[i..]);
        QuotedStep(text, i, out, UnicodePiece(cp), i + 3);
        out := out + PrintPiece(UnicodePiece(cp));
        i := i + 3;
        continue;
      }
      QuotedStep(text, i, out, BytePiece(c), i + 1);
      out := out + PrintPiece(BytePiece(c));
      i := i + 1;
    }
    NothingLeft(text, out);
    out := out + [QUOTE];
    assert out == before + ([QUOTE] + (PrintPieces(Pieces(text)) + [QUOTE]));
  }

  lemma NothingLeft(text: Bytes, out: Bytes)
    ensures out + PrintPieces(Pieces(text[|text|..])) == out
  {
  }

  /** Whatever the bytes, what is written is a JSON string, read back as the pieces mean. */
  lemma QuotedIsRead(s: Bytes)
    ensures LegalPieces(Pieces(s))
    ensures ParseText(Quoted(s)) == Parsed(Text(Meaning(Pieces(s))))
  {
    hide ParseText;
    PiecesAreLegal(s);
    var t := StringTree(Pieces(s));
    assert Quoted(s) == [] + (Print(t) + []);
    JsonExact.DerivationIsParsed(Quoted(s), [], t, []);
  }

  // --- Which strings come back -------------------------------------------------

  /** The bytes taken for a surrogate at `i` are one, and no low half follows a high one. */
  predicate FaithfulAt(s: Bytes, i: nat) {
    TakenAsSurrogate(s, i) ==>
      && s[i + 1] < 0xC0 && IsContinuation(s[i + 2])
      && !(s[i + 1] < 0xB0 && TakenAsSurrogate(s, i + 3) && s[i + 4] >= 0xB0)
  }

  /** Every `ED A0..FF` starts an encoded surrogate, and no two of them make a pair. */
  predicate Faithful(s: Bytes) {
    forall i :: 0 <= i < |s| ==> FaithfulAt(s, i)
  }

  lemma FaithfulSuffix(s: Bytes, k: nat)
    requires k <= |s|
    requires forall i :: 0 <= i < k ==> FaithfulAt(s, i)
    ensures Faithful(s) <==> Faithful(s[k..])
  {
    forall i | 0 <= i < |s| - k
      ensures FaithfulAt(s[k..], i) <==> FaithfulAt(s, i + k)
    {
      assert TakenAsSurrogate(s[k..], i) <==> TakenAsSurrogate(s, i + k);
      assert TakenAsSurrogate(s[k..], i + 3) <==> TakenAsSurrogate(s, i + k + 3);
    }
    if Faithful(s[k..]) {
      forall i | 0 <= i < |s|
        ensures FaithfulAt(s, i)
      {
        if i >= k {
          assert FaithfulAt(s[k..], i - k);
        }
      }
    }
  }

  /** Genuine surrogate bytes are exactly those their unit encodes to. */
  lemma TakenUnitEncodes(s: Bytes)
    requires TakenAsSurrogate(s, 0)
    ensures |Encode(TakenUnit(s))| == 3
    ensures s[..3] == Encode(TakenUnit(s)) <==> s[1] < 0xC0 && IsContinuation(s[2])
    ensures s[1] < 0xC0 ==> (IsHigh(TakenUnit(s)) <==> s[1] < 0xB0) && (IsLow(TakenUnit(s)) <==> s[1] >= 0xB0)
  {
    var u: int := TakenUnit(s);
    var a, b := Tail(s[1]), Tail(s[2]);
    assert u / 64 == 0x340 + a && u % 64 == b;
    assert u / 4096 == 13 && u / 64 % 64 == a;
    assert Encode(u) == [0xED, 0x80 + a, 0x80 + b];
    assert s[..3] == [s[0], s[1], s[2]];
  }

  /** Two taken units that the reader joins. */
  predicate Joined(s: Bytes) {
    && TakenAsSurrogate(s, 0) && TakenAsSurrogate(s, 3)
    && IsHigh(TakenUnit(s)) && IsLow(TakenUnit(s[3..]))
  }

  lemma PairsAreJoined(s: Bytes)
    requires LegalPieces(Pieces(s))
    ensures PairAhead(Pieces(s)) <==> Joined(s)
  {
    hide LegalPieces, LegalPiece;
    if s != [] {
      if TakenAsSurrogate(s, 0) {
        UnicodePieceMeans(TakenUnit(s));
        var rest := s[3..];
        assert Pieces(s)[1..] == Pieces(rest);
        assert TakenAsSurrogate(rest, 0) <==> TakenAsSurrogate(s, 3);
        if rest != [] {
          assert Pieces(s)[1] == Pieces(rest)[0];
          if TakenAsSurrogate(rest, 0) {
            UnicodePieceMeans(TakenUnit(rest));
          } else {
            BytePieceMeans(rest[0]);
          }
        }
      } else {
        BytePieceMeans(s[0]);
      }
    }
  }

  lemma MeaningOfTaken(s: Bytes)
    requires TakenAsSurrogate(s, 0) && LegalPieces(Pieces(s)) && LegalPieces(Pieces(s[3..]))
    ensures !Joined(s) ==> Meaning(Pieces(s)) == Encode(TakenUnit(s)) + Meaning(Pieces(s[3..]))
    ensures Joined(s) ==> Meaning(Pieces(s)) != [] && Meaning(Pieces(s))[0] >= 0xF0
  {
    PairsAreJoined(s);
    UnicodePieceMeans(TakenUnit(s));
    assert Pieces(s)[1..] == Pieces(s[3..]);
  }

  lemma MeaningOfByte(s: Bytes)
    requires s != [] && !TakenAsSurrogate(s, 0) && LegalPieces(Pieces(s)) && LegalPieces(Pieces(s[1..]))
    ensures Meaning(Pieces(s)) == [s[0]] + Meaning(Pieces(s[1..]))
  {
    PairsAreJoined(s);
    BytePieceMeans(s[0]);
    assert Pieces(s)[1..] == Pieces(s[1..]);
  }

  lemma FrontMatches(s: Bytes, front: Bytes, rest: Bytes)
    requires |front| <= |s|
    ensures front + rest == s <==> front == s[..|front|] && rest == s[|front|..]
  {
    assert s == s[..|front|] + s[|front|..];
    if front + rest == s {
      assert (front + rest)[..|front|] == front && (front + rest)[|front|..] == rest;
    }
  }

  /** At the front: being joined is a fault, and a genuine unjoined unit is none. */
  lemma FrontIsFaithful(s: Bytes)
    requires TakenAsSurrogate(s, 0) && s[1] < 0xC0 && IsContinuation(s[2])
    ensures Joined(s) ==> !Faithful(s)
    ensures !Joined(s) ==> (Faithful(s) <==> Faithful(s[3..]))
  {
    TakenUnitEncodes(s);
    if TakenAsSurrogate(s, 3) {
      assert TakenAsSurrogate(s[3..], 0);
      TakenUnitEncodes(s[3..]);
    }
    if Faithful(s) {
      assert FaithfulAt(s, 0);
      FaithfulAfter(s, 3);
    }
    if Faithful(s[3..]) && !Joined(s) {
      if TakenAsSurrogate(s, 3) {
        assert FaithfulAt(s[3..], 0);
      }
      assert FaithfulAt(s, 1) && FaithfulAt(s, 2);
      FaithfulSuffix(s, 3);
    }
  }

  lemma FaithfulAfter(s: Bytes, k: nat)
    requires Faithful(s) && k <= |s|
    ensures Faithful(s[k..])
  {
    FaithfulSuffix(s, k);
  }

  lemma {:induction false} MeaningIsFaithful(s: Bytes)
    requires LegalPieces(Pieces(s))
    ensures Meaning(Pieces(s)) == s <==> Faithful(s)
    decreases |s|
  {
    hide Pieces, Meaning, LegalPieces, Encode;
    if s == [] {
      NothingMeansNothing();
    } else if TakenAsSurrogate(s, 0) {
      var rest := s[3..];
      PiecesAreLegal(rest);
      MeaningIsFaithful(rest);
      MeaningOfTaken(s);
      TakenUnitEncodes(s);
      if s[1] < 0xC0 && IsContinuation(s[2]) {
        FrontIsFaithful(s);
      } else {
        assert !FaithfulAt(s, 0);
      }
      FrontMatches(s, Encode(TakenUnit(s)), Meaning(Pieces(rest)));
    } else {
      var rest := s[1..];
      PiecesAreLegal(rest);
      MeaningIsFaithful(rest);
      MeaningOfByte(s);
      FrontMatches(s, [s[0]], Meaning(Pieces(rest)));
      assert FaithfulAt(s, 0);
      FaithfulSuffix(s, 1);
    }
  }

  lemma NothingMeansNothing()
    ensures Meaning(Pieces([])) == [] && Faithful([])
  {
  }

  /** A byte string comes back from quoting and reading exactly when it is faithful. */
  lemma QuoteRoundTripExactly(s: Bytes)
    ensures ParseText(Quoted(s)) == Parsed(Text(s)) <==> Faithful(s)
  {
    hide Faithful;
    QuotedIsRead(s);
    MeaningIsFaithful(s);
  }

  // --- Well-formed WTF-8 is faithful --------------------------------------------

  lemma NoSurrogateBytes(front: Bytes, rest: Bytes)
    requires forall i :: 0 <= i < |front| ==> !TakenAsSurrogate(front + rest, i)
    ensures Faithful(front + rest) <==> Faithful(rest)
  {
    FaithfulSuffix(front + rest, |front|);
    assert (front + rest)[|front|..] == rest;
  }

  /** A code point's bytes are taken for a surrogate only when it is one. */
  lemma TakenInEncoding(c: Code, rest: Bytes)
    ensures var s := Encode(c) + rest;
            && (TakenAsSurrogate(s, 0) <==> IsSurrogate(c))
            && (forall i :: 1 <= i < |Encode(c)| ==> !TakenAsSurrogate(s, i))
    ensures IsSurrogate(c) ==> var e := Encode(c);
                               |e| == 3 && e[1] < 0xC0 && IsContinuation(e[2]) && (IsLow(c) <==> e[1] >= 0xB0)
  {
    var e, v := Encode(c), c as int;
    SixBitGroups(v);
    assert forall i :: 0 <= i < |e| ==> (e + rest)[i] == e[i];
    assert forall i :: 1 <= i < |e| ==> IsContinuation(e[i]);
    if 0x800 <= v < 0x1_0000 {
      assert e[0] == 0xED <==> v / 4096 == 13;
      if v / 4096 == 13 {
        assert v / 64 == 0x340 + v / 64 % 64;
        assert v >= 0xD800 <==> v / 64 % 64 >= 32;
        assert v >= 0xDC00 <==> v / 64 % 64 >= 48;
      }
    }
  }

  lemma {:induction false} WellFormedIsFaithful(cs: seq<Code>)
    requires NoPairs(cs)
    ensures Faithful(EncodeAll(cs))
  {
    if cs == [] {
    } else {
      var e, rest := Encode(cs[0]), EncodeAll(cs[1..]);
      var s := e + rest;
      assert forall i :: 0 <= i < |cs| - 1 ==> cs[1..][i] == cs[i + 1];
      WellFormedIsFaithful(cs[1..]);
      TakenInEncoding(cs[0], rest);
      if IsSurrogate(cs[0]) {
        assert s[1] == e[1] && s[3..] == rest;
        if TakenAsSurrogate(s, 3) {
          assert cs[1..] != [];
          TakenInEncoding(cs[1], EncodeAll(cs[1..][1..]));
          assert s[4] == rest[1] == Encode(cs[1])[1];
        }
        assert FaithfulAt(s, 0);
        FaithfulSuffix(s, 3);
      } else {
        NoSurrogateBytes(e, rest);
      }
    }
  }

  /** Well-formed WTF-8 text comes back, lone surrogates and control characters included. */
  lemma QuoteRoundTrip(s: Bytes)
    requires WellFormedWtf8(s)
    ensures ParseText(Quoted(s)) == Parsed(Text(s))
  {
    hide ParseText, Quoted, Faithful;
    var cs: seq<Code> :| s == EncodeAll(cs) && NoPairs(cs);
    WellFormedIsFaithful(cs);
    QuoteRoundTripExactly(s);
  }

  /** ED C0 is taken for the start of a surrogate, and the three bytes do not come back. */
  lemma UnfaithfulBytes()
    ensures ParseText(Quoted([0xED, 0xC0, 0x41])) != Parsed(Text([0xED, 0xC0, 0x41]))
  {
    hide ParseText, Quoted;
    var s: Bytes := [0xED, 0xC0, 0x41];
    assert !FaithfulAt(s, 0);
    QuoteRoundTripExactly(s);
  }

  // --- The text that is written --------------------------------------------------------------

  /** A digit of lower-case hexadecimal. */
  function HexLetter(n: int): (b: Byte)
    requires 0 <= n < 16
  {
    "0123456789abcdef"[n] as int % 256
  }

  /** A code unit as `\u` and four digits. */
  function EscapedUnit(u: int): (s: Bytes)
    requires 0 <= u < 0x1_0000
  {
    [0x5C, 0x75, HexLetter(u / 4096), HexLetter(u / 256 % 16), HexLetter(u / 16 % 16), HexLetter(u % 16)]
  }

  /** The table of QuoteJSONString in ECMA-262 section 25.5.2.3, for one byte. */
  function QuotedByte(b: Byte): (s: Bytes) {
    if b == 0x08 then [0x5C, 0x62]
    else if b == 0x09 then [0x5C, 0x74]
    else if b == 0x0A then [0x5C, 0x6E]
    else if b == 0x0C then [0x5C, 0x66]
    else if b == 0x0D then [0x5C, 0x72]
    else if b == 0x22 then [0x5C, 0x22]
    else if b == 0x5C then [0x5C, 0x5C]
    else if b < 0x20 then EscapedUnit(b)
    else [b]
  }

  lemma HexLettersAre(n: nat)
    requires n < 16
    ensures HexDigit(n) == HexLetter(n)
  {
    HexDigitAt(n);
  }

  lemma UnicodeIsEscaped(u: Unit)
    ensures PrintPiece(UnicodePiece(u)) == EscapedUnit(u)
  {
    hide HexDigit, HexLetter;
    HexLettersAre(u as int / 4096);
    HexLettersAre(u as int / 256 % 16);
    HexLettersAre(u as int / 16 % 16);
    HexLettersAre(u as int % 16);
  }

  /** A byte that starts no encoded surrogate is written by the table, and the rest goes on. */
  lemma QuotesByte(b: Byte, rest: Bytes)
    requires !(b == 0xED && |rest| >= 2 && rest[0] >= 0xA0)
    ensures Quoted([b] + rest) == [0x22] + (QuotedByte(b) + Quoted(rest)[1..])
  {
    hide EscapedUnit, UnicodePiece;
    var s := [b] + rest;
    assert s[1..] == rest && !TakenAsSurrogate(s, 0);
    UnicodeIsEscaped(b);
    ConsQuoted(BytePiece(b), Pieces(rest));
  }

  lemma ConsQuoted(p: Piece, ps: seq<Piece>)
    ensures PrintString([p] + ps) == [0x22] + (PrintPiece(p) + PrintString(ps)[1..])
  {
    hide PrintPiece;
    assert ([p] + ps)[1..] == ps;
    Lists.Regroup(PrintPiece(p), PrintPieces(ps), [QUOTE]);
    assert PrintString(ps)[1..] == PrintPieces(ps) + [QUOTE];
  }

  /** An encoded surrogate is written as the escape of its unit. */
  lemma QuotesSurrogate(y: Byte, z: Byte, rest: Bytes)
    requires y >= 0xA0
    ensures Quoted([0xED, y, z] + rest) ==
            [0x22] + (EscapedUnit(0xD000 + y as int % 64 * 64 + z as int % 64) + Quoted(rest)[1..])
  {
    hide EscapedUnit, UnicodePiece;
    var s := [0xED, y, z] + rest;
    assert s[3..] == rest && TakenAsSurrogate(s, 0);
    UnicodeIsEscaped(TakenUnit(s));
    ConsQuoted(UnicodePiece(TakenUnit(s)), Pieces(rest));
  }

  /** Nothing is two quotes. */
  lemma QuotesNothing()
    ensures Quoted([]) == [0x22, 0x22]
  {
  }
}
