/**
  Percent-decoding of ctbrowser/lib/Core/uri.cpp. The decoder accepts exactly the texts
  made of plain bytes and of escapes that spell sequences of RFC 3629 section 4, and what
  it gives back is what they spell.
 */
module Uri {
  import opened Options
  import opened Utf8
  import Lists

  const PERCENT: Byte := 0x25

  // --- What a text is made of ------------------------------------------------------------

  /** One sequence of RFC 3629 section 4, by its table of byte ranges. */
  predicate IsUtf8Sequence(b: Bytes) {
    || (|b| == 1 && b[0] <= 0x7F)
    || (|b| == 2 && 0xC2 <= b[0] <= 0xDF && IsContinuation(b[1]))
    || (|b| == 3 && b[0] == 0xE0 && 0xA0 <= b[1] <= 0xBF && IsContinuation(b[2]))
    || (|b| == 3 && 0xE1 <= b[0] <= 0xEC && IsContinuation(b[1]) && IsContinuation(b[2]))
    || (|b| == 3 && b[0] == 0xED && 0x80 <= b[1] <= 0x9F && IsContinuation(b[2]))
    || (|b| == 3 && 0xEE <= b[0] <= 0xEF && IsContinuation(b[1]) && IsContinuation(b[2]))
    || (|b| == 4 && b[0] == 0xF0 && 0x90 <= b[1] <= 0xBF && IsContinuation(b[2]) && IsContinuation(b[3]))
    || (|b| == 4 && 0xF1 <= b[0] <= 0xF3 && IsContinuation(b[1]) && IsContinuation(b[2]) && IsContinuation(b[3]))
    || (|b| == 4 && b[0] == 0xF4 && 0x80 <= b[1] <= 0x8F && IsContinuation(b[2]) && IsContinuation(b[3]))
  }

  /** The two hex digits of an escape. */
  datatype Digits = Digits(high: Byte, low: Byte)

  /** A byte that is no escape, or the escapes that spell one sequence. */
  datatype Piece = Plain(byte: Byte) | Escapes(digits: seq<Digits>)

  predicate AreHex(digits: seq<Digits>) {
    forall i :: 0 <= i < |digits| ==> IsHex(digits[i].high) && IsHex(digits[i].low)
  }

  function ByteOf(d: Digits): (b: Byte)
    requires IsHex(d.high) && IsHex(d.low)
  {
    HexValue(d.high) * 16 + HexValue(d.low)
  }

  function BytesOf(digits: seq<Digits>): (b: Bytes)
    requires AreHex(digits)
    ensures |b| == |digits|
  {
    if digits == [] then [] else [ByteOf(digits[0])] + BytesOf(digits[1..])
  }

  /** The text of some escapes. */
  function EscapeText(digits: seq<Digits>): (s: Bytes)
    ensures |s| == 3 * |digits|
  {
    if digits == [] then [] else [PERCENT, digits[0].high, digits[0].low] + EscapeText(digits[1..])
  }

  predicate IsPiece(p: Piece) {
    match p
    case Plain(b) => b != PERCENT
    case Escapes(digits) => AreHex(digits) && IsUtf8Sequence(BytesOf(digits))
  }

  predicate ArePieces(ps: seq<Piece>) { forall i :: 0 <= i < |ps| ==> IsPiece(ps[i]) }

  function PieceText(p: Piece): (s: Bytes) { match p case Plain(b) => [b] case Escapes(digits) => EscapeText(digits) }

  /** What a piece decodes to: an escape that is kept encoded stays as it was written. */
  function PieceValue(p: Piece, keep: Bytes): (s: Bytes)
    requires IsPiece(p)
  {
    match p
    case Plain(b) => [b]
    case Escapes(digits) =>
      var bytes := BytesOf(digits);
      if |bytes| == 1 && bytes[0] in keep then EscapeText(digits) else bytes
  }

  function TextOf(ps: seq<Piece>): (s: Bytes) { if ps == [] then [] else PieceText(ps[0]) + TextOf(ps[1..]) }

  function ValueOf(ps: seq<Piece>, keep: Bytes): (s: Bytes)
    requires ArePieces(ps)
  {
    if ps == [] then [] else PieceValue(ps[0], keep) + ValueOf(ps[1..], keep)
  }

  // --- The decoder ---------------------------------------------------------------------------

  /** The digits of the first `n` escapes of a text. */
  function EscapesAt(s: Bytes, n: nat): (r: Option<seq<Digits>>)
    ensures r.Some? ==> |r.value| == n && AreHex(r.value) && 3 * n <= |s|
  {
    if n == 0 then Some([])
    else if |s| < 3 || s[0] != PERCENT || !IsHex(s[1]) || !IsHex(s[2]) then None
    else
      match EscapesAt(s[3..], n - 1)
      case None => None
      case Some(rest) => Some([Digits(s[1], s[2])] + rest)
  }

  /** How many bytes the sequence has that starts with this byte, or none. */
  function SequenceLength(b: Byte): (n: nat)
    ensures n <= 4
  {
    if b < 0x80 then 1
    else if 0xC2 <= b < 0xE0 then 2
    else if 0xE0 <= b < 0xF0 then 3
    else if 0xF0 <= b <= 0xF4 then 4
    else 0
  }

  /** The piece at the front of a text. */
  function FrontPiece(s: Bytes): (r: Option<Piece>)
    requires s != []
    ensures r.Some? ==> IsPiece(r.value) && 1 <= |PieceText(r.value)| <= |s|
  {
    if s[0] != PERCENT then Some(Plain(s[0]))
    else if EscapesAt(s, 1).None? then None
    else
      var n := SequenceLength(ByteOf(EscapesAt(s, 1).value[0]));
      match EscapesAt(s, n)
      case None => None
      case Some(digits) => if IsUtf8Sequence(BytesOf(digits)) then Some(Escapes(digits)) else None
  }

  /** The decoded text, or nothing for a malformed one. */
  function Decoded(s: Bytes, keep: Bytes): (r: Option<Bytes>) {
    if s == [] then Some([])
    else
      match FrontPiece(s)
      case None => None
      case Some(p) =>
        match Decoded(s[|PieceText(p)|..], keep)
        case None => None
        case Some(rest) => Some(PieceValue(p, keep) + rest)
  }

  /** `floor`: the least code point that needs so many bytes. */
  function Floor(n: nat): nat { if n == 2 then 0x80 else if n == 3 then 0x800 else if n == 4 then 0x1_0000 else 0 }

  /** The code point so far, from a lead byte and what follows it. */
  function Built(b: Bytes): (code: nat)
    requires b != []
  {
    if |b| == 1 then Lead(b[0]) else Built(b[..|b| - 1]) * 64 + Tail(b[|b| - 1])
  }

  lemma BuiltSteps(b: Bytes, next: Byte)
    requires b != []
    ensures Built(b + [next]) == Built(b) * 64 + Tail(next)
    ensures |b| == 1 ==> Built(b) == Lead(b[0])
  {
    assert (b + [next])[..|b|] == b;
  }

  lemma BuiltOf(b: Bytes)
    requires 2 <= |b| <= 4
    ensures |b| == 2 ==> Built(b) == Lead(b[0]) * 64 + Tail(b[1])
    ensures |b| == 3 ==> Built(b) == Lead(b[0]) * 4096 + Tail(b[1]) * 64 + Tail(b[2])
    ensures |b| == 4 ==> Built(b) == Lead(b[0]) * 26_2144 + Tail(b[1]) * 4096 + Tail(b[2]) * 64 + Tail(b[3])
  {
    assert b[..|b| - 1][..|b| - 2] == b[..|b| - 2];
    if |b| == 4 {
      assert b[..3][..2][..1] == b[..1];
    }
  }

  /** The decoder's arithmetic is the table of RFC 3629. */
  lemma ArithmeticIsTable(b: Bytes)
    requires 2 <= |b| <= 4 && SequenceLength(b[0]) == |b| && forall i :: 1 <= i < |b| ==> IsContinuation(b[i])
    ensures IsUtf8Sequence(b) <==> Floor(|b|) <= Built(b) <= 0x10FFFF && !IsSurrogate(Built(b))
  {
    hide Built;
    BuiltOf(b);
    if |b| == 2 {
      TwoByteTable(b, Built(b));
    } else if |b| == 3 {
      ThreeByteTable(b, Built(b));
    } else {
      FourByteTable(b, Built(b));
    }
  }

  lemma TwoByteTable(b: Bytes, code: nat)
    requires |b| == 2 && SequenceLength(b[0]) == 2 && IsContinuation(b[1])
    requires code == Lead(b[0]) * 64 + Tail(b[1])
    ensures IsUtf8Sequence(b) && Floor(2) <= code <= 0x10FFFF && !IsSurrogate(code)
  {
  }

  lemma ThreeByteTable(b: Bytes, code: nat)
    requires |b| == 3 && SequenceLength(b[0]) == 3 && IsContinuation(b[1]) && IsContinuation(b[2])
    requires code == Lead(b[0]) * 4096 + Tail(b[1]) * 64 + Tail(b[2])
    ensures IsUtf8Sequence(b) <==> Floor(3) <= code <= 0x10FFFF && !IsSurrogate(code)
  {
  }

  lemma FourByteTable(b: Bytes, code: nat)
    requires |b| == 4 && SequenceLength(b[0]) == 4
    requires IsContinuation(b[1]) && IsContinuation(b[2]) && IsContinuation(b[3])
    requires code == Lead(b[0]) * 26_2144 + Tail(b[1]) * 4096 + Tail(b[2]) * 64 + Tail(b[3])
    ensures IsUtf8Sequence(b) <==> Floor(4) <= code <= 0x10FFFF && !IsSurrogate(code)
  {
  }

  lemma {:induction false} EscapesExtend(s: Bytes, k: nat)
    ensures EscapesAt(s, k + 1).Some? <==> EscapesAt(s, k).Some? && EscapesAt(s[3 * k..], 1).Some?
    ensures EscapesAt(s, k + 1).Some? ==>
              EscapesAt(s, k + 1).value == EscapesAt(s, k).value + EscapesAt(s[3 * k..], 1).value
    decreases k
  {
    if k == 0 {
      assert s[0..] == s;
    } else if |s| >= 3 && s[0] == PERCENT && IsHex(s[1]) && IsHex(s[2]) {
      EscapesExtend(s[3..], k - 1);
      if 3 * k <= |s| {
        assert s[3..][3 * (k - 1)..] == s[3 * k..];
      }
    }
  }

  lemma BytesOfExtend(digits: seq<Digits>, d: Digits)
    requires AreHex(digits + [d])
    ensures AreHex(digits) && IsHex(d.high) && IsHex(d.low)
    ensures BytesOf(digits + [d]) == BytesOf(digits) + [ByteOf(d)]
    decreases |digits|
  {
    assert forall i :: 0 <= i < |digits| ==> digits[i] == (digits + [d])[i];
    assert d == (digits + [d])[|digits|];
    if digits != [] {
      assert (digits + [d])[1..] == digits[1..] + [d];
      BytesOfExtend(digits[1..], d);
    }
  }

  /** Fewer escapes are the front of more. */
  lemma {:induction false} EscapesPrefix(s: Bytes, k: nat, n: nat)
    requires k <= n && EscapesAt(s, n).Some?
    ensures EscapesAt(s, k).Some? && EscapesAt(s, k).value == EscapesAt(s, n).value[..k]
    decreases n
  {
    if k > 0 {
      EscapesPrefix(s[3..], k - 1, n - 1);
    }
  }

  lemma {:induction false} BytesOfAt(digits: seq<Digits>, i: nat)
    requires AreHex(digits) && i < |digits|
    ensures BytesOf(digits)[i] == ByteOf(digits[i])
  {
    if i > 0 {
      BytesOfAt(digits[1..], i - 1);
    }
  }

  /** The escape the inner loop looks at next. */
  lemma EscapeHere(s: Bytes, at: nat)
    requires at <= |s|
    ensures EscapesAt(s[at..], 1).Some? <==>
              at + 3 <= |s| && s[at] == PERCENT && IsHex(s[at + 1]) && IsHex(s[at + 2])
    ensures EscapesAt(s[at..], 1).Some? ==> EscapesAt(s[at..], 1).value == [Digits(s[at + 1], s[at + 2])]
  {
    var rest := s[at..];
    assert |rest| >= 3 ==> EscapesAt(rest[3..], 0) == Some([]);
  }

  /** A run of escapes that breaks off, or holds a byte that continues nothing, is no sequence. */
  lemma BrokenRun(s: Bytes, k: nat, n: nat)
    requires 1 <= k < n
    ensures EscapesAt(s, k + 1).None? ==> EscapesAt(s, n).None?
    ensures EscapesAt(s, k + 1).Some? && EscapesAt(s, n).Some?
            && !IsContinuation(BytesOf(EscapesAt(s, k + 1).value)[k]) ==>
              !IsUtf8Sequence(BytesOf(EscapesAt(s, n).value))
  {
    if EscapesAt(s, n).Some? {
      EscapesPrefix(s, k + 1, n);
      BytesOfAt(EscapesAt(s, k + 1).value, k);
      BytesOfAt(EscapesAt(s, n).value, k);
    }
  }

  /** The inner loop: the rest of a sequence, its bytes and its code point. */
  method ReadSequence(s: Bytes, i: nat, lead: Byte, n: nat) returns (r: Option<Bytes>)
    requires i + 3 * n <= |s| && 2 <= n <= 4 && n == SequenceLength(lead)
    requires EscapesAt(s[i..], 1).Some? && BytesOf(EscapesAt(s[i..], 1).value) == [lead]
    ensures r == match EscapesAt(s[i..], n)
                 case None => None
                 case Some(digits) => if IsUtf8Sequence(BytesOf(digits)) then Some(BytesOf(digits)) else None
  {
    hide EscapesAt, Built, BytesOf;
    BuiltSteps([lead], lead);
    ghost var front := s[i..];
    var bytes := [lead];
    var code := Lead(lead);
    var k := 1;
    while k < n
      invariant 1 <= k <= n
      invariant EscapesAt(front, k).Some? && bytes == BytesOf(EscapesAt(front, k).value)
      invariant |bytes| == k && bytes[0] == lead && code == Built(bytes)
      invariant forall j :: 1 <= j < k ==> IsContinuation(bytes[j])
    {
      hide IsUtf8Sequence, IsHex;
      var at := i + 3 * k;
      EscapeHere(s, at);
      EscapesExtend(front, k);
      BrokenRun(front, k, n);
      assert front[3 * k..] == s[at..];
      if s[at] != PERCENT || !IsHex(s[at + 1]) || !IsHex(s[at + 2]) {
        return None;
      }
      BytesOfExtend(EscapesAt(front, k).value, Digits(s[at + 1], s[at + 2]));
      var cont := ByteOf(Digits(s[at + 1], s[at + 2]));
      if cont / 64 != 2 {
        return None;
      }
      BuiltSteps(bytes, cont);
      bytes := bytes + [cont];
      code := code * 64 + Tail(cont);
      k := k + 1;
    }
    ArithmeticIsTable(bytes);
    if code < Floor(n) || code > 0x10FFFF || (code >= 0xD800 && code <= 0xDFFF) {
      return None;
    }
    return Some(bytes);
  }

  lemma DecodedStep(s: Bytes, i: nat, keep: Bytes)
    requires i < |s|
    ensures Decoded(s[i..], keep) ==
      match FrontPiece(s[i..])
      case None => None
      case Some(p) =>
        match Decoded(s[i + |PieceText(p)|..], keep)
        case None => None
        case Some(rest) => Some(PieceValue(p, keep) + rest)
  {
    var front := FrontPiece(s[i..]);
    if front.Some? {
      assert s[i..][|PieceText(front.value)|..] == s[i + |PieceText(front.value)|..];
    }
  }

  /** What is decoded so far and what is still to come. */
  function Joined(out: Bytes, rest: Option<Bytes>): (r: Option<Bytes>) {
    match rest case None => None case Some(more) => Some(out + more)
  }

  lemma JoinedStep(out: Bytes, s: Bytes, i: nat, keep: Bytes)
    requires i < |s|
    ensures FrontPiece(s[i..]).None? ==> Joined(out, Decoded(s[i..], keep)) == None
    ensures FrontPiece(s[i..]).Some? ==>
      var p := FrontPiece(s[i..]).value;
      Joined(out, Decoded(s[i..], keep)) == Joined(out + PieceValue(p, keep), Decoded(s[i + |PieceText(p)|..], keep))
  {
    hide FrontPiece, PieceValue, PieceText;
    DecodedStep(s, i, keep);
    if FrontPiece(s[i..]).Some? {
      var p := FrontPiece(s[i..]).value;
      var rest := Decoded(s[i + |PieceText(p)|..], keep);
      if rest.Some? {
        Lists.Regroup(out, PieceValue(p, keep), rest.value);
      }
    }
  }

  /** What stands at the front of a text, in the terms of the loop. */
  lemma FrontIs(s: Bytes, i: nat)
    requires i < |s|
    ensures s[i] != PERCENT ==> FrontPiece(s[i..]) == Some(Plain(s[i]))
    ensures s[i] == PERCENT && (i + 2 >= |s| || !IsHex(s[i + 1]) || !IsHex(s[i + 2])) ==> FrontPiece(s[i..]).None?
    ensures s[i] == PERCENT && i + 2 < |s| && IsHex(s[i + 1]) && IsHex(s[i + 2]) ==>
      var d := Digits(s[i + 1], s[i + 2]);
      && EscapesAt(s[i..], 1) == Some([d]) && BytesOf([d]) == [ByteOf(d)]
      && (ByteOf(d) < 0x80 ==> FrontPiece(s[i..]) == Some(Escapes([d])) && EscapeText([d]) == s[i..i + 3])
  {
    EscapeHere(s, i);
    var d := EscapesAt(s[i..], 1);
    if d.Some? {
      assert BytesOf(d.value[1..]) == [] && EscapeText(d.value[1..]) == [];
    }
  }

  /** A lead byte that announces no sequence, or more escapes than are there. */
  lemma NoSequence(s: Bytes, n: nat)
    requires EscapesAt(s, 1).Some? && SequenceLength(ByteOf(EscapesAt(s, 1).value[0])) == n
    requires s != [] && s[0] == PERCENT && (n == 0 || 3 * n > |s|)
    ensures FrontPiece(s).None?
  {
    if n == 0 {
      assert EscapesAt(s, 0) == Some([]) && BytesOf([]) == [];
    }
  }

  /** `decode`. */
  method Decode(s: Bytes, keep: Bytes) returns (r: Option<Bytes>)
    ensures r == Decoded(s, keep)
  {
    hide FrontPiece, Decoded, EscapesAt, IsUtf8Sequence, EscapeText, BytesOf, HexValue, IsHex, AreHex;
    var out: Bytes := [];
    var i := 0;
    assert s[0..] == s;
    StartsJoined(Decoded(s, keep));
    while i < |s|
      invariant i <= |s| && Joined(out, Decoded(s[i..], keep)) == Decoded(s, keep)
    {
      JoinedStep(out, s, i, keep);
      FrontIs(s, i);
      if s[i] != PERCENT {
        out := out + [s[i]];
        i := i + 1;
        continue;
      }
      if i + 2 >= |s| || !IsHex(s[i + 1]) || !IsHex(s[i + 2]) {
        return None;
      }
      var byte := ByteOf(Digits(s[i + 1], s[i + 2]));
      if byte < 0x80 {
        if byte in keep {
          out := out + s[i..i + 3];
        } else {
          out := out + [byte];
        }
        i := i + 3;
        continue;
      }
      var n := if byte / 32 == 6 then 2 else if byte / 16 == 14 then 3 else if byte / 8 == 30 then 4 else 0;
      if n == 0 || byte < 0xC2 || byte > 0xF4 || i + n * 3 > |s| {
        NoSequence(s[i..], SequenceLength(byte));
        return None;
      }
      assert n == SequenceLength(byte);
      FrontSequence(s[i..], n);
      var bytes := ReadSequence(s, i, byte, n);
      if bytes.None? {
        return None;
      }
      out := out + bytes.value;
      i := i + n * 3;
    }
    DecodedEnd(s, keep);
    assert out + [] == out;
    return Some(out);
  }

  lemma StartsJoined(d: Option<Bytes>)
    ensures Joined([], d) == d
  {
    assert d.Some? ==> [] + d.value == d.value;
  }

  lemma DecodedEnd(s: Bytes, keep: Bytes)
    ensures Decoded(s[|s|..], keep) == Some([])
  {
  }

  /** The piece of a sequence of more than one byte. */
  lemma FrontSequence(s: Bytes, n: nat)
    requires s != [] && s[0] == PERCENT && n >= 2
    requires EscapesAt(s, 1).Some? && SequenceLength(ByteOf(EscapesAt(s, 1).value[0])) == n
    ensures match EscapesAt(s, n)
            case None => FrontPiece(s).None?
            case Some(digits) =>
              if IsUtf8Sequence(BytesOf(digits)) then
                && FrontPiece(s) == Some(Escapes(digits)) && |EscapeText(digits)| == 3 * n
                && forall keep :: PieceValue(Escapes(digits), keep) == BytesOf(digits)
              else FrontPiece(s).None?
  {
  }

  // --- Exactly the texts made of pieces ----------------------------------------------------------

  lemma {:induction false} EscapesOfText(digits: seq<Digits>, rest: Bytes, n: nat)
    requires AreHex(digits) && n <= |digits|
    ensures EscapesAt(EscapeText(digits) + rest, n) == Some(digits[..n])
    decreases n
  {
    if n > 0 {
      var text := EscapeText(digits) + rest;
      assert text[3..] == EscapeText(digits[1..]) + rest;
      EscapesOfText(digits[1..], rest, n - 1);
      assert digits[..n] == [digits[0]] + digits[1..][..n - 1];
    }
  }

  lemma LengthOfSequence(b: Bytes)
    requires IsUtf8Sequence(b)
    ensures SequenceLength(b[0]) == |b|
  {
  }

  /** The reader finds the piece that was written. */
  lemma FrontOfText(p: Piece, rest: Bytes)
    requires IsPiece(p)
    ensures PieceText(p) != [] && FrontPiece(PieceText(p) + rest) == Some(p)
  {
    if p.Escapes? {
      hide IsUtf8Sequence;
      var n := |p.digits|;
      LengthOfSequence(BytesOf(p.digits));
      assert n >= 1 by { SequenceIsSome(BytesOf(p.digits)); }
      EscapesOfText(p.digits, rest, 1);
      EscapesOfText(p.digits, rest, n);
      BytesOfAt(p.digits, 0);
      assert p.digits[..n] == p.digits;
    }
  }

  lemma SequenceIsSome(b: Bytes)
    requires IsUtf8Sequence(b)
    ensures b != []
  {
  }

  lemma {:induction false} PiecesAreDecoded(ps: seq<Piece>, keep: Bytes)
    requires ArePieces(ps)
    ensures Decoded(TextOf(ps), keep) == Some(ValueOf(ps, keep))
    decreases |ps|
  {
    if ps != [] {
      hide FrontPiece, PieceText, IsPiece;
      var p, rest := ps[0], TextOf(ps[1..]);
      FrontOfText(p, rest);
      PiecesAreDecoded(ps[1..], keep);
      assert (PieceText(p) + rest)[|PieceText(p)|..] == rest;
    }
  }

  lemma {:induction false} TextOfEscapes(s: Bytes, n: nat)
    requires EscapesAt(s, n).Some?
    ensures s[..3 * n] == EscapeText(EscapesAt(s, n).value)
    decreases n
  {
    if n > 0 {
      TextOfEscapes(s[3..], n - 1);
      assert s[..3 * n] == [s[0], s[1], s[2]] + s[3..][..3 * (n - 1)];
    }
  }

  lemma FrontIsText(s: Bytes)
    requires s != [] && FrontPiece(s).Some?
    ensures var p := FrontPiece(s).value;
            s == PieceText(p) + s[|PieceText(p)|..]
  {
    var p := FrontPiece(s).value;
    if p.Escapes? {
      TextOfEscapes(s, |p.digits|);
    }
  }

  lemma {:induction false} DecodedHasPieces(s: Bytes, keep: Bytes) returns (ps: seq<Piece>)
    requires Decoded(s, keep).Some?
    ensures ArePieces(ps) && TextOf(ps) == s && ValueOf(ps, keep) == Decoded(s, keep).value
    decreases |s|
  {
    if s == [] {
      return [];
    }
    hide FrontPiece, PieceText, IsPiece;
    var p := FrontPiece(s).value;
    FrontIsText(s);
    var rest := DecodedHasPieces(s[|PieceText(p)|..], keep);
    ps := [p] + rest;
  }

  /**
    Decoding succeeds exactly on the texts made of plain bytes and of escapes that spell
    sequences of RFC 3629, and gives back what they spell.
   */
  lemma DecodesExactly(s: Bytes, keep: Bytes, out: Bytes)
    ensures Decoded(s, keep) == Some(out) <==>
            exists ps :: ArePieces(ps) && TextOf(ps) == s && ValueOf(ps, keep) == out
  {
    if Decoded(s, keep) == Some(out) {
      var ps := DecodedHasPieces(s, keep);
    }
    if ps :| ArePieces(ps) && TextOf(ps) == s && ValueOf(ps, keep) == out {
      PiecesAreDecoded(ps, keep);
    }
  }

  // --- UTF-8 out, and back ---------------------------------------------------------------------------

  predicate IsScalar(c: Code) { !IsSurrogate(c) }

  /** The UTF-8 of some Unicode scalar values. */
  ghost predicate IsUtf8(s: Bytes) {
    exists cs: seq<Code> :: s == EncodeAll(cs) && forall i :: 0 <= i < |cs| ==> IsScalar(cs[i])
  }

  /** The table of RFC 3629 is the encoding of the scalar values. */
  lemma TableIsEncoding(b: Bytes)
    ensures IsUtf8Sequence(b) <==> exists c: Code :: IsScalar(c) && b == Encode(c)
  {
    if c: Code :| IsScalar(c) && b == Encode(c) {
      EncodingIsSequence(c);
    }
    if IsUtf8Sequence(b) {
      var c := SequenceIsEncoding(b);
    }
  }

  lemma EncodingIsSequence(c: Code)
    requires IsScalar(c)
    ensures IsUtf8Sequence(Encode(c))
  {
    SixBitGroups(c);
  }

  lemma SequenceIsEncoding(b: Bytes) returns (c: Code)
    requires IsUtf8Sequence(b)
    ensures IsScalar(c) && b == Encode(c)
  {
    if |b| == 1 {
      return b[0];
    }
    LengthOfSequence(b);
    ArithmeticIsTable(b);
    BuiltOf(b);
    c := Built(b);
    BuiltEncodes(b);
  }

  lemma LeadByte(b: Byte)
    ensures SequenceLength(b) == 2 ==> b as nat == 0xC0 + Lead(b)
    ensures SequenceLength(b) == 3 ==> b as nat == 0xE0 + Lead(b)
    ensures SequenceLength(b) == 4 ==> b as nat == 0xF0 + Lead(b)
  {
  }

  lemma LeadFits(b: Byte)
    ensures SequenceLength(b) == 2 ==> Lead(b) < 32
    ensures SequenceLength(b) == 3 ==> Lead(b) < 16
    ensures SequenceLength(b) == 4 ==> Lead(b) < 8
  {
  }

  lemma TailByte(b: Byte)
    requires IsContinuation(b)
    ensures b as nat == 0x80 + Tail(b) && Tail(b) < 64
  {
  }

  lemma EncodeTwo(a: nat, z: nat)
    requires a < 32 && z < 64 && a * 64 + z >= 0x80
    ensures Encode(a * 64 + z) == [0xC0 + a, 0x80 + z]
  {
    FourGroups(0, 0, a, z);
  }

  lemma EncodeThree(a: nat, y: nat, z: nat)
    requires a < 16 && y < 64 && z < 64 && a * 4096 + y * 64 + z >= 0x800
    ensures Encode(a * 4096 + y * 64 + z) == [0xE0 + a, 0x80 + y, 0x80 + z]
  {
    FourGroups(0, a, y, z);
  }

  lemma EncodeFour(a: nat, x: nat, y: nat, z: nat)
    requires a < 8 && x < 64 && y < 64 && z < 64 && a * 26_2144 + x * 4096 + y * 64 + z >= 0x1_0000
    ensures Encode(a * 26_2144 + x * 4096 + y * 64 + z) == [0xF0 + a, 0x80 + x, 0x80 + y, 0x80 + z]
  {
    FourGroups(a, x, y, z);
  }

  /** The bits of a sequence, put back. */
  lemma BuiltEncodes(b: Bytes)
    requires 2 <= |b| <= 4 && SequenceLength(b[0]) == |b| && forall i :: 1 <= i < |b| ==> IsContinuation(b[i])
    requires Floor(|b|) <= Built(b) <= 0x10FFFF
    ensures Encode(Built(b)) == b
  {
    hide Encode, Built, Lead, Tail, SequenceLength;
    BuiltOf(b);
    LeadByte(b[0]);
    LeadFits(b[0]);
    TailByte(b[1]);
    if |b| == 2 {
      EncodeTwo(Lead(b[0]), Tail(b[1]));
    } else if |b| == 3 {
      TailByte(b[2]);
      EncodeThree(Lead(b[0]), Tail(b[1]), Tail(b[2]));
    } else {
      TailByte(b[2]);
      TailByte(b[3]);
      EncodeFour(Lead(b[0]), Tail(b[1]), Tail(b[2]), Tail(b[3]));
    }
  }

  predicate IsAscii(s: Bytes) { forall i :: 0 <= i < |s| ==> s[i] < 0x80 }

  lemma AsciiSplits(a: Bytes, b: Bytes)
    ensures IsAscii(a + b) <==> IsAscii(a) && IsAscii(b)
  {
    assert forall i :: 0 <= i < |a| ==> (a + b)[i] == a[i];
    assert forall i :: 0 <= i < |b| ==> (a + b)[|a| + i] == b[i];
  }

  lemma {:induction false} ValueIsUtf8(ps: seq<Piece>, keep: Bytes) returns (cs: seq<Code>)
    requires ArePieces(ps) && IsAscii(TextOf(ps))
    ensures ValueOf(ps, keep) == EncodeAll(cs) && forall i :: 0 <= i < |cs| ==> IsScalar(cs[i])
    decreases |ps|
  {
    if ps == [] {
      return [];
    }
    assert IsPiece(ps[0]);
    AsciiSplits(PieceText(ps[0]), TextOf(ps[1..]));
    var first := PieceIsUtf8(ps[0], keep);
    var rest := ValueIsUtf8(ps[1..], keep);
    EncodeAllConcat(first, rest);
    cs := first + rest;
  }

  lemma PieceIsUtf8(p: Piece, keep: Bytes) returns (cs: seq<Code>)
    requires IsPiece(p) && IsAscii(PieceText(p))
    ensures PieceValue(p, keep) == EncodeAll(cs) && forall i :: 0 <= i < |cs| ==> IsScalar(cs[i])
  {
    if p.Escapes? && PieceValue(p, keep) == BytesOf(p.digits) {
      var c := SequenceIsEncoding(BytesOf(p.digits));
      cs := [c];
      assert EncodeAll([]) == [];
    } else {
      cs := AsciiIsUtf8(PieceValue(p, keep));
    }
  }

  lemma {:induction false} AsciiIsUtf8(s: Bytes) returns (cs: seq<Code>)
    requires IsAscii(s)
    ensures s == EncodeAll(cs) && forall i :: 0 <= i < |cs| ==> IsScalar(cs[i])
    decreases |s|
  {
    if s == [] {
      return [];
    }
    var rest := AsciiIsUtf8(s[1..]);
    cs := [s[0] as Code] + rest;
    assert s == [s[0]] + s[1..];
  }

  /** An ASCII text decodes to well-formed UTF-8, or not at all. */
  lemma AsciiDecodesToUtf8(s: Bytes, keep: Bytes)
    requires IsAscii(s)
    ensures Decoded(s, keep).Some? ==> IsUtf8(Decoded(s, keep).value)
  {
    if Decoded(s, keep).Some? {
      var ps := DecodedHasPieces(s, keep);
      var cs := ValueIsUtf8(ps, keep);
    }
  }

  function HexDigit(v: nat): (b: Byte)
    requires v < 16
    ensures IsHex(b) && HexValue(b) == v && b < 0x80
  {
    if v < 10 then 0x30 + v else 0x41 + v - 10
  }

  function DigitsOf(b: Byte): (d: Digits)
    ensures IsHex(d.high) && IsHex(d.low) && ByteOf(d) == b
  {
    Digits(HexDigit(b as nat / 16), HexDigit(b as nat % 16))
  }

  function AllDigits(s: Bytes): (digits: seq<Digits>)
    ensures AreHex(digits) && BytesOf(digits) == s
  {
    if s == [] then []
    else
      var rest := AllDigits(s[1..]);
      assert s == [s[0]] + s[1..];
      [DigitsOf(s[0])] + rest
  }

  /** Every byte of a string as an escape. */
  function PercentAll(s: Bytes): (r: Bytes) { EscapeText(AllDigits(s)) }

  lemma {:induction false} PercentAllConcat(a: Bytes, b: Bytes)
    ensures PercentAll(a + b) == PercentAll(a) + PercentAll(b)
    decreases |a|
  {
    if a == [] {
      assert a + b == b;
    } else {
      assert (a + b)[1..] == a[1..] + b;
      PercentAllConcat(a[1..], b);
    }
  }

  lemma {:induction false} PercentAllIsAscii(s: Bytes)
    ensures IsAscii(PercentAll(s))
  {
    if s != [] {
      PercentAllIsAscii(s[1..]);
    }
  }

  function PiecesFor(cs: seq<Code>): (ps: seq<Piece>) {
    if cs == [] then [] else [Escapes(AllDigits(Encode(cs[0])))] + PiecesFor(cs[1..])
  }

  lemma {:induction false} PiecesSpell(cs: seq<Code>)
    requires forall i :: 0 <= i < |cs| ==> IsScalar(cs[i])
    ensures ArePieces(PiecesFor(cs)) && TextOf(PiecesFor(cs)) == PercentAll(EncodeAll(cs))
    ensures ValueOf(PiecesFor(cs), []) == EncodeAll(cs)
    decreases |cs|
  {
    if cs != [] {
      hide Encode, IsUtf8Sequence, AllDigits;
      EncodingIsSequence(cs[0]);
      PiecesSpell(cs[1..]);
      PercentAllConcat(Encode(cs[0]), EncodeAll(cs[1..]));
    }
  }

  /**
    Writing every byte of a string as an escape and decoding gives the string back exactly
    when the string is well-formed UTF-8.
   */
  lemma PercentRoundTripsExactly(s: Bytes)
    ensures Decoded(PercentAll(s), []) == Some(s) <==> IsUtf8(s)
  {
    if IsUtf8(s) {
      var cs: seq<Code> :| s == EncodeAll(cs) && forall i :: 0 <= i < |cs| ==> IsScalar(cs[i]);
      PiecesSpell(cs);
      PiecesAreDecoded(PiecesFor(cs), []);
    }
    PercentAllIsAscii(s);
    AsciiDecodesToUtf8(PercentAll(s), []);
  }

  // --- What becomes of each piece of a text ----------------------------------------------------------

  function Behind(b: Bytes, r: Option<Bytes>): (p: Option<Bytes>) {
    match r case None => None case Some(rest) => Some(b + rest)
  }

  /** Any byte but a percent sign is copied. */
  lemma PlainIsCopied(b: Byte, rest: Bytes, keep: Bytes)
    requires b != 0x25
    ensures Decoded([b] + rest, keep) == Behind([b], Decoded(rest, keep))
  {
    FrontOfText(Plain(b), rest);
    FrontDecodes(Plain(b), rest, keep);
  }

  lemma FrontDecodes(p: Piece, rest: Bytes, keep: Bytes)
    requires IsPiece(p)
    ensures Decoded(PieceText(p) + rest, keep) == Behind(PieceValue(p, keep), Decoded(rest, keep))
  {
    hide FrontPiece, PieceText, IsPiece;
    FrontOfText(p, rest);
    assert (PieceText(p) + rest)[|PieceText(p)|..] == rest;
  }

  /** An escape of an ASCII byte survives as it was written exactly when the byte is one to keep. */
  lemma EscapeSurvivesExactly(h: Byte, l: Byte, rest: Bytes, keep: Bytes)
    requires IsHex(h) && IsHex(l) && HexValue(h) * 16 + HexValue(l) < 0x80
    ensures var b: Byte := HexValue(h) * 16 + HexValue(l);
            Decoded([0x25, h, l] + rest, keep) ==
              Behind(if b in keep then [0x25, h, l] else [b], Decoded(rest, keep))
  {
    hide IsHex, HexValue;
    var d := Digits(h, l);
    assert [d][1..] == [] && BytesOf([]) == [] && EscapeText([]) == [];
    assert BytesOf([d]) == [ByteOf(d)] && EscapeText([d]) == [0x25, h, l];
    FrontDecodes(Escapes([d]), rest, keep);
  }

  /** The escapes of a sequence of more bytes are decoded, whatever is kept. */
  lemma SequenceIsDecoded(digits: seq<Digits>, rest: Bytes, keep: Bytes)
    requires AreHex(digits) && IsUtf8Sequence(BytesOf(digits)) && |digits| > 1
    ensures Decoded(EscapeText(digits) + rest, keep) == Behind(BytesOf(digits), Decoded(rest, keep))
  {
    hide IsUtf8Sequence;
    FrontDecodes(Escapes(digits), rest, keep);
  }
}
