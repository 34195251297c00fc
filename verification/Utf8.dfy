/**
  Bytes, code points and the engine's permissive UTF-8 reader and writer
  (ctbrowser/include/ctbrowser/core/algorithms.hpp).

  Bytes are the integers 0..255, so a mask or a shift of the source is written as
  the division or remainder it computes: `lead >> 5 == 6` is `lead / 32 == 6`.
 */
module Utf8 {

  type Byte = b: int | 0 <= b < 256
  type Bytes = seq<Byte>
  type Code = c: int | 0 <= c <= 0x10FFFF

  /** The value of a hex digit, or -1 (`hex_value`). */
  function HexValue(b: Byte): (v: int)
    ensures -1 <= v < 16
  {
    if 0x30 <= b <= 0x39 then b as int - 0x30
    else if 0x61 <= b <= 0x66 then b as int - 0x61 + 10
    else if 0x41 <= b <= 0x46 then b as int - 0x41 + 10
    else -1
  }

  predicate IsHex(b: Byte) { HexValue(b) >= 0 }

  /** The `k`th hex digit, a letter in either case. */
  predicate IsHexDigit(b: Byte, k: int) {
    0 <= k < 16 && (b as int == "0123456789abcdef"[k] as int || b as int == "0123456789ABCDEF"[k] as int)
  }

  /** The hex digits and their values are those of that alphabet. */
  lemma HexDigitsAre(b: Byte)
    ensures HexValue(b) >= 0 <==> exists k :: IsHexDigit(b, k)
    ensures forall k :: IsHexDigit(b, k) ==> HexValue(b) == k
  {
    if HexValue(b) >= 0 {
      HexDigitAt(HexValue(b));
      assert IsHexDigit(b, HexValue(b));
    }
    forall k | IsHexDigit(b, k) ensures HexValue(b) == k {
      HexDigitAt(k);
    }
  }

  lemma HexDigitAt(k: nat)
    requires k < 16
    ensures "0123456789abcdef"[k] as int == (if k < 10 then 0x30 + k else 0x61 + k - 10)
    ensures "0123456789ABCDEF"[k] as int == (if k < 10 then 0x30 + k else 0x41 + k - 10)
  {
    if k < 8 {
    } else {
    }
  }

  /** The ASCII letters in order. */
  function UpperCase(): (s: string)
    ensures |s| == 26
  {
    "ABCDEFGHI" + "JKLMNOPQR" + "STUVWXYZ"
  }

  function LowerCase(): (s: string)
    ensures |s| == 26
  {
    "abcdefghi" + "jklmnopqr" + "stuvwxyz"
  }

  lemma CasesAre(k: nat)
    requires k < 26
    ensures UpperCase()[k] as int == 0x41 + k && LowerCase()[k] as int == 0x61 + k
  {
    if k < 9 {
    } else if k < 18 {
    } else {
    }
  }

  /** One decoded code point and the number of bytes it took. */
  datatype Decoded = Decoded(code: nat, size: nat)

  predicate IsContinuation(b: Byte) { 0x80 <= b < 0xC0 }

  predicate IsHigh(c: int) { 0xD800 <= c <= 0xDBFF }
  predicate IsLow(c: int) { 0xDC00 <= c <= 0xDFFF }
  predicate IsSurrogate(c: int) { 0xD800 <= c <= 0xDFFF }

  /** What `append_utf8` appends for one code point. */
  function Encode(v: nat): (r: Bytes)
    requires v < 0x20_0000
    ensures 1 <= |r| <= 4
  {
    if v < 0x80 then [v]
    else if v < 0x800 then [0xC0 + v / 64, 0x80 + v % 64]
    else if v < 0x1_0000 then [0xE0 + v / 4096, 0x80 + v / 64 % 64, 0x80 + v % 64]
    else [0xF0 + v / 26_2144, 0x80 + v / 4096 % 64, 0x80 + v / 64 % 64, 0x80 + v % 64]
  }

  /** How many bytes a lead byte announces; a byte that is no lead announces only itself. */
  function Announced(lead: Byte): nat {
    if 0xC0 <= lead < 0xE0 then 2
    else if 0xE0 <= lead < 0xF0 then 3
    else if 0xF0 <= lead < 0xF8 then 4
    else 1
  }

  /** The six payload bits of a continuation byte. */
  function Tail(b: Byte): nat { b as int % 64 }

  /** The payload bits of a lead byte. */
  function Lead(b: Byte): nat {
    if b < 0xE0 then b as int % 32 else if b < 0xF0 then b as int % 16 else b as int % 8
  }

  /** Whether the announced continuation bytes are all there. */
  predicate Complete(s: Bytes)
    requires s != []
  {
    var n := Announced(s[0]);
    n <= |s| && forall i :: 1 <= i < n ==> IsContinuation(s[i])
  }

  /** The code point at the front of `s`; a truncated or malformed sequence is its first byte alone. */
  function First(s: Bytes): (d: Decoded)
    requires s != []
    ensures 1 <= d.size <= |s| && d.size <= 4
    ensures d.code < 0x20_0000
  {
    var n := Announced(s[0]);
    if n == 1 || !Complete(s) then Decoded(s[0], 1)
    else if n == 2 then Decoded(Lead(s[0]) * 64 + Tail(s[1]), 2)
    else if n == 3 then Decoded(Lead(s[0]) * 4096 + Tail(s[1]) * 64 + Tail(s[2]), 3)
    else Decoded(Lead(s[0]) * 26_2144 + Tail(s[1]) * 4096 + Tail(s[2]) * 64 + Tail(s[3]), 4)
  }

  /** More than one byte is taken exactly when the lead's continuation bytes are all there. */
  lemma MalformedIsItself(s: Bytes)
    requires s != []
    ensures First(s).size == 1 ==> First(s).code == s[0]
    ensures First(s).size > 1 <==>
            || (|s| >= 2 && 0xC0 <= s[0] <= 0xDF && 0x80 <= s[1] <= 0xBF)
            || (|s| >= 3 && 0xE0 <= s[0] <= 0xEF && 0x80 <= s[1] <= 0xBF && 0x80 <= s[2] <= 0xBF)
            || (|s| >= 4 && 0xF0 <= s[0] <= 0xF7
                && 0x80 <= s[1] <= 0xBF && 0x80 <= s[2] <= 0xBF && 0x80 <= s[3] <= 0xBF)
  {
    hide Lead, Tail;
  }

  /** `decode_utf8`: the loop over the continuation bytes, moving `at`. */
  method DecodeUtf8(text: Bytes, start: nat) returns (code: nat, at: nat)
    requires start < |text|
    ensures start < at <= |text|
    ensures Decoded(code, at - start) == First(text[start..])
  {
    at := start;
    var lead := text[at];
    var extra: nat, built: nat := 0, 0;
    if lead < 0x80 {
      return lead, at + 1;
    }
    if lead / 32 == 6 {
      extra, built := 1, Lead(lead);
    } else if lead / 16 == 14 {
      extra, built := 2, Lead(lead);
    } else if lead / 8 == 30 {
      extra, built := 3, Lead(lead);
    } else {
      return lead, at + 1;
    }
    ghost var s := text[start..];
    assert Announced(s[0]) == extra + 1;
    if at + extra >= |text| {
      return lead, at + 1;
    }
    var i := 1;
    while i <= extra
      invariant 1 <= i <= extra + 1
      invariant forall k :: 1 <= k < i ==> IsContinuation(s[k])
      invariant i == 2 ==> built == Lead(lead) * 64 + Tail(s[1])
      invariant i == 3 ==> built == Lead(lead) * 4096 + Tail(s[1]) * 64 + Tail(s[2])
      invariant i == 4 ==> built == Lead(lead) * 26_2144 + Tail(s[1]) * 4096 + Tail(s[2]) * 64 + Tail(s[3])
      invariant i == 1 ==> built == Lead(lead)
    {
      var byte := text[at + i];
      assert byte == s[i];
      if byte / 64 != 2 {
        return lead, at + 1;
      }
      built := built * 64 + Tail(byte);
      i := i + 1;
    }
    return built, at + extra + 1;
  }

  lemma SixBitGroups(v: nat)
    ensures v == v / 64 * 64 + v % 64
    ensures v / 64 == v / 4096 * 64 + v / 64 % 64
    ensures v / 4096 == v / 26_2144 * 64 + v / 4096 % 64
  {
    assert v / 64 / 64 == v / 4096;
    assert v / 4096 / 64 == v / 26_2144;
  }

  lemma TwoGroups(high: nat, low: nat)
    requires low < 64
    ensures (high * 64 + low) / 64 == high && (high * 64 + low) % 64 == low
  {
  }

  lemma FourGroups(a: nat, x: nat, y: nat, z: nat)
    requires x < 64 && y < 64 && z < 64
    ensures var v := a * 26_2144 + x * 4096 + y * 64 + z;
            v / 26_2144 == a && v / 4096 % 64 == x && v / 64 % 64 == y && v % 64 == z
            && v / 4096 == a * 64 + x && v / 64 == a * 4096 + x * 64 + y
  {
    var v := a * 26_2144 + x * 4096 + y * 64 + z;
    TwoGroups(a * 4096 + x * 64 + y, z);
    TwoGroups(a * 64 + x, y);
    TwoGroups(a, x);
    assert v / 64 == a * 4096 + x * 64 + y;
    assert v / 4096 == v / 64 / 64;
    assert v / 26_2144 == v / 4096 / 64;
  }

  /** Continuation bytes after the first character do not change what the front decodes to. */
  lemma FirstIsLocal(e: Bytes, rest: Bytes)
    requires e != [] && First(e).size == |e| && Announced(e[0]) == |e|
    ensures First(e + rest) == First(e)
    ensures (e + rest)[|e|..] == rest
  {
    assert forall i :: 0 <= i < |e| ==> (e + rest)[i] == e[i];
  }

  lemma TailOf(x: nat)
    requires x < 64
    ensures Tail(0x80 + x) == x && IsContinuation(0x80 + x)
  {
  }

  lemma LeadOf(x: nat)
    ensures x < 32 ==> Lead(0xC0 + x) == x && Announced(0xC0 + x) == 2
    ensures x < 16 ==> Lead(0xE0 + x) == x && Announced(0xE0 + x) == 3
    ensures x < 8 ==> Lead(0xF0 + x) == x && Announced(0xF0 + x) == 4
  {
  }

  lemma FirstOfEncodeAlone(v: nat)
    requires v < 0x20_0000
    ensures Announced(Encode(v)[0]) == |Encode(v)|
    ensures First(Encode(v)) == Decoded(v, |Encode(v)|)
  {
    SixBitGroups(v);
    var a, b, c, d := v / 26_2144, v / 4096, v / 64, v % 64;
    TailOf(b % 64);
    TailOf(c % 64);
    TailOf(d);
    if v < 0x80 {
    } else if v < 0x800 {
      LeadOf(c);
      assert Encode(v) == [0xC0 + c, 0x80 + d];
    } else if v < 0x1_0000 {
      LeadOf(b);
      assert Encode(v) == [0xE0 + b, 0x80 + c % 64, 0x80 + d];
    } else {
      LeadOf(a);
      assert Encode(v) == [0xF0 + a, 0x80 + b % 64, 0x80 + c % 64, 0x80 + d];
    }
  }

  /** The reader undoes the writer, whatever follows: a surrogate is a code point like any other. */
  lemma FirstOfEncode(v: nat, rest: Bytes)
    requires v < 0x20_0000
    ensures First(Encode(v) + rest) == Decoded(v, |Encode(v)|)
    ensures (Encode(v) + rest)[|Encode(v)|..] == rest
  {
    FirstOfEncodeAlone(v);
    FirstIsLocal(Encode(v), rest);
  }

  /** A sequence of code points, written one after the other. */
  function EncodeAll(cs: seq<Code>): (s: Bytes)
    ensures |s| >= |cs|
  {
    if cs == [] then [] else Encode(cs[0]) + EncodeAll(cs[1..])
  }

  /** The code points of any byte string, read front to back. */
  function DecodeAll(s: Bytes): (cs: seq<nat>)
  {
    if s == [] then [] else var d := First(s); [d.code] + DecodeAll(s[d.size..])
  }

  lemma {:induction false} DecodeAllOfEncodeAll(cs: seq<Code>)
    ensures DecodeAll(EncodeAll(cs)) == cs
  {
    if cs != [] {
      FirstOfEncode(cs[0], EncodeAll(cs[1..]));
      DecodeAllOfEncodeAll(cs[1..]);
    }
  }

  lemma {:induction false} EncodeAllConcat(a: seq<Code>, b: seq<Code>)
    ensures EncodeAll(a + b) == EncodeAll(a) + EncodeAll(b)
  {
    if a == [] {
      assert a + b == b;
    } else {
      assert (a + b)[1..] == a[1..] + b;
      EncodeAllConcat(a[1..], b);
    }
  }

  /** No high surrogate is directly followed by a low one. */
  predicate NoPairs(cs: seq<int>) {
    forall i :: 0 <= i < |cs| - 1 ==> !(IsHigh(cs[i]) && IsLow(cs[i + 1]))
  }

  /** Well-formed WTF-8: code points encoded, surrogates too, with no pair of them left as two halves. */
  ghost predicate WellFormedWtf8(s: Bytes) {
    exists cs: seq<Code> :: s == EncodeAll(cs) && NoPairs(cs)
  }
}
