/**
  WTF-8 text and UTF-16 code units (ctbrowser/lib/Core/algorithms.cpp), and the
  length a data write reports (ctbrowser/lib/DOM/document.cpp).
 */
module Utf16 {
  import opened Utf8
  import Lists

  type Unit = u: int | 0 <= u < 0x1_0000

  /** The units of one decoded code point. Any value the byte reader can return fits. */
  function UnitsOf(cp: nat): (us: seq<Unit>)
    requires cp < 0x20_0000
  {
    if cp < 0x1_0000 then [cp]
    else [0xD800 + (cp - 0x1_0000) / 1024, 0xDC00 + (cp - 0x1_0000) % 1024]
  }

  /** The units of any byte string, one decoded code point after the other. */
  function ToUnits(s: Bytes): (us: seq<Unit>) {
    if s == [] then [] else var d := First(s); UnitsOf(d.code) + ToUnits(s[d.size..])
  }

  function Combine(high: Unit, low: Unit): (cp: Code)
    requires IsHigh(high) && IsLow(low)
  {
    0x1_0000 + (high - 0xD800) * 1024 + (low - 0xDC00)
  }

  predicate StartsWithPair(us: seq<Unit>) {
    |us| >= 2 && IsHigh(us[0]) && IsLow(us[1])
  }

  /** The code points of a unit string: adjacent high and low halves are one. */
  function CodesOf(us: seq<Unit>): (cs: seq<Code>) {
    if us == [] then []
    else if StartsWithPair(us) then [Combine(us[0], us[1])] + CodesOf(us[2..])
    else [us[0]] + CodesOf(us[1..])
  }

  /** The WTF-8 text of a unit string. */
  function FromUnits(us: seq<Unit>): (s: Bytes) {
    EncodeAll(CodesOf(us))
  }

  lemma ToUnitsStep(text: Bytes, at: nat, cp: nat, next: nat)
    requires at < next <= |text| && Decoded(cp, next - at) == First(text[at..])
    ensures cp < 0x20_0000
    ensures ToUnits(text[at..]) == UnitsOf(cp) + ToUnits(text[next..])
  {
    assert text[at..][next - at..] == text[next..];
  }

  /** `wtf8_to_utf16`. */
  method Wtf8ToUtf16(text: Bytes) returns (units: seq<Unit>)
    ensures units == ToUnits(text)
  {
    units := [];
    var at := 0;
    while at < |text|
      invariant at <= |text|
      invariant units + ToUnits(text[at..]) == ToUnits(text)
    {
      ghost var before := units;
      var cp, next := DecodeUtf8(text, at);
      ToUnitsStep(text, at, cp, next);
      if cp >= 0x1_0000 {
        units := units + [0xD800 + (cp - 0x1_0000) / 1024, 0xDC00 + (cp - 0x1_0000) % 1024];
      } else {
        units := units + [cp];
      }
      Lists.Regroup(before, UnitsOf(cp), ToUnits(text[next..]));
      at := next;
    }
  }

  lemma FromUnitsStep(units: seq<Unit>, at: nat)
    requires at < |units|
    ensures StartsWithPair(units[at..]) ==>
              FromUnits(units[at..]) == Encode(Combine(units[at], units[at + 1])) + FromUnits(units[at + 2..])
    ensures !StartsWithPair(units[at..]) ==>
              FromUnits(units[at..]) == Encode(units[at]) + FromUnits(units[at + 1..])
  {
    assert units[at..][1..] == units[at + 1..];
    if StartsWithPair(units[at..]) {
      assert units[at..][2..] == units[at + 2..];
    }
  }

  /** `utf16_to_wtf8`. */
  method Utf16ToWtf8(units: seq<Unit>) returns (out: Bytes)
    ensures out == FromUnits(units)
  {
    out := [];
    var at := 0;
    while at < |units|
      invariant at <= |units|
      invariant out + FromUnits(units[at..]) == FromUnits(units)
    {
      FromUnitsStep(units, at);
      ghost var before := out;
      var cp: Code := units[at];
      if IsHigh(cp) && at + 1 < |units| && IsLow(units[at + 1]) {
        cp := Combine(units[at], units[at + 1]);
        at := at + 1;
      }
      out := out + Encode(cp);
      at := at + 1;
      Lists.Regroup(before, Encode(cp), FromUnits(units[at..]));
    }
  }

  /** `units_length`, whose result is a 32-bit count. */
  method UnitsLength(text: Bytes) returns (r: nat)
    ensures r == |ToUnits(text)| % 0x1_0000_0000
  {
    var n := 0;
    var at := 0;
    while at < |text|
      invariant at <= |text|
      invariant n + |ToUnits(text[at..])| == |ToUnits(text)|
    {
      var cp, next := DecodeUtf8(text, at);
      ToUnitsStep(text, at, cp, next);
      n := n + if cp >= 0x1_0000 then 2 else 1;
      at := next;
    }
    r := n % 0x1_0000_0000;
  }

  // --- The two conversions against each other --------------------------------

  /** The units of a list of code points. */
  function UnitsOfAll(cs: seq<Code>): (us: seq<Unit>) {
    if cs == [] then [] else UnitsOf(cs[0]) + UnitsOfAll(cs[1..])
  }

  lemma {:induction false} ToUnitsOfEncodeAll(cs: seq<Code>)
    ensures ToUnits(EncodeAll(cs)) == UnitsOfAll(cs)
  {
    if cs != [] {
      FirstOfEncode(cs[0], EncodeAll(cs[1..]));
      ToUnitsOfEncodeAll(cs[1..]);
    }
  }

  lemma CombineSplits(high: Unit, low: Unit)
    requires IsHigh(high) && IsLow(low)
    ensures UnitsOf(Combine(high, low)) == [high, low]
  {
    var q, r := high - 0xD800, low - 0xDC00;
    assert (q * 1024 + r) / 1024 == q && (q * 1024 + r) % 1024 == r;
  }

  lemma {:induction false} UnitsOfCodes(us: seq<Unit>)
    ensures UnitsOfAll(CodesOf(us)) == us
  {
    if us == [] {
    } else if StartsWithPair(us) {
      CombineSplits(us[0], us[1]);
      UnitsOfCodes(us[2..]);
    } else {
      UnitsOfCodes(us[1..]);
    }
  }

  lemma {:induction false} CodesHaveNoPairs(us: seq<Unit>)
    ensures NoPairs(CodesOf(us))
    ensures us != [] ==> CodesOf(us) != [] && (IsLow(CodesOf(us)[0]) <==> IsLow(us[0]))
  {
    if us == [] {
    } else if StartsWithPair(us) {
      CodesHaveNoPairs(us[2..]);
    } else {
      CodesHaveNoPairs(us[1..]);
    }
  }

  lemma {:induction false} CodesOfUnits(cs: seq<Code>)
    requires NoPairs(cs)
    ensures CodesOf(UnitsOfAll(cs)) == cs
    ensures cs != [] ==> UnitsOfAll(cs) != [] && (IsLow(UnitsOfAll(cs)[0]) <==> IsLow(cs[0]))
  {
    if cs != [] {
      CodesOfUnits(cs[1..]);
      var tail := UnitsOfAll(cs[1..]);
      var us := UnitsOfAll(cs);
      assert cs[1..] != [] ==> cs[1..][0] == cs[1];
      if cs[0] < 0x1_0000 {
        assert us == [cs[0]] + tail && us[1..] == tail;
        assert !StartsWithPair(us);
      } else {
        var high, low := us[0], us[1];
        assert us == [high, low] + tail && us[2..] == tail;
        assert Combine(high, low) == cs[0];
      }
    }
  }

  /** Every unit string survives the trip through bytes, lone surrogates included. */
  lemma UnitsRoundTrip(us: seq<Unit>)
    ensures ToUnits(FromUnits(us)) == us
  {
    ToUnitsOfEncodeAll(CodesOf(us));
    UnitsOfCodes(us);
  }

  /** A byte string survives the trip through units exactly when it is well-formed WTF-8. */
  lemma BytesRoundTripExactly(s: Bytes)
    ensures FromUnits(ToUnits(s)) == s <==> WellFormedWtf8(s)
  {
    if WellFormedWtf8(s) {
      var cs: seq<Code> :| s == EncodeAll(cs) && NoPairs(cs);
      ToUnitsOfEncodeAll(cs);
      CodesOfUnits(cs);
    }
    CodesHaveNoPairs(ToUnits(s));
    assert FromUnits(ToUnits(s)) == EncodeAll(CodesOf(ToUnits(s)));
  }
}
