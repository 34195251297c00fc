/**
  Unicode case conversion of ctbrowser/lib/Core/case_mapping.cpp. The engine works on
  bytes and reads the text backwards to judge a final sigma; proved here is that backward
  and forward reading agree, what the conversion does to the code points of any text, and
  exactly on which texts that is Unicode's default case conversion. It is not on all:
  the engine passes over every case-ignorable code point in search of a cased one, and
  some code points are both.
 */
module CaseMapping {
  import opened Options
  import opened Utf8
  import opened Tables
  import Lists

  const CAPITAL_SIGMA: nat := 0x3A3
  const FINAL_SIGMA: nat := 0x3C2
  const SMALL_SIGMA: nat := 0x3C3

  /** The Unicode data the tables are made of. */
  datatype CaseData = CaseData(
    lower: map<nat, nat>,
    upper: map<nat, nat>,
    lowerSpecial: map<nat, seq<nat>>,
    upperSpecial: map<nat, seq<nat>>,
    cased: set<nat>,
    ignorable: set<nat>)

  datatype CaseTables = CaseTables(
    lower: seq<Run>,
    upper: seq<Run>,
    lowerSpecial: seq<Special>,
    upperSpecial: seq<Special>,
    cased: seq<Range>,
    ignorable: seq<Range>)

  /** The tables are what the generator makes of the data. */
  ghost predicate Tabulates(t: CaseTables, d: CaseData) {
    && Represents(t.lower, d.lower) && Represents(t.upper, d.upper)
    && Enters(t.lowerSpecial, d.lowerSpecial) && Enters(t.upperSpecial, d.upperSpecial)
    && Spans(t.cased, d.cased) && Spans(t.ignorable, d.ignorable)
  }

  predicate AreCodes(to: seq<nat>) { forall i :: 0 <= i < |to| ==> to[i] <= 0x10FFFF }

  predicate MapsToCodes(m: map<nat, nat>) { forall cp :: cp in m ==> m[cp] <= 0x10FFFF }

  /** An entry of the special table: at most three code points, none of them zero. */
  predicate ExpandsToCodes(m: map<nat, seq<nat>>) {
    forall cp :: cp in m ==> |m[cp]| <= 3 && 0 !in m[cp] && AreCodes(m[cp])
  }

  predicate MapsCodes(d: CaseData) {
    && MapsToCodes(d.lower) && MapsToCodes(d.upper)
    && ExpandsToCodes(d.lowerSpecial) && ExpandsToCodes(d.upperSpecial)
  }

  // --- On code points -----------------------------------------------------------------------

  /** `ascii_lower` and `ascii_upper`. */
  function AsciiCase(b: nat, upper: bool): (r: nat)
    ensures b < 0x80 ==> r < 0x80
  {
    if upper && 0x61 <= b <= 0x7A then b - 0x20
    else if !upper && 0x41 <= b <= 0x5A then b + 0x20
    else b
  }

  /** The nearest code point before that is not case-ignorable exists and is cased. */
  predicate CasedBefore(d: CaseData, cs: seq<nat>, i: nat)
    requires i < |cs|
  {
    exists j ::
      && 0 <= j < i && cs[j] !in d.ignorable && cs[j] in d.cased
      && forall k :: j < k < i ==> cs[k] in d.ignorable
  }

  /** The nearest code point after that is not case-ignorable exists and is cased. */
  predicate CasedAfter(d: CaseData, cs: seq<nat>, i: nat)
    requires i < |cs|
  {
    exists j ::
      && i < j < |cs| && cs[j] !in d.ignorable && cs[j] in d.cased
      && forall k :: i < k < j ==> cs[k] in d.ignorable
  }

  /**
    The engine's reading of Final_Sigma: every case-ignorable code point is passed over,
    a cased one too. Unicode's own reading is `TableFinal`.
   */
  predicate IsFinal(d: CaseData, cs: seq<nat>, i: nat)
    requires i < |cs|
  {
    CasedBefore(d, cs, i) && !CasedAfter(d, cs, i)
  }

  function SpecialOf(d: CaseData, cp: nat, upper: bool): (r: Option<seq<nat>>) {
    var m := if upper then d.upperSpecial else d.lowerSpecial;
    if cp in m then Some(m[cp]) else None
  }

  function SimpleOf(d: CaseData, cp: nat, upper: bool): (r: nat) { Get(if upper then d.upper else d.lower, cp) }

  /** What the code point at one place becomes. */
  function CaseOf(d: CaseData, cs: seq<Code>, i: nat, upper: bool): (r: seq<Code>)
    requires i < |cs| && MapsCodes(d)
  {
    var cp := cs[i];
    if cp < 0x80 then [AsciiCase(cp, upper)]
    else if !upper && cp == CAPITAL_SIGMA then [if IsFinal(d, cs, i) then FINAL_SIGMA else SMALL_SIGMA]
    else if SpecialOf(d, cp, upper).Some? then SpecialOf(d, cp, upper).value
    else [SimpleOf(d, cp, upper)]
  }

  /** What the engine makes of a text, from one place on. */
  function CaseCodes(d: CaseData, cs: seq<Code>, i: nat, upper: bool): (r: seq<Code>)
    requires i <= |cs| && MapsCodes(d)
    decreases |cs| - i
  {
    if i == |cs| then [] else CaseOf(d, cs, i, upper) + CaseCodes(d, cs, i + 1, upper)
  }

  // --- Reading forwards and backwards -----------------------------------------------------------

  function Next(s: Bytes, at: nat): (next: nat)
    requires at < |s|
    ensures at < next <= |s|
  {
    at + First(s[at..]).size
  }

  function CodeAt(s: Bytes, at: nat): (cp: nat)
    requires at < |s|
    ensures cp < 0x20_0000
  {
    First(s[at..]).code
  }

  /** A place the forward reading stops at. */
  predicate IsStop(s: Bytes, from: nat, at: nat)
    requires from <= |s|
    decreases |s| - from
  {
    at == from || (from < |s| && IsStop(s, Next(s, from), at))
  }

  /** The code points the forward reading finds between two of its stops. */
  function Between(s: Bytes, from: nat, to: nat): (cs: seq<nat>)
    requires from <= to <= |s|
    decreases |s| - from
  {
    if from >= to || Next(s, from) > to then [] else [CodeAt(s, from)] + Between(s, Next(s, from), to)
  }

  lemma {:induction false} StopIsInside(s: Bytes, from: nat, at: nat)
    requires from <= |s| && IsStop(s, from, at)
    ensures from <= at <= |s|
    decreases |s| - from
  {
    if at != from {
      StopIsInside(s, Next(s, from), at);
    }
  }

  /** The reading goes on from a stop. */
  lemma {:induction false} StopGoesOn(s: Bytes, from: nat, at: nat)
    requires from <= |s| && IsStop(s, from, at) && at < |s|
    ensures from <= at && IsStop(s, from, Next(s, at))
    ensures Between(s, from, Next(s, at)) == Between(s, from, at) + [CodeAt(s, at)]
    decreases |s| - from
  {
    if at == from {
      assert Between(s, Next(s, at), Next(s, at)) == [];
    } else {
      StopIsInside(s, Next(s, from), at);
      StopGoesOn(s, Next(s, from), at);
    }
  }

  /** The stop before a stop. */
  lemma {:induction false} StopBefore(s: Bytes, from: nat, at: nat) returns (last: nat)
    requires from < at && from <= |s| && IsStop(s, from, at)
    ensures from <= last < at <= |s| && IsStop(s, from, last) && Next(s, last) == at
    ensures Between(s, from, at) == Between(s, from, last) + [CodeAt(s, last)]
    decreases |s| - from
  {
    StopIsInside(s, from, at);
    if Next(s, from) == at {
      last := from;
      assert Between(s, at, at) == [];
    } else {
      StopIsInside(s, Next(s, from), at);
      last := StopBefore(s, Next(s, from), at);
      StopIsInside(s, Next(s, from), last);
    }
  }

  lemma SequenceShape(s: Bytes, at: nat)
    requires at < |s|
    ensures Next(s, at) - at <= 4
    ensures forall i :: at < i < Next(s, at) ==> IsContinuation(s[i])
    ensures Next(s, at) - at > 1 ==> !IsContinuation(s[at])
    ensures IsContinuation(s[at]) ==> Next(s, at) == at + 1
    ensures Next(s, at) == at + 1 ==> CodeAt(s, at) == s[at] as nat
  {
    var rest := s[at..];
    forall i | at < i < Next(s, at) ensures IsContinuation(s[i]) {
      assert rest[i - at] == s[i];
    }
  }

  /** A byte that continues nothing is where the reading stops, or inside no sequence. */
  lemma {:induction false} NoContinuationIsStop(s: Bytes, from: nat, at: nat)
    requires from <= at < |s| && !IsContinuation(s[at])
    ensures IsStop(s, from, at)
    decreases |s| - from
  {
    if from < at {
      SequenceShape(s, from);
      NoContinuationIsStop(s, Next(s, from), at);
    }
  }

  /** Nothing but the first byte of a sequence is a stop. */
  lemma {:induction false} NoStopInside(s: Bytes, from: nat, at: nat, inside: nat)
    requires from <= |s| && IsStop(s, from, at) && at < |s| && at < inside < Next(s, at)
    ensures !IsStop(s, from, inside)
    decreases |s| - from
  {
    StopIsInside(s, from, at);
    if from < at {
      StopIsInside(s, Next(s, from), at);
      NoStopInside(s, Next(s, from), at, inside);
    } else if IsStop(s, Next(s, from), inside) {
      StopIsInside(s, Next(s, from), inside);
    }
  }

  /** Where the backward reading turns around. */
  function TurnFrom(s: Bytes, end: nat, start: nat): (r: nat)
    requires start < end <= |s|
    ensures r <= start
    decreases start
  {
    if start > 0 && end - start < 4 && IsContinuation(s[start]) then TurnFrom(s, end, start - 1) else start
  }

  /** What the backward reading answers: a code point and where it starts. */
  function Before(s: Bytes, end: nat): (r: (nat, nat))
    requires 0 < end <= |s|
  {
    var start := TurnFrom(s, end, end - 1);
    if Next(s, start) == end then (CodeAt(s, start), start) else (s[end - 1] as nat, end - 1)
  }

  /** `decode_before`. */
  method DecodeBefore(s: Bytes, end: nat) returns (cp: nat, start: nat)
    requires 0 < end <= |s|
    ensures (cp, start) == Before(s, end)
  {
    start := end - 1;
    while start > 0 && end - start < 4 && s[start] / 64 == 2
      invariant start < end && TurnFrom(s, end, start) == TurnFrom(s, end, end - 1)
    {
      start := start - 1;
    }
    var at;
    cp, at := DecodeUtf8(s, start);
    if at != end {
      start := end - 1;
      return s[start] as nat, start;
    }
  }

  lemma {:induction false} TurnCrosses(s: Bytes, end: nat, start: nat)
    requires start < end <= |s|
    ensures var turn := TurnFrom(s, end, start);
            && (forall i :: turn < i <= start ==> IsContinuation(s[i]))
            && (turn == 0 || end - turn >= 4 || !IsContinuation(s[turn]))
    decreases start
  {
    if start > 0 && end - start < 4 && IsContinuation(s[start]) {
      TurnCrosses(s, end, start - 1);
    }
  }

  /** Back over nothing but continuation bytes to a sequence of at most four. */
  lemma {:induction false} TurnReaches(s: Bytes, end: nat, start: nat, first: nat)
    requires first <= start < end <= |s| && end - first <= 4 && !IsContinuation(s[first])
    requires forall i :: first < i <= start ==> IsContinuation(s[i])
    ensures TurnFrom(s, end, start) == first
    decreases start
  {
    if first < start {
      TurnReaches(s, end, start - 1, first);
    }
  }

  /**
    On any bytes, reading back from a stop of the forward reading gives the code point
    the forward reading found last, and the stop before.
   */
  lemma BackwardAgrees(s: Bytes, last: nat)
    requires last < |s| && IsStop(s, 0, last)
    ensures Before(s, Next(s, last)) == (CodeAt(s, last), last)
  {
    hide Between;
    var end := Next(s, last);
    SequenceShape(s, last);
    if end - last > 1 || !IsContinuation(s[last]) {
      TurnReaches(s, end, end - 1, last);
    } else {
      var turn := TurnFrom(s, end, end - 1);
      TurnCrosses(s, end, end - 1);
      SequenceShape(s, turn);
      if Next(s, turn) == end && turn < last {
        NoContinuationIsStop(s, 0, turn);
        NoStopInside(s, 0, turn, last);
      }
    }
  }

  // --- The final sigma -----------------------------------------------------------------------------

  /** The backward walk on code points. */
  predicate WalkBack(d: CaseData, cs: seq<nat>) {
    cs != [] &&
    var last := cs[|cs| - 1];
    if last in d.ignorable then WalkBack(d, cs[..|cs| - 1]) else last in d.cased
  }

  /** The forward walk on code points. */
  predicate WalkOn(d: CaseData, cs: seq<nat>) {
    cs != [] && if cs[0] in d.ignorable then WalkOn(d, cs[1..]) else cs[0] in d.cased
  }

  lemma {:induction false} WalkBackIsCasedBefore(d: CaseData, cs: seq<nat>, i: nat, n: nat)
    requires n <= i < |cs| && forall k :: n <= k < i ==> cs[k] in d.ignorable
    ensures WalkBack(d, cs[..n]) <==> CasedBefore(d, cs, i)
    decreases n
  {
    if n > 0 {
      assert cs[..n][..n - 1] == cs[..n - 1];
      if cs[n - 1] in d.ignorable {
        WalkBackIsCasedBefore(d, cs, i, n - 1);
      } else if CasedBefore(d, cs, i) {
        var j :|
          && 0 <= j < i && cs[j] !in d.ignorable && cs[j] in d.cased
          && forall k :: j < k < i ==> cs[k] in d.ignorable;
        assert j == n - 1;
      }
    }
  }

  lemma {:induction false} WalkOnIsCasedAfter(d: CaseData, cs: seq<nat>, i: nat, n: nat)
    requires i < n <= |cs| && forall k :: i < k < n ==> cs[k] in d.ignorable
    ensures WalkOn(d, cs[n..]) <==> CasedAfter(d, cs, i)
    decreases |cs| - n
  {
    if n < |cs| {
      assert cs[n..][1..] == cs[n + 1..];
      if cs[n] in d.ignorable {
        WalkOnIsCasedAfter(d, cs, i, n + 1);
      } else if CasedAfter(d, cs, i) {
        var j :|
          && i < j < |cs| && cs[j] !in d.ignorable && cs[j] in d.cased
          && forall k :: i < k < j ==> cs[k] in d.ignorable;
        assert j == n;
      }
    }
  }

  /** What the two walks judge. */
  predicate FinalAt(d: CaseData, s: Bytes, at: nat)
    requires at < |s|
  {
    WalkBack(d, Between(s, 0, at)) && !WalkOn(d, Between(s, Next(s, at), |s|))
  }

  lemma WalkBackStep(d: CaseData, before: seq<nat>, cp: nat)
    ensures WalkBack(d, before + [cp]) == if cp in d.ignorable then WalkBack(d, before) else cp in d.cased
  {
    assert (before + [cp])[..|before|] == before;
  }

  lemma WalkOnStep(d: CaseData, s: Bytes, at: nat)
    requires at < |s|
    ensures var cp := CodeAt(s, at);
            WalkOn(d, Between(s, at, |s|)) ==
              if cp in d.ignorable then WalkOn(d, Between(s, Next(s, at), |s|)) else cp in d.cased
  {
    assert Between(s, at, |s|)[1..] == Between(s, Next(s, at), |s|);
  }

  /** `final_sigma`. */
  method FinalSigma(t: CaseTables, ghost d: CaseData, s: Bytes, at: nat, after: nat) returns (isFinal: bool)
    requires Tabulates(t, d) && at < |s| && IsStop(s, 0, at) && after == Next(s, at)
    ensures isFinal == FinalAt(d, s, at)
  {
    hide WalkBack, WalkOn, Between, IsStop, Before, FoundIn, Spans, Represents, Enters;
    PropertiesAreTabled(t, d);
    var preceded := false;
    var end: nat := at;
    while end > 0
      invariant end <= at && IsStop(s, 0, end) && !preceded
      invariant WalkBack(d, Between(s, 0, end)) == WalkBack(d, Between(s, 0, at))
    {
      ghost var last := StopBefore(s, 0, end);
      BackwardAgrees(s, last);
      var cp, start := DecodeBefore(s, end);
      WalkBackStep(d, Between(s, 0, last), cp);
      end := start;
      var skip := HasProperty(t.ignorable, cp);
      FoundIsMembership(t.ignorable, d.ignorable, cp);
      if skip {
        continue;
      }
      preceded := HasProperty(t.cased, cp);
      FoundIsMembership(t.cased, d.cased, cp);
      assert preceded == WalkBack(d, Between(s, 0, at));
      break;
    }
    NothingToWalk(d, s);
    assert preceded == WalkBack(d, Between(s, 0, at));
    if !preceded {
      return false;
    }
    var i := after;
    while i < |s|
      invariant after <= i <= |s|
      invariant WalkOn(d, Between(s, i, |s|)) == WalkOn(d, Between(s, after, |s|))
    {
      WalkOnStep(d, s, i);
      var cp, next := DecodeUtf8(s, i);
      i := next;
      var skip := HasProperty(t.ignorable, cp);
      FoundIsMembership(t.ignorable, d.ignorable, cp);
      if skip {
        continue;
      }
      var cased := HasProperty(t.cased, cp);
      FoundIsMembership(t.cased, d.cased, cp);
      return !cased;
    }
    return true;
  }

  lemma NothingToWalk(d: CaseData, s: Bytes)
    ensures !WalkBack(d, Between(s, 0, 0)) && !WalkOn(d, Between(s, |s|, |s|))
  {
  }

  lemma PropertiesAreTabled(t: CaseTables, d: CaseData)
    requires Tabulates(t, d)
    ensures Spans(t.cased, d.cased) && Spans(t.ignorable, d.ignorable)
    ensures Separate(t.cased) && Separate(t.ignorable)
  {
  }

  // --- On bytes ---------------------------------------------------------------------------------

  /** The bytes one sequence of the text becomes; what maps to itself is copied as it was. */
  function PieceBytes(d: CaseData, s: Bytes, at: nat, upper: bool): (r: Bytes)
    requires at < |s| && MapsCodes(d)
  {
    var cp := CodeAt(s, at);
    if s[at] < 0x80 then [AsciiCase(s[at], upper)]
    else if !upper && cp == CAPITAL_SIGMA then Encode(if FinalAt(d, s, at) then FINAL_SIGMA else SMALL_SIGMA)
    else if SpecialOf(d, cp, upper).Some? then EncodeAll(SpecialOf(d, cp, upper).value)
    else if SimpleOf(d, cp, upper) == cp then s[at..Next(s, at)]
    else Encode(SimpleOf(d, cp, upper))
  }

  /** The bytes of the converted text, sequence by sequence. */
  function CaseBytes(d: CaseData, s: Bytes, at: nat, upper: bool): (r: Bytes)
    requires at <= |s| && MapsCodes(d)
    decreases |s| - at
  {
    if at == |s| then [] else PieceBytes(d, s, at, upper) + CaseBytes(d, s, Next(s, at), upper)
  }

  /** What an entry of the special table writes, its padding left out. */
  method AppendSpecial(out: Bytes, padded: seq<nat>, ghost to: seq<Code>) returns (longer: Bytes)
    requires |to| <= 3 && 0 !in to && padded == Padded(to)
    ensures longer == out + EncodeAll(to)
  {
    longer := out;
    PaddingRoundTripsExactly(to);
    ghost var whole: seq<Code> := Unpadded(padded);
    var i := 0;
    assert padded[0..] == padded;
    while i < |padded|
      invariant i <= |padded| && AreCodes(Unpadded(padded[i..]))
      invariant longer + EncodeAll(Unpadded(padded[i..])) == out + EncodeAll(to)
    {
      assert padded[i..][1..] == padded[i + 1..];
      assert padded[i] != 0 ==> Unpadded(padded[i..])[1..] == Unpadded(padded[i + 1..]);
      ghost var was := longer;
      if padded[i] != 0 {
        longer := longer + Encode(padded[i]);
        Lists.Regroup(was, Encode(padded[i]), EncodeAll(Unpadded(padded[i + 1..])));
      }
      i := i + 1;
    }
  }

  lemma TablesAnswer(t: CaseTables, d: CaseData, cp: nat)
    requires Tabulates(t, d) && MapsCodes(d)
    ensures Ordered(t.lower) && Ordered(t.upper)
    ensures Increasing(Points(t.lowerSpecial)) && Increasing(Points(t.upperSpecial))
    ensures Looked(t.lower, cp) == SimpleOf(d, cp, false) && Looked(t.upper, cp) == SimpleOf(d, cp, true)
    ensures EntryFor(t.lowerSpecial, cp).Some? <==> SpecialOf(d, cp, false).Some?
    ensures EntryFor(t.upperSpecial, cp).Some? <==> SpecialOf(d, cp, true).Some?
    ensures SpecialOf(d, cp, false).Some? ==>
              EntryFor(t.lowerSpecial, cp).value == Padded(SpecialOf(d, cp, false).value)
    ensures SpecialOf(d, cp, true).Some? ==>
              EntryFor(t.upperSpecial, cp).value == Padded(SpecialOf(d, cp, true).value)
  {
    LookupIsMap(t.lower, d.lower, cp);
    LookupIsMap(t.upper, d.upper, cp);
    SpecialIsMap(t.lowerSpecial, d.lowerSpecial, cp);
    SpecialIsMap(t.upperSpecial, d.upperSpecial, cp);
  }

  lemma SpecialFits(d: CaseData, cp: nat, upper: bool)
    requires MapsCodes(d) && SpecialOf(d, cp, upper).Some?
    ensures var to := SpecialOf(d, cp, upper).value; |to| <= 3 && 0 !in to && AreCodes(to)
  {
  }

  lemma SimpleFits(d: CaseData, cp: nat, upper: bool)
    requires MapsCodes(d) && cp < 0x20_0000
    ensures SimpleOf(d, cp, upper) < 0x20_0000
  {
  }

  /** `unicode_case`. */
  method UnicodeCase(t: CaseTables, ghost d: CaseData, s: Bytes, upper: bool) returns (out: Bytes)
    requires Tabulates(t, d) && MapsCodes(d)
    ensures out == CaseBytes(d, s, 0, upper)
  {
    hide Tabulates, MapsCodes, FinalAt, SpecialOf, SimpleOf, EntryFor, Looked;
    hide Ordered, Increasing, IsStop, Padded, Between, Points;
    out := [];
    var i := 0;
    StopAtStart(s);
    while i < |s|
      invariant i <= |s| && IsStop(s, 0, i)
      invariant out + CaseBytes(d, s, i, upper) == CaseBytes(d, s, 0, upper)
    {
      ghost var was := out;
      var from := i;
      StopGoesOn(s, 0, i);
      var cp, next := DecodeUtf8(s, i);
      Lists.Regroup(out, PieceBytes(d, s, from, upper), CaseBytes(d, s, next, upper));
      if s[i] < 0x80 {
        out := out + [AsciiCase(s[i], upper)];
        i := i + 1;
        continue;
      }
      i := next;
      if !upper && cp == CAPITAL_SIGMA {
        var isFinal := FinalSigma(t, d, s, from, i);
        out := out + Encode(if isFinal then FINAL_SIGMA else SMALL_SIGMA);
        continue;
      }
      TablesAnswer(t, d, cp);
      var full;
      if upper {
        full := SpecialMap(t.upperSpecial, cp);
      } else {
        full := SpecialMap(t.lowerSpecial, cp);
      }
      if full.Some? {
        SpecialFits(d, cp, upper);
        out := AppendSpecial(out, full.value, SpecialOf(d, cp, upper).value);
        continue;
      }
      var mapped;
      if upper {
        mapped := SimpleMap(t.upper, cp);
      } else {
        mapped := SimpleMap(t.lower, cp);
      }
      SimpleFits(d, cp, upper);
      if mapped == cp {
        out := out + s[from..i];
      } else {
        out := out + Encode(mapped);
      }
    }
  }

  lemma StopAtStart(s: Bytes)
    ensures IsStop(s, 0, 0)
  {
  }

  // --- Bytes and code points --------------------------------------------------------------------

  /** Where the code point at one place starts. */
  function Place(cs: seq<Code>, i: nat): (at: nat)
    requires i <= |cs|
  {
    |EncodeAll(cs[..i])|
  }

  lemma PlaceSplits(cs: seq<Code>, i: nat)
    requires i <= |cs|
    ensures EncodeAll(cs) == EncodeAll(cs[..i]) + EncodeAll(cs[i..])
    ensures Place(cs, i) <= |EncodeAll(cs)| && EncodeAll(cs)[Place(cs, i)..] == EncodeAll(cs[i..])
  {
    hide EncodeAll;
    EncodeAllConcat(cs[..i], cs[i..]);
    assert cs == cs[..i] + cs[i..];
    DropPrefix(EncodeAll(cs[..i]), EncodeAll(cs[i..]));
  }

  lemma DropPrefix(a: Bytes, b: Bytes)
    ensures (a + b)[|a|..] == b
  {
  }

  lemma TakePrefix(a: Bytes, b: Bytes)
    ensures (a + b)[..|a|] == a
  {
  }

  lemma EncodeAllSteps(cs: seq<Code>, i: nat)
    requires i < |cs|
    ensures EncodeAll(cs[i..]) == Encode(cs[i]) + EncodeAll(cs[i + 1..])
    ensures EncodeAll(cs[..i + 1]) == EncodeAll(cs[..i]) + Encode(cs[i])
  {
    assert cs[i..][1..] == cs[i + 1..];
    EncodeAllConcat(cs[..i], [cs[i]]);
    assert cs[..i + 1] == cs[..i] + [cs[i]];
    EncodeOne(cs[i]);
  }

  lemma SequenceAt(s: Bytes, at: nat, e: Bytes, rest: Bytes, cp: nat)
    requires at <= |s| && s[at..] == e + rest && e != [] && First(e + rest) == Decoded(cp, |e|)
    ensures at < |s| && CodeAt(s, at) == cp && Next(s, at) == at + |e| && s[at..Next(s, at)] == e
  {
    TakePrefix(e, rest);
    assert s[at..at + |e|] == s[at..][..|e|];
  }

  lemma PlaceMoves(cs: seq<Code>, i: nat)
    requires i < |cs|
    ensures Place(cs, i + 1) == Place(cs, i) + |Encode(cs[i])|
  {
    hide EncodeAll, Encode;
    EncodeAllSteps(cs, i);
  }

  lemma CodeAtPlace(cs: seq<Code>, i: nat)
    requires i < |cs|
    ensures var (s, at) := (EncodeAll(cs), Place(cs, i));
            && at < |s| && CodeAt(s, at) == cs[i] && Next(s, at) == Place(cs, i + 1)
            && Next(s, at) <= |s| && s[at..Next(s, at)] == Encode(cs[i])
  {
    hide *;
    PlaceSplits(cs, i);
    PlaceMoves(cs, i);
    EncodeAllSteps(cs, i);
    FirstOfEncode(cs[i], EncodeAll(cs[i + 1..]));
    SequenceAt(EncodeAll(cs), Place(cs, i), Encode(cs[i]), EncodeAll(cs[i + 1..]), cs[i]);
  }

  lemma PlaceStarts(cs: seq<Code>)
    ensures Place(cs, 0) == 0
  {
    assert cs[..0] == [];
  }

  lemma {:induction false} PlaceIsStop(cs: seq<Code>, i: nat)
    requires i <= |cs|
    ensures var (s, at) := (EncodeAll(cs), Place(cs, i));
            at <= |s| && IsStop(s, 0, at) && Between(s, 0, at) == cs[..i]
    decreases i
  {
    hide EncodeAll, Next, CodeAt;
    var s := EncodeAll(cs);
    PlaceStarts(cs);
    if i > 0 {
      PlaceIsStop(cs, i - 1);
      CodeAtPlace(cs, i - 1);
      StopGoesOn(s, 0, Place(cs, i - 1));
      assert cs[..i] == cs[..i - 1] + [cs[i - 1]];
    }
  }

  lemma {:induction false} RestFromPlace(cs: seq<Code>, i: nat)
    requires i <= |cs|
    ensures var (s, at) := (EncodeAll(cs), Place(cs, i)); at <= |s| && Between(s, at, |s|) == cs[i..]
    decreases |cs| - i
  {
    hide EncodeAll, Next, CodeAt, Place, Encode;
    PlaceSplits(cs, i);
    if i < |cs| {
      RestFromPlace(cs, i + 1);
      CodeAtPlace(cs, i);
      assert cs[i..] == [cs[i]] + cs[i + 1..];
    } else {
      assert cs[..i] == cs;
      WholePlace(cs);
    }
  }

  lemma WholePlace(cs: seq<Code>)
    ensures Place(cs, |cs|) == |EncodeAll(cs)|
  {
    assert cs[..|cs|] == cs;
  }

  lemma FinalAtPlace(d: CaseData, cs: seq<Code>, i: nat)
    requires i < |cs|
    ensures Place(cs, i) < |EncodeAll(cs)| && FinalAt(d, EncodeAll(cs), Place(cs, i)) == IsFinal(d, cs, i)
  {
    hide EncodeAll, Place, Between, IsStop, WalkBack, WalkOn, CasedBefore, CasedAfter, Next, CodeAt;
    CodeAtPlace(cs, i);
    PlaceIsStop(cs, i);
    RestFromPlace(cs, i + 1);
    WalkBackIsCasedBefore(d, cs, i, i);
    WalkOnIsCasedAfter(d, cs, i, i + 1);
  }

  lemma EncodeOne(cp: Code)
    ensures EncodeAll([cp]) == Encode(cp)
  {
    assert EncodeAll([]) == [];
  }

  lemma FirstByte(cp: Code)
    ensures Encode(cp)[0] < 0x80 <==> cp < 0x80
    ensures cp < 0x80 ==> Encode(cp) == [cp]
  {
  }

  lemma PieceIsCase(d: CaseData, cs: seq<Code>, i: nat, upper: bool)
    requires i < |cs| && MapsCodes(d)
    ensures Place(cs, i) < |EncodeAll(cs)|
    ensures PieceBytes(d, EncodeAll(cs), Place(cs, i), upper) == EncodeAll(CaseOf(d, cs, i, upper))
  {
    hide Place, EncodeAll, FinalAt, IsFinal, SpecialOf, SimpleOf, MapsCodes, First;
    var s, at := EncodeAll(cs), Place(cs, i);
    CodeAtPlace(cs, i);
    FinalAtPlace(d, cs, i);
    FirstByte(cs[i]);
    assert s[at] == s[at..Next(s, at)][0];
    EncodeOne(AsciiCase(cs[i], upper));
    EncodeOne(FINAL_SIGMA);
    EncodeOne(SMALL_SIGMA);
    SimpleIsCode(d, cs[i], upper);
    EncodeOne(SimpleOf(d, cs[i], upper));
    FirstByte(AsciiCase(cs[i], upper));
  }

  lemma SimpleIsCode(d: CaseData, cp: Code, upper: bool)
    requires MapsCodes(d)
    ensures SimpleOf(d, cp, upper) <= 0x10FFFF
  {
  }

  /**
    On the bytes of any code points, lone surrogates included, the conversion writes what
    becomes of each of them under the engine's reading of Final_Sigma.
   */
  lemma {:induction false} CaseRefinesCodes(d: CaseData, cs: seq<Code>, i: nat, upper: bool)
    requires i <= |cs| && MapsCodes(d)
    ensures Place(cs, i) <= |EncodeAll(cs)|
    ensures CaseBytes(d, EncodeAll(cs), Place(cs, i), upper) == EncodeAll(CaseCodes(d, cs, i, upper))
    decreases |cs| - i
  {
    PlaceSplits(cs, i);
    if i < |cs| {
      hide EncodeAll, PieceBytes, CaseOf, Place;
      PieceIsCase(d, cs, i, upper);
      CodeAtPlace(cs, i);
      CaseRefinesCodes(d, cs, i + 1, upper);
      EncodeAllConcat(CaseOf(d, cs, i, upper), CaseCodes(d, cs, i + 1, upper));
    } else {
      assert cs[..i] == cs;
    }
  }

  /** The whole text: its code points are those of the conversion. */
  lemma CaseDecodes(d: CaseData, cs: seq<Code>, upper: bool)
    requires MapsCodes(d)
    ensures DecodeAll(CaseBytes(d, EncodeAll(cs), 0, upper)) == CaseCodes(d, cs, 0, upper)
  {
    CaseRefinesCodes(d, cs, 0, upper);
    DecodeAllOfEncodeAll(CaseCodes(d, cs, 0, upper));
  }

  // --- Unicode's default case conversion ---------------------------------------------------

  /** The first pattern of Final_Sigma in Unicode table 3-17: a cased letter, then case-ignorable ones up to `i`. */
  predicate TableBefore(d: CaseData, cs: seq<nat>, i: nat)
    requires i < |cs|
  {
    exists j :: 0 <= j < i && cs[j] in d.cased && forall k :: j < k < i ==> cs[k] in d.ignorable
  }

  /** The second pattern: case-ignorable ones from `i` on, then a cased letter. */
  predicate TableAfter(d: CaseData, cs: seq<nat>, i: nat)
    requires i < |cs|
  {
    exists j :: i < j < |cs| && cs[j] in d.cased && forall k :: i < k < j ==> cs[k] in d.ignorable
  }

  /** Final_Sigma of Unicode table 3-17: the first pattern matches and the second does not. */
  predicate TableFinal(d: CaseData, cs: seq<nat>, i: nat)
    requires i < |cs|
  {
    TableBefore(d, cs, i) && !TableAfter(d, cs, i)
  }

  /**
    Default case conversion, as the Unicode standard defines it, of the code point at one
    place: Final_Sigma first, else the special entry, else the simple one, else itself.
   */
  function DefaultOf(d: CaseData, cs: seq<Code>, i: nat, upper: bool): (r: seq<Code>)
    requires i < |cs| && MapsCodes(d)
  {
    var cp := cs[i];
    var special, simple := if upper then d.upperSpecial else d.lowerSpecial, if upper then d.upper else d.lower;
    if !upper && cp == 0x3A3 then [if TableFinal(d, cs, i) then 0x3C2 else 0x3C3]
    else if cp in special then special[cp]
    else if cp in simple then [simple[cp]]
    else [cp]
  }

  /** What the Unicode data says of ASCII: the letters lie 0x20 apart, nothing else changes, nothing is special. */
  predicate MapsAscii(d: CaseData) {
    forall cp :: 0 <= cp < 0x80 ==>
      && cp !in d.lowerSpecial && cp !in d.upperSpecial
      && (if 0x41 <= cp <= 0x5A then cp in d.lower && d.lower[cp] == cp + 0x20 else cp in d.lower ==> d.lower[cp] == cp)
      && (if 0x61 <= cp <= 0x7A then cp in d.upper && d.upper[cp] == cp - 0x20 else cp in d.upper ==> d.upper[cp] == cp)
  }

  /** Off the sigma, the engine's branches are the data's. */
  lemma CaseOfIsDefault(d: CaseData, cs: seq<Code>, i: nat, upper: bool)
    requires i < |cs| && MapsCodes(d) && MapsAscii(d)
    ensures upper || cs[i] != 0x3A3 ==> CaseOf(d, cs, i, upper) == DefaultOf(d, cs, i, upper)
    ensures !upper && cs[i] == 0x3A3 ==> CaseOf(d, cs, i, upper) == [if IsFinal(d, cs, i) then 0x3C2 else 0x3C3]
  {
    hide MapsCodes, IsFinal, TableFinal;
  }

  function DefaultCodes(d: CaseData, cs: seq<Code>, i: nat, upper: bool): (r: seq<Code>)
    requires i <= |cs| && MapsCodes(d)
    decreases |cs| - i
  {
    if i == |cs| then [] else DefaultOf(d, cs, i, upper) + DefaultCodes(d, cs, i + 1, upper)
  }

  /** The case-ignorable code points right before a place hold a cased one. */
  predicate CasedInRunBefore(d: CaseData, cs: seq<nat>, i: nat)
    requires i < |cs|
  {
    exists j :: 0 <= j < i && cs[j] in d.cased && forall k :: j <= k < i ==> cs[k] in d.ignorable
  }

  /** The case-ignorable code points right after a place hold a cased one. */
  predicate CasedInRunAfter(d: CaseData, cs: seq<nat>, i: nat)
    requires i < |cs|
  {
    exists j :: i < j < |cs| && cs[j] in d.cased && forall k :: i < k <= j ==> cs[k] in d.ignorable
  }

  /**
    Passing over a cased code point is harmless at a place: a cased one stands behind the
    run that follows anyway, or none is in that run where a cased one stands before the run
    that leads here, or, where none does, none is in that run or one is in both.
   */
  predicate PassingIsHarmless(d: CaseData, cs: seq<nat>, i: nat)
    requires i < |cs|
  {
    || CasedAfter(d, cs, i)
    || (if CasedBefore(d, cs, i) then !CasedInRunAfter(d, cs, i)
        else CasedInRunBefore(d, cs, i) ==> CasedInRunAfter(d, cs, i))
  }

  lemma TableSplits(d: CaseData, cs: seq<nat>, i: nat)
    requires i < |cs|
    ensures TableBefore(d, cs, i) <==> CasedBefore(d, cs, i) || CasedInRunBefore(d, cs, i)
    ensures TableAfter(d, cs, i) <==> CasedAfter(d, cs, i) || CasedInRunAfter(d, cs, i)
  {
    if TableBefore(d, cs, i) {
      var j :| 0 <= j < i && cs[j] in d.cased && forall k :: j < k < i ==> cs[k] in d.ignorable;
      assert cs[j] in d.ignorable ==> CasedInRunBefore(d, cs, i);
    }
    if TableAfter(d, cs, i) {
      var j :| i < j < |cs| && cs[j] in d.cased && forall k :: i < k < j ==> cs[k] in d.ignorable;
      assert cs[j] in d.ignorable ==> CasedInRunAfter(d, cs, i);
    }
  }

  /** The engine judges a sigma as the table does exactly where passing over cased code points is harmless. */
  lemma JudgesLikeTableExactly(d: CaseData, cs: seq<nat>, i: nat)
    requires i < |cs|
    ensures IsFinal(d, cs, i) == TableFinal(d, cs, i) <==> PassingIsHarmless(d, cs, i)
  {
    hide CasedBefore, CasedAfter, CasedInRunBefore, CasedInRunAfter, TableBefore, TableAfter;
    TableSplits(d, cs, i);
  }

  /** No capital sigma from a place on is judged otherwise than the table does. */
  predicate SigmasAreHarmless(d: CaseData, cs: seq<nat>, from: nat) {
    forall i :: from <= i < |cs| && cs[i] == CAPITAL_SIGMA ==> PassingIsHarmless(d, cs, i)
  }

  lemma SamePieces(a: seq<Code>, b: seq<Code>, x: seq<Code>, y: seq<Code>)
    requires |a| == |x|
    ensures a + b == x + y <==> a == x && b == y
  {
    if a + b == x + y {
      assert a == (a + b)[..|a|] && x == (x + y)[..|x|];
      assert b == (a + b)[|a|..] && y == (x + y)[|x|..];
    }
  }

  lemma {:induction false} DefaultFrom(d: CaseData, cs: seq<Code>, i: nat, upper: bool)
    requires i <= |cs| && MapsCodes(d) && MapsAscii(d)
    ensures CaseCodes(d, cs, i, upper) == DefaultCodes(d, cs, i, upper) <==> upper || SigmasAreHarmless(d, cs, i)
    decreases |cs| - i
  {
    if i < |cs| {
      hide PassingIsHarmless, IsFinal, TableFinal, MapsCodes, MapsAscii, CaseOf;
      CaseOfIsDefault(d, cs, i, upper);
      SigmaLength(d, cs, i, upper);
      JudgesLikeTableExactly(d, cs, i);
      DefaultFrom(d, cs, i + 1, upper);
      SamePieces(CaseOf(d, cs, i, upper), CaseCodes(d, cs, i + 1, upper),
        DefaultOf(d, cs, i, upper), DefaultCodes(d, cs, i + 1, upper));
    }
  }

  lemma SigmaLength(d: CaseData, cs: seq<Code>, i: nat, upper: bool)
    requires i < |cs| && MapsCodes(d)
    ensures !upper && cs[i] == 0x3A3 ==>
              DefaultOf(d, cs, i, upper) == [if TableFinal(d, cs, i) then 0x3C2 else 0x3C3]
  {
  }

  /**
    On the bytes of any code points, the engine's text reads back as Unicode's default case
    conversion of them exactly when it is upper case that is asked for or every capital
    sigma is where passing over cased code points is harmless.
   */
  lemma ConvertsByDefaultExactly(d: CaseData, cs: seq<Code>, upper: bool)
    requires MapsCodes(d) && MapsAscii(d)
    ensures DecodeAll(CaseBytes(d, EncodeAll(cs), 0, upper)) == DefaultCodes(d, cs, 0, upper) <==>
            upper || SigmasAreHarmless(d, cs, 0)
  {
    CaseDecodes(d, cs, upper);
    DefaultFrom(d, cs, 0, upper);
  }

  /** Had no code point both properties, it would be so on every text. */
  lemma ConvertsByDefaultWhenApart(d: CaseData, cs: seq<Code>, upper: bool)
    requires MapsCodes(d) && MapsAscii(d) && d.cased !! d.ignorable
    ensures DecodeAll(CaseBytes(d, EncodeAll(cs), 0, upper)) == DefaultCodes(d, cs, 0, upper)
  {
    hide CaseBytes, DefaultCodes, EncodeAll, DecodeAll, MapsCodes;
    ConvertsByDefaultExactly(d, cs, upper);
  }

  // --- Two texts on which it is not ----------------------------------------------------------

  /** ASCII, U+0061 cased, and U+02B0 both cased and case-ignorable, as in the Unicode data. */
  function LetterData(): (d: CaseData)
    ensures MapsCodes(d) && MapsAscii(d)
  {
    var lower: map<nat, nat> := map cp: nat | 0x41 <= cp <= 0x5A :: AsciiCase(cp, false);
    var upper: map<nat, nat> := map cp: nat | 0x61 <= cp <= 0x7A :: AsciiCase(cp, true);
    CaseData(lower, upper, map[], map[], {0x61, 0x2B0}, {0x2B0})
  }

  /** U+02B0 before a sigma makes it final by the table; the engine finds nothing cased. */
  lemma ModifierBeforeSigma()
    ensures var (d, cs) := (LetterData(), [0x2B0, CAPITAL_SIGMA]);
            && TableFinal(d, cs, 1) && !IsFinal(d, cs, 1)
            && DefaultCodes(d, cs, 0, false) == [0x2B0, FINAL_SIGMA]
            && DecodeAll(CaseBytes(d, EncodeAll(cs), 0, false)) == [0x2B0, SMALL_SIGMA]
  {
    hide EncodeAll, DecodeAll, CaseBytes;
    var d, cs := LetterData(), [0x2B0, CAPITAL_SIGMA];
    assert cs[0] in d.cased;
    CaseDecodes(d, cs, false);
    assert DefaultCodes(d, cs, 2, false) == [] && CaseCodes(d, cs, 2, false) == [];
    assert DefaultCodes(d, cs, 1, false) == [FINAL_SIGMA] && CaseCodes(d, cs, 1, false) == [SMALL_SIGMA];
  }

  /** U+02B0 after a sigma makes it no final one by the table; the engine passes over it. */
  lemma ModifierAfterSigma()
    ensures var (d, cs) := (LetterData(), [0x61, CAPITAL_SIGMA, 0x2B0]);
            && !TableFinal(d, cs, 1) && IsFinal(d, cs, 1)
            && DefaultCodes(d, cs, 0, false) == [0x61, SMALL_SIGMA, 0x2B0]
            && DecodeAll(CaseBytes(d, EncodeAll(cs), 0, false)) == [0x61, FINAL_SIGMA, 0x2B0]
  {
    hide EncodeAll, DecodeAll, CaseBytes;
    var d, cs := LetterData(), [0x61, CAPITAL_SIGMA, 0x2B0];
    assert cs[0] in d.cased && cs[2] in d.cased;
    CaseDecodes(d, cs, false);
    assert DefaultCodes(d, cs, 3, false) == [] && CaseCodes(d, cs, 3, false) == [];
    assert DefaultCodes(d, cs, 2, false) == [0x2B0] && CaseCodes(d, cs, 2, false) == [0x2B0];
    assert DefaultCodes(d, cs, 1, false) == [SMALL_SIGMA, 0x2B0] && CaseCodes(d, cs, 1, false) == [FINAL_SIGMA, 0x2B0];
  }

  // --- ASCII, and what is left alone ---------------------------------------------------------

  /** On ASCII bytes each byte becomes itself, or the letter 0x20 away if it is one of the other case. */
  lemma {:induction false} AsciiIsConverted(d: CaseData, s: Bytes, at: nat, upper: bool)
    requires MapsCodes(d) && at <= |s| && forall i :: at <= i < |s| ==> s[i] < 0x80
    ensures var r := CaseBytes(d, s, at, upper);
            && |r| == |s| - at
            && forall i :: 0 <= i < |r| ==>
                 r[i] == if upper && 0x61 <= s[at + i] <= 0x7A then s[at + i] - 0x20
                         else if !upper && 0x41 <= s[at + i] <= 0x5A then s[at + i] + 0x20
                         else s[at + i]
    decreases |s| - at
  {
    hide SpecialOf, SimpleOf, FinalAt, MapsCodes;
    if at < |s| {
      AsciiIsConverted(d, s, at + 1, upper);
      assert CaseBytes(d, s, at, upper) == [AsciiCase(s[at], upper)] + CaseBytes(d, s, at + 1, upper);
    }
  }

  /** A code point the data maps nowhere. */
  predicate IsUnmapped(d: CaseData, cp: nat, upper: bool) {
    && (cp in d.lower && !upper ==> d.lower[cp] == cp) && (cp in d.upper && upper ==> d.upper[cp] == cp)
    && (if upper then cp !in d.upperSpecial else cp !in d.lowerSpecial)
    && (upper || cp != 0x3A3)
  }

  /** Bytes that decode to nothing with a mapping stay as they are, malformed ones too. */
  lemma {:induction false} UnmappedStays(d: CaseData, s: Bytes, at: nat, upper: bool)
    requires MapsCodes(d) && MapsAscii(d) && at <= |s|
    requires forall i :: 0 <= i < |DecodeAll(s[at..])| ==> IsUnmapped(d, DecodeAll(s[at..])[i], upper)
    ensures CaseBytes(d, s, at, upper) == s[at..]
    decreases |s| - at
  {
    hide MapsCodes, MapsAscii, FinalAt, IsUnmapped, DecodeAll, Next, CodeAt, PieceBytes;
    if at < |s| {
      var next := Next(s, at);
      var codes := DecodeAll(s[at..]);
      DecodeAllStep(s, at);
      assert IsUnmapped(d, codes[0], upper);
      forall i | 0 <= i < |DecodeAll(s[next..])| ensures IsUnmapped(d, DecodeAll(s[next..])[i], upper) {
        assert codes[i + 1] == DecodeAll(s[next..])[i];
      }
      UnmappedStays(d, s, next, upper);
      UnmappedPiece(d, s, at, upper);
      assert s[at..next] + s[next..] == s[at..];
    }
  }

  lemma DecodeAllStep(s: Bytes, at: nat)
    requires at < |s|
    ensures DecodeAll(s[at..]) == [CodeAt(s, at)] + DecodeAll(s[Next(s, at)..])
  {
    assert s[at..][Next(s, at) - at..] == s[Next(s, at)..];
  }

  lemma UnmappedPiece(d: CaseData, s: Bytes, at: nat, upper: bool)
    requires at < |s| && MapsCodes(d) && MapsAscii(d) && IsUnmapped(d, CodeAt(s, at), upper)
    ensures PieceBytes(d, s, at, upper) == s[at..Next(s, at)]
  {
    hide MapsCodes, FinalAt;
    SequenceShape(s, at);
  }
}
