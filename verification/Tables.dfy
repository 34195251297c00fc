/**
  The case tables: the compressors of tools/gen/unicode_case.py and
  tools/gen/unicode_lowercase.py, and the binary searches over what they print in
  ctbrowser/lib/Core/case_mapping.cpp and unicode_lowercase.cpp. Together they are the
  map or the set the generator started from, for any map and any set.
 */
module Tables {
  import opened Options

  // --- Sorting and searching ------------------------------------------------------------

  predicate Increasing(keys: seq<nat>) { forall i, j :: 0 <= i < j < |keys| ==> keys[i] < keys[j] }

  lemma {:induction false} SmallestExists(points: set<nat>) returns (x: nat)
    requires points != {}
    ensures x in points && forall y :: y in points ==> x <= y
    decreases |points|
  {
    x :| x in points;
    if points != {x} {
      var rest := points - {x};
      assert points == rest + {x};
      var y := SmallestExists(rest);
      if y < x {
        x := y;
      }
    }
  }

  /** `sorted`. */
  method Sorted(points: set<nat>) returns (keys: seq<nat>)
    ensures Increasing(keys) && forall x :: x in keys <==> x in points
  {
    keys := [];
    var rest := points;
    while rest != {}
      invariant rest <= points && Increasing(keys)
      invariant forall x :: x in keys <==> x in points && x !in rest
      invariant forall i, y :: 0 <= i < |keys| && y in rest ==> keys[i] < y
      decreases |rest|
    {
      ghost var least := SmallestExists(rest);
      var x :| x in rest && forall y :: y in rest ==> x <= y;
      keys := keys + [x];
      rest := rest - {x};
    }
  }

  /** The place of the first key that is not below one. */
  function FirstAtLeast(keys: seq<nat>, x: nat): (k: nat)
    ensures k <= |keys| && (k < |keys| ==> x <= keys[k])
    ensures forall i :: 0 <= i < k ==> keys[i] < x
  {
    if keys == [] || x <= keys[0] then 0 else 1 + FirstAtLeast(keys[1..], x)
  }

  lemma {:induction false} FirstIsThere(keys: seq<nat>, x: nat, k: nat)
    requires k <= |keys| && (k < |keys| ==> x <= keys[k]) && forall i :: 0 <= i < k ==> keys[i] < x
    ensures FirstAtLeast(keys, x) == k
  {
    if k > 0 {
      FirstIsThere(keys[1..], x, k - 1);
    }
  }

  /** `lower_bound`. */
  method LowerBound(keys: seq<nat>, x: nat) returns (k: nat)
    requires Increasing(keys)
    ensures k == FirstAtLeast(keys, x)
  {
    k := 0;
    var count: nat := |keys|;
    while count > 0
      invariant k + count <= |keys|
      invariant forall i :: 0 <= i < k ==> keys[i] < x
      invariant forall i :: k + count <= i < |keys| ==> x <= keys[i]
    {
      var half := count / 2;
      if keys[k + half] < x {
        k, count := k + half + 1, count - half - 1;
      } else {
        count := half;
      }
    }
    FirstIsThere(keys, x, k);
  }

  // --- Strided runs ------------------------------------------------------------------------

  /** Every `stride`-th point from `first` to `last` maps to itself plus `delta`. */
  datatype Run = Run(first: nat, last: nat, stride: nat, delta: int)

  predicate IsRun(r: Run) { r.first <= r.last && r.stride > 0 }

  predicate Covers(r: Run, cp: nat)
    requires IsRun(r)
  {
    r.first <= cp <= r.last && (cp - r.first) % r.stride == 0
  }

  /** Runs, each wholly after the one before. */
  ghost predicate Ordered(runs: seq<Run>) {
    && (forall i :: 0 <= i < |runs| ==> IsRun(runs[i]))
    && (forall i, j :: 0 <= i < j < |runs| ==> runs[i].last < runs[j].first)
  }

  /** What a run says of its points is so. */
  ghost predicate Agrees(r: Run, m: map<nat, nat>)
    requires IsRun(r)
  {
    forall cp: nat :: Covers(r, cp) ==> cp in m && m[cp] == cp + r.delta
  }

  ghost predicate CoveredBy(runs: seq<Run>, cp: nat)
    requires Ordered(runs)
  {
    exists i :: 0 <= i < |runs| && Covers(runs[i], cp)
  }

  /** The runs say of every point exactly what the map says. */
  ghost predicate Represents(runs: seq<Run>, m: map<nat, nat>) {
    && Ordered(runs)
    && (forall i :: 0 <= i < |runs| ==> Agrees(runs[i], m))
    && (forall cp :: cp in m ==> CoveredBy(runs, cp))
  }

  function Get(m: map<nat, nat>, cp: nat): nat { if cp in m then m[cp] else cp }

  function Lasts(runs: seq<Run>): (keys: seq<nat>) {
    seq(|runs|, i requires 0 <= i < |runs| => runs[i].last)
  }

  /** What the search over the runs answers. */
  function Looked(runs: seq<Run>, cp: nat): (r: int)
    requires forall i :: 0 <= i < |runs| ==> IsRun(runs[i])
  {
    var k := FirstAtLeast(Lasts(runs), cp);
    if k < |runs| && Covers(runs[k], cp) then cp + runs[k].delta else cp
  }

  /** `simple_map`. */
  method SimpleMap(runs: seq<Run>, cp: nat) returns (mapped: int)
    requires Ordered(runs)
    ensures mapped == Looked(runs, cp)
  {
    var k := LowerBound(Lasts(runs), cp);
    if k == |runs| || cp < runs[k].first || (cp - runs[k].first) % runs[k].stride != 0 {
      return cp;
    }
    return cp + runs[k].delta;
  }

  /** A search over runs that represent a map is a look into the map. */
  lemma LookupIsMap(runs: seq<Run>, m: map<nat, nat>, cp: nat)
    requires Represents(runs, m)
    ensures Looked(runs, cp) == Get(m, cp)
  {
    var k := FirstAtLeast(Lasts(runs), cp);
    if cp in m {
      var i :| 0 <= i < |runs| && Covers(runs[i], cp);
      assert Lasts(runs)[i] == runs[i].last;
      assert i == k;
    }
  }

  lemma RunGrows(r: Run, cp: nat)
    requires IsRun(r) && (r.last - r.first) % r.stride == 0 && r.stride <= 2
    ensures Covers(r.(last := r.last + r.stride), cp) <==> Covers(r, cp) || cp == r.last + r.stride
  {
  }

  lemma GrownAgrees(r: Run, m: map<nat, nat>)
    requires IsRun(r) && (r.last - r.first) % r.stride == 0 && r.stride <= 2
    requires 0 < r.stride && Agrees(r, m)
    requires r.last + r.stride in m && m[r.last + r.stride] == r.last + r.stride + r.delta
    ensures Agrees(r.(last := r.last + r.stride), m)
  {
    forall cp: nat | Covers(r.(last := r.last + r.stride), cp) ensures cp in m && m[cp] == cp + r.delta {
      RunGrows(r, cp);
    }
  }

  lemma OnePoint(r: Run, m: map<nat, nat>)
    requires r.first == r.last && 0 < r.stride <= 2 && r.first in m && m[r.first] == r.first + r.delta
    ensures Agrees(r, m) && Covers(r, r.first) && (r.last - r.first) % r.stride == 0
  {
  }

  lemma OnePointInMap(r: Run, m: map<nat, nat>)
    requires IsRun(r) && r.first == r.last && Agrees(r, m)
    ensures r.first in m && m[r.first] == r.first + r.delta
  {
    assert Covers(r, r.first);
  }

  /** Runs for the points so far. */
  ghost predicate RepresentsFirst(runs: seq<Run>, m: map<nat, nat>, points: seq<nat>, n: nat)
    requires n <= |points|
  {
    && Ordered(runs)
    && (forall i :: 0 <= i < |runs| ==> Agrees(runs[i], m))
    && (forall k :: 0 <= k < n ==> CoveredBy(runs, points[k]))
    && (if runs == [] then n == 0 else n > 0 && runs[|runs| - 1].last == points[n - 1])
  }

  /** One more run behind the others. */
  lemma RunAppended(runs: seq<Run>, r: Run, m: map<nat, nat>, points: seq<nat>, i: nat, j: nat)
    requires i < j <= |points| && Increasing(points) && RepresentsFirst(runs, m, points, i)
    requires IsRun(r) && Agrees(r, m) && r.first == points[i] && r.last == points[j - 1]
    requires forall k :: i <= k < j ==> Covers(r, points[k])
    ensures RepresentsFirst(runs + [r], m, points, j)
  {
    var longer := runs + [r];
    forall k | 0 <= k < j ensures CoveredBy(longer, points[k]) {
      if k < i {
        var x :| 0 <= x < |runs| && Covers(runs[x], points[k]);
        assert longer[x] == runs[x];
      } else {
        assert Covers(longer[|runs|], points[k]);
      }
    }
  }

  lemma AllRepresented(runs: seq<Run>, m: map<nat, nat>, points: seq<nat>)
    requires RepresentsFirst(runs, m, points, |points|) && forall x :: x in points <==> x in m.Keys
    ensures Represents(runs, m)
  {
    forall cp | cp in m ensures CoveredBy(runs, cp) {
      var k :| 0 <= k < |points| && points[k] == cp;
    }
  }

  /** `runs` of unicode_case.py. */
  method Runs(m: map<nat, nat>) returns (out: seq<Run>)
    ensures Represents(out, m)
  {
    hide RepresentsFirst, Ordered, Agrees, CoveredBy, Represents, Increasing, Covers;
    var points := Sorted(m.Keys);
    out := [];
    var i := 0;
    NothingRepresented(m, points);
    while i < |points|
      invariant i <= |points| && RepresentsFirst(out, m, points, i)
    {
      var first := points[i];
      assert first in points;
      var delta: int := m[first] as int - first as int;
      var stride, last := 1, first;
      if i + 1 < |points| {
        assert points[i + 1] in points;
        var step := points[i + 1] - first;
        if (step == 1 || step == 2) && m[points[i + 1]] as int - points[i + 1] as int == delta {
          stride := step;
        }
      }
      var j := i + 1;
      OnePoint(Run(first, last, stride, delta), m);
      while j < |points| && points[j] == last + stride && m[points[j]] as int - points[j] as int == delta
        invariant i < j <= |points| && last == points[j - 1] && first <= last
        invariant IsRun(Run(first, last, stride, delta)) && (last - first) % stride == 0
        invariant Agrees(Run(first, last, stride, delta), m)
        invariant forall k :: i <= k < j ==> Covers(Run(first, last, stride, delta), points[k])
      {
        assert points[j] in points;
        GrownAgrees(Run(first, last, stride, delta), m);
        forall k | i <= k < j + 1 ensures Covers(Run(first, last + stride, stride, delta), points[k]) {
          RunGrows(Run(first, last, stride, delta), points[k]);
        }
        last := points[j];
        j := j + 1;
      }
      RunAppended(out, Run(first, last, stride, delta), m, points, i, j);
      out := out + [Run(first, last, stride, delta)];
      i := j;
    }
    AllRepresented(out, m, points);
  }

  lemma NothingRepresented(m: map<nat, nat>, points: seq<nat>)
    ensures RepresentsFirst([], m, points, 0)
  {
  }

  // --- Ranges -------------------------------------------------------------------------------

  datatype Range = Range(lo: nat, hi: nat)

  predicate Inside(r: Range, cp: nat) { r.lo <= cp <= r.hi }

  /** Sorted, with a point left out between any two. */
  ghost predicate Separate(ranges: seq<Range>) {
    && (forall i :: 0 <= i < |ranges| ==> ranges[i].lo <= ranges[i].hi)
    && (forall i, j :: 0 <= i < j < |ranges| ==> ranges[i].hi + 1 < ranges[j].lo)
  }

  predicate InSome(ranges: seq<Range>, cp: nat) { exists i :: 0 <= i < |ranges| && Inside(ranges[i], cp) }

  /** The ranges hold exactly the points; `FewestRanges` says that no fewer could. */
  ghost predicate Spans(ranges: seq<Range>, points: set<nat>) {
    Separate(ranges) && forall cp: nat :: InSome(ranges, cp) <==> cp in points
  }

  function Highs(ranges: seq<Range>): (keys: seq<nat>) {
    seq(|ranges|, i requires 0 <= i < |ranges| => ranges[i].hi)
  }

  /** What the search over the ranges answers. */
  predicate FoundIn(ranges: seq<Range>, cp: nat) {
    var k := FirstAtLeast(Highs(ranges), cp);
    k < |ranges| && ranges[k].lo <= cp
  }

  /** `has_property`. */
  method HasProperty(ranges: seq<Range>, cp: nat) returns (has: bool)
    requires Separate(ranges)
    ensures has == FoundIn(ranges, cp)
  {
    var k := LowerBound(Highs(ranges), cp);
    return k < |ranges| && ranges[k].lo <= cp;
  }

  /** A search over ranges that span a set is membership in the set. */
  lemma FoundIsMembership(ranges: seq<Range>, points: set<nat>, cp: nat)
    requires Spans(ranges, points)
    ensures FoundIn(ranges, cp) <==> cp in points
  {
    var k := FirstAtLeast(Highs(ranges), cp);
    if FoundIn(ranges, cp) {
      assert Highs(ranges)[k] == ranges[k].hi && Inside(ranges[k], cp);
      assert InSome(ranges, cp);
    }
    if InSome(ranges, cp) {
      var i :| 0 <= i < |ranges| && Inside(ranges[i], cp);
      assert Highs(ranges)[i] == ranges[i].hi;
      assert i == k;
    }
  }

  /** The first range that holds a point, or the end. */
  function FirstInside(ranges: seq<Range>, cp: nat): (k: nat)
    ensures k <= |ranges| && (k < |ranges| ==> Inside(ranges[k], cp))
    ensures InSome(ranges, cp) ==> k < |ranges|
  {
    if ranges == [] || Inside(ranges[0], cp) then 0
    else
      assert forall i :: 0 < i < |ranges| ==> ranges[i] == ranges[1..][i - 1];
      1 + FirstInside(ranges[1..], cp)
  }

  /** Pigeons and holes. */
  lemma {:induction false} DistinctBelow(picks: seq<nat>, n: nat)
    requires forall i :: 0 <= i < |picks| ==> picks[i] < n
    requires forall i, j :: 0 <= i < j < |picks| ==> picks[i] != picks[j]
    ensures |picks| <= n
  {
    if k :| 0 <= k < |picks| && picks[k] == n - 1 {
      var rest := picks[..k] + picks[k + 1..];
      assert forall i :: 0 <= i < |rest| ==> rest[i] == picks[if i < k then i else i + 1];
      DistinctBelow(rest, n - 1);
    } else if picks != [] {
      assert picks[0] < n;
      DistinctBelow(picks, n - 1);
    }
  }

  /** A point that two separate ranges leave out between them. */
  lemma GapIsLeftOut(ranges: seq<Range>, i: nat)
    requires Separate(ranges) && i < |ranges|
    ensures !InSome(ranges, ranges[i].hi + 1)
  {
  }

  /** Separate ranges are the fewest: any ranges at all that hold the same points are as many. */
  lemma FewestRanges(ranges: seq<Range>, other: seq<Range>, points: set<nat>)
    requires Spans(ranges, points) && forall cp: nat :: InSome(other, cp) <==> cp in points
    ensures |ranges| <= |other|
  {
    hide InSome, FirstInside;
    var picks := seq(|ranges|, i requires 0 <= i < |ranges| => FirstInside(other, ranges[i].lo));
    forall i | 0 <= i < |ranges| ensures picks[i] < |other| {
      LowIsHeld(ranges, i);
    }
    forall i, j | 0 <= i < j < |ranges| ensures picks[i] != picks[j] {
      LowIsHeld(ranges, i);
      LowIsHeld(ranges, j);
      GapIsLeftOut(ranges, i);
      if picks[i] == picks[j] {
        assert Inside(other[picks[i]], ranges[i].hi + 1);
        HeldBySome(other, picks[i], ranges[i].hi + 1);
      }
    }
    DistinctBelow(picks, |other|);
  }

  lemma LowIsHeld(ranges: seq<Range>, i: nat)
    requires Separate(ranges) && i < |ranges|
    ensures InSome(ranges, ranges[i].lo)
  {
    assert Inside(ranges[i], ranges[i].lo);
  }

  lemma HeldBySome(ranges: seq<Range>, i: nat, cp: nat)
    requires i < |ranges| && Inside(ranges[i], cp)
    ensures InSome(ranges, cp)
  {
  }

  ghost predicate SpansFirst(ranges: seq<Range>, points: seq<nat>, n: nat)
    requires n <= |points|
  {
    && Separate(ranges)
    && (forall cp: nat :: InSome(ranges, cp) <==> cp in points[..n])
    && (if ranges == [] then n == 0 else n > 0 && ranges[|ranges| - 1].hi == points[n - 1])
  }

  lemma LastWidens(ranges: seq<Range>, cp: nat, x: nat)
    requires ranges != [] && ranges[|ranges| - 1].hi + 1 == cp && ranges[|ranges| - 1].lo <= cp
    ensures var last := |ranges| - 1;
            InSome(ranges[last := ranges[last].(hi := cp)], x) <==> InSome(ranges, x) || x == cp
  {
    var last := |ranges| - 1;
    var next := ranges[last := ranges[last].(hi := cp)];
    if i :| 0 <= i < |ranges| && Inside(ranges[i], x) {
      assert Inside(next[i], x);
    }
    if x == cp {
      assert Inside(next[last], x);
    }
    if i :| 0 <= i < |next| && Inside(next[i], x) {
      assert x == cp || Inside(ranges[i], x);
    }
  }

  lemma PointStarts(ranges: seq<Range>, cp: nat, x: nat)
    ensures InSome(ranges + [Range(cp, cp)], x) <==> InSome(ranges, x) || x == cp
  {
    var next := ranges + [Range(cp, cp)];
    if i :| 0 <= i < |ranges| && Inside(ranges[i], x) {
      assert Inside(next[i], x);
    }
    if x == cp {
      assert Inside(next[|ranges|], x);
    }
    if i :| 0 <= i < |next| && Inside(next[i], x) {
      assert x == cp || Inside(ranges[i], x);
    }
  }

  /** The next point widens the last range, or starts one. */
  lemma RangeStep(ranges: seq<Range>, points: seq<nat>, n: nat)
    requires n < |points| && Increasing(points) && SpansFirst(ranges, points, n)
    ensures var cp := points[n];
            var last := |ranges| - 1;
            SpansFirst(if ranges != [] && ranges[last].hi + 1 == cp then ranges[last := ranges[last].(hi := cp)]
                       else ranges + [Range(cp, cp)], points, n + 1)
  {
    hide InSome, Inside;
    var cp, last := points[n], |ranges| - 1;
    var joined := ranges != [] && ranges[last].hi + 1 == cp;
    var next := if joined then ranges[last := ranges[last].(hi := cp)] else ranges + [Range(cp, cp)];
    assert points[..n + 1] == points[..n] + [cp];
    forall x: nat ensures InSome(next, x) <==> x in points[..n + 1] {
      if joined { LastWidens(ranges, cp, x); } else { PointStarts(ranges, cp, x); }
    }
    assert Separate(next);
  }

  /** `ranges`. */
  method Ranges(points: set<nat>) returns (out: seq<Range>)
    ensures Spans(out, points)
  {
    out := [];
    var sorted := Sorted(points);
    var n := 0;
    while n < |sorted|
      invariant n <= |sorted| && SpansFirst(out, sorted, n)
    {
      hide SpansFirst, Separate;
      var cp := sorted[n];
      RangeStep(out, sorted, n);
      if out != [] && out[|out| - 1].hi + 1 == cp {
        out := out[|out| - 1 := out[|out| - 1].(hi := cp)];
      } else {
        out := out + [Range(cp, cp)];
      }
      n := n + 1;
    }
    assert sorted[..n] == sorted;
  }

  // --- Special casing -------------------------------------------------------------------------

  /** One code point and the up to three it maps to, padded with zeros. */
  datatype Special = Special(cp: nat, to: seq<nat>)

  function Padded(to: seq<nat>): (r: seq<nat>) { (to + [0, 0, 0])[..3] }

  /** What `unicode_case` writes of an entry: the padding left out. */
  function Unpadded(to: seq<nat>): (r: seq<nat>) {
    if to == [] then [] else if to[0] == 0 then Unpadded(to[1..]) else [to[0]] + Unpadded(to[1..])
  }

  /** Padding loses nothing exactly when there are at most three code points and none is zero. */
  lemma {:induction false} PaddingRoundTripsExactly(to: seq<nat>)
    ensures Unpadded(Padded(to)) == to <==> |to| <= 3 && 0 !in to
  {
    if |to| <= 3 && 0 !in to {
      var zeros: seq<nat> := [0, 0, 0][..3 - |to|];
      UnpaddedKeeps(to, zeros);
      assert Padded(to) == to + zeros;
    }
    UnpaddedHasNoZero(Padded(to));
  }

  lemma {:induction false} UnpaddedKeeps(to: seq<nat>, zeros: seq<nat>)
    requires 0 !in to && forall i :: 0 <= i < |zeros| ==> zeros[i] == 0
    ensures Unpadded(to + zeros) == to
    decreases |to|, |zeros|
  {
    if to != [] {
      UnpaddedKeeps(to[1..], zeros);
      assert (to + zeros)[1..] == to[1..] + zeros;
      assert to == [to[0]] + to[1..];
    } else if zeros != [] {
      UnpaddedKeeps(to, zeros[1..]);
      assert to + zeros == zeros && (to + zeros)[1..] == to + zeros[1..];
    } else {
      assert to + zeros == [];
    }
  }

  lemma {:induction false} UnpaddedHasNoZero(to: seq<nat>)
    ensures 0 !in Unpadded(to) && |Unpadded(to)| <= |to|
  {
    if to != [] {
      UnpaddedHasNoZero(to[1..]);
    }
  }

  function Points(table: seq<Special>): (keys: seq<nat>) {
    seq(|table|, i requires 0 <= i < |table| => table[i].cp)
  }

  /** The table has each entry of the map once, by code point. */
  ghost predicate Enters(table: seq<Special>, m: map<nat, seq<nat>>) {
    && Increasing(Points(table))
    && (forall i :: 0 <= i < |table| ==> table[i].cp in m && table[i].to == Padded(m[table[i].cp]))
    && (forall cp :: cp in m ==> exists i :: 0 <= i < |table| && table[i].cp == cp)
  }

  function EntryFor(table: seq<Special>, cp: nat): (r: Option<seq<nat>>) {
    var k := FirstAtLeast(Points(table), cp);
    if k < |table| && table[k].cp == cp then Some(table[k].to) else None
  }

  /** `special_map`. */
  method SpecialMap(table: seq<Special>, cp: nat) returns (r: Option<seq<nat>>)
    requires Increasing(Points(table))
    ensures r == EntryFor(table, cp)
  {
    var k := LowerBound(Points(table), cp);
    if k < |table| && table[k].cp == cp {
      return Some(table[k].to);
    }
    return None;
  }

  /** The generator's loop that prints the table. */
  method Specials(m: map<nat, seq<nat>>) returns (table: seq<Special>)
    ensures Enters(table, m)
  {
    var sorted := Sorted(m.Keys);
    table := [];
    var n := 0;
    while n < |sorted|
      invariant n == |table| <= |sorted| && Points(table) == sorted[..n]
      invariant forall i :: 0 <= i < n ==> table[i].cp in m && table[i].to == Padded(m[table[i].cp])
    {
      assert sorted[n] in sorted;
      table := table + [Special(sorted[n], Padded(m[sorted[n]]))];
      n := n + 1;
    }
    forall cp | cp in m ensures exists i :: 0 <= i < |table| && table[i].cp == cp {
      var i :| 0 <= i < |sorted| && sorted[i] == cp;
      assert Points(table)[i] == cp && table[i].cp == cp;
    }
  }

  /** A search over the table is a look into the map. */
  lemma SpecialIsMap(table: seq<Special>, m: map<nat, seq<nat>>, cp: nat)
    requires Enters(table, m)
    ensures EntryFor(table, cp) == if cp in m then Some(Padded(m[cp])) else None
  {
    var k := FirstAtLeast(Points(table), cp);
    if cp in m {
      var i :| 0 <= i < |table| && table[i].cp == cp;
      assert Points(table)[i] == cp;
      assert i == k;
    }
  }

  // --- The one-unit table -----------------------------------------------------------------------

  const DOTTED_I: nat := 0x130

  /** What the generator asserts of its map: one code unit each, but for U+0130. */
  predicate IsLowercaseMap(lower: map<nat, seq<nat>>) {
    && (forall cp :: cp in lower ==> cp < 0x10000 && forall u :: u in lower[cp] ==> u < 0x10000)
    && DOTTED_I in lower && lower[DOTTED_I] == [0x69, 0x307]
    && (forall cp :: cp in lower ==> (|lower[cp]| != 1 <==> cp == DOTTED_I))
  }

  /** The mappings to one code unit. */
  function OneUnit(lower: map<nat, seq<nat>>): (m: map<nat, nat>) {
    map cp | cp in lower && |lower[cp]| == 1 :: lower[cp][0]
  }

  /** The last run takes the next point in. */
  predicate Joins(r: Run, cp: nat, delta: int) {
    && r.delta == delta && (cp - r.last == 1 || cp - r.last == 2)
    && (r.first == r.last || cp - r.last == r.stride)
  }

  /** The runs so far, and a last run that may still grow. */
  ghost predicate GrowsFirst(runs: seq<Run>, m: map<nat, nat>, points: seq<nat>, n: nat)
    requires n <= |points|
  {
    && Ordered(runs)
    && (forall i :: 0 <= i < |runs| ==> Agrees(runs[i], m))
    && (forall k :: 0 <= k < n && points[k] in m ==> CoveredBy(runs, points[k]))
    && (forall k :: n <= k < |points| && runs != [] ==> runs[|runs| - 1].last < points[k])
    && (runs != [] ==>
          var r := runs[|runs| - 1];
          r.stride <= 2 && (r.last - r.first) % r.stride == 0)
  }

  lemma PointJoins(runs: seq<Run>, m: map<nat, nat>, points: seq<nat>, n: nat)
    requires n < |points| && Increasing(points) && GrowsFirst(runs, m, points, n)
    requires runs != [] && points[n] in m && Joins(runs[|runs| - 1], points[n], m[points[n]] as int - points[n] as int)
    ensures var (cp, last) := (points[n], |runs| - 1);
            GrowsFirst(runs[last := runs[last].(stride := cp - runs[last].last, last := cp)], m, points, n + 1)
  {
    hide RepresentsFirst, Agrees;
    var cp, last := points[n], |runs| - 1;
    var r := runs[last].(stride := cp - runs[last].last);
    var next := runs[last := r.(last := cp)];
    if r.first == r.last {
      OnePointInMap(runs[last], m);
      OnePoint(r, m);
    }
    GrownAgrees(r, m);
    JoinedIsOrdered(runs, cp);
    forall k | 0 <= k < n + 1 && points[k] in m ensures CoveredBy(next, points[k]) {
      hide Ordered, Increasing;
      JoinedCovers(runs, cp, points[k]);
    }
  }

  lemma JoinedIsOrdered(runs: seq<Run>, cp: nat)
    requires Ordered(runs) && runs != []
    requires var r := runs[|runs| - 1];
             r.last < cp <= r.last + 2 && (r.stride == cp - r.last || r.first == r.last)
    ensures var last := |runs| - 1;
            Ordered(runs[last := runs[last].(stride := cp - runs[last].last, last := cp)])
  {
  }

  lemma JoinedCovers(runs: seq<Run>, cp: nat, x: nat)
    requires Ordered(runs) && runs != []
    requires var r := runs[|runs| - 1];
             && r.last < cp <= r.last + 2 && (r.stride == cp - r.last || r.first == r.last)
             && (r.last - r.first) % r.stride == 0
    requires x == cp || CoveredBy(runs, x)
    ensures var last := |runs| - 1;
            var next := runs[last := runs[last].(stride := cp - runs[last].last, last := cp)];
            Ordered(next) && CoveredBy(next, x)
  {
    hide Covers;
    JoinedIsOrdered(runs, cp);
    var last := |runs| - 1;
    var r := runs[last].(stride := cp - runs[last].last);
    var next := runs[last := r.(last := cp)];
    LastIsRun(runs, cp, x);
    RunGrows(r, x);
    if x == cp {
      assert Covers(next[last], x);
    } else {
      var i :| 0 <= i < |runs| && Covers(runs[i], x);
      assert Covers(next[i], x);
    }
  }

  lemma LastIsRun(runs: seq<Run>, cp: nat, x: nat)
    requires Ordered(runs) && runs != []
    requires var r := runs[|runs| - 1];
             && r.last < cp <= r.last + 2 && (r.stride == cp - r.last || r.first == r.last)
             && (r.last - r.first) % r.stride == 0
    ensures var r := runs[|runs| - 1];
            var s := r.(stride := cp - r.last);
            && IsRun(r) && IsRun(s) && (s.last - s.first) % s.stride == 0 && (Covers(r, x) ==> Covers(s, x))
  {
  }

  lemma PointStartsRun(runs: seq<Run>, m: map<nat, nat>, points: seq<nat>, n: nat)
    requires n < |points| && Increasing(points) && GrowsFirst(runs, m, points, n) && points[n] in m
    ensures var (cp, delta) := (points[n], m[points[n]] as int - points[n] as int);
            GrowsFirst(runs + [Run(cp, cp, 1, delta)], m, points, n + 1)
  {
    hide Covers, Agrees;
    var r := Run(points[n], points[n], 1, m[points[n]] as int - points[n] as int);
    var next := runs + [r];
    OnePoint(r, m);
    forall k | 0 <= k < n + 1 && points[k] in m ensures CoveredBy(next, points[k]) {
      if k < n {
        var i :| 0 <= i < |runs| && Covers(runs[i], points[k]);
        assert Covers(next[i], points[k]);
      } else {
        assert Covers(next[|runs|], points[k]);
      }
    }
  }

  /** The compressor of unicode_lowercase.py. */
  method LowercaseRuns(lower: map<nat, seq<nat>>) returns (out: seq<Run>)
    ensures Represents(out, OneUnit(lower))
  {
    hide Ordered, Agrees, CoveredBy, Represents;
    ghost var m := OneUnit(lower);
    var points := Sorted(lower.Keys);
    out := [];
    var n := 0;
    NothingGrown(m, points);
    while n < |points|
      invariant n <= |points| && GrowsFirst(out, m, points, n)
    {
      hide GrowsFirst;
      var cp := points[n];
      assert cp in points;
      if |lower[cp]| == 1 {
        var delta: int := lower[cp][0] as int - cp as int;
        var last := |out| - 1;
        if out != [] && Joins(out[last], cp, delta) {
          PointJoins(out, m, points, n);
          out := out[last := out[last].(stride := cp - out[last].last, last := cp)];
        } else {
          PointStartsRun(out, m, points, n);
          out := out + [Run(cp, cp, 1, delta)];
        }
      } else {
        PointPasses(out, m, points, n);
      }
      n := n + 1;
    }
    AllGrown(out, m, points);
  }

  lemma NothingGrown(m: map<nat, nat>, points: seq<nat>)
    ensures GrowsFirst([], m, points, 0)
  {
  }

  lemma PointPasses(runs: seq<Run>, m: map<nat, nat>, points: seq<nat>, n: nat)
    requires n < |points| && GrowsFirst(runs, m, points, n) && points[n] !in m
    ensures GrowsFirst(runs, m, points, n + 1)
  {
  }

  lemma AllGrown(runs: seq<Run>, m: map<nat, nat>, points: seq<nat>)
    requires GrowsFirst(runs, m, points, |points|) && forall x :: x in m ==> x in points
    ensures Represents(runs, m)
  {
    forall cp | cp in m ensures CoveredBy(runs, cp) {
      var k :| 0 <= k < |points| && points[k] == cp;
    }
  }

  /** What the search over the one-unit table answers, in 16 bits. */
  function Lowered(runs: seq<Run>, unit: nat): (r: seq<nat>)
    requires forall i :: 0 <= i < |runs| ==> IsRun(runs[i])
  {
    if unit == DOTTED_I then [0x69, 0x307] else [(Looked(runs, unit) % 0x10000) as nat]
  }

  lemma LastsIncrease(runs: seq<Run>)
    requires Ordered(runs)
    ensures Increasing(Lasts(runs)) && forall i :: 0 <= i < |runs| ==> IsRun(runs[i])
  {
  }

  /** `unicode_lowercase_unit`. */
  method UnicodeLowercaseUnit(runs: seq<Run>, unit: nat) returns (units: seq<nat>)
    requires Ordered(runs) && unit < 0x10000
    ensures units == Lowered(runs, unit)
  {
    hide FirstAtLeast, Increasing;
    if unit == DOTTED_I {
      return [0x69, 0x307];
    }
    LastsIncrease(runs);
    var k := LowerBound(Lasts(runs), unit);
    var mapped: int := unit;
    if k != |runs| && unit >= runs[k].first && (unit - runs[k].first) % runs[k].stride == 0 {
      mapped := (unit + runs[k].delta) % 0x10000;
    }
    return [mapped];
  }

  /** For every code unit the search answers what the map says, U+0130 included. */
  lemma LowercaseIsMap(runs: seq<Run>, lower: map<nat, seq<nat>>, unit: nat)
    requires IsLowercaseMap(lower) && Represents(runs, OneUnit(lower)) && unit < 0x10000
    ensures Lowered(runs, unit) == if unit in lower then lower[unit] else [unit]
  {
    hide Looked, Represents;
    RepresentsRuns(runs, OneUnit(lower));
    LookupIsMap(runs, OneUnit(lower), unit);
    OneUnitGets(lower, unit);
  }

  lemma RepresentsRuns(runs: seq<Run>, m: map<nat, nat>)
    requires Represents(runs, m)
    ensures forall i :: 0 <= i < |runs| ==> IsRun(runs[i])
  {
  }

  lemma OneUnitGets(lower: map<nat, seq<nat>>, unit: nat)
    requires IsLowercaseMap(lower) && unit < 0x10000
    ensures unit == DOTTED_I ==> unit in lower && lower[unit] == [0x69, 0x307]
    ensures unit != DOTTED_I ==> [Get(OneUnit(lower), unit) % 0x10000] == if unit in lower then lower[unit] else [unit]
  {
    if unit in lower && unit != DOTTED_I {
      assert lower[unit] == [lower[unit][0]] && lower[unit][0] in lower[unit];
    }
  }
}
