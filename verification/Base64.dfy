/** The base64 writer and the lenient reader of ctbrowser/lib/Core/algorithms.cpp. */
module Base64 {
  import opened Utf8
  import Lists

  type Sextet = v: nat | v < 64

  const PAD: Byte := 0x3D

  /** The alphabets of RFC 4648 sections 4 and 5. */
  function Letter(v: Sextet, url: bool): (c: Byte) {
    if v < 26 then 0x41 + v
    else if v < 52 then 0x61 + v - 26
    else if v < 62 then 0x30 + v - 52
    else if v == 62 then (if url then 0x2D else 0x2B)
    else (if url then 0x5F else 0x2F)
  }

  /** `base64_sextet`: the value of a letter of the standard alphabet, or -1. */
  function SextetOf(c: Byte): (v: int)
    ensures -1 <= v < 64
  {
    if 0x41 <= c <= 0x5A then c as int - 0x41
    else if 0x61 <= c <= 0x7A then c as int - 0x61 + 26
    else if 0x30 <= c <= 0x39 then c as int - 0x30 + 52
    else if c == 0x2B then 62
    else if c == 0x2F then 63
    else -1
  }

  // --- Writing -----------------------------------------------------------------------------

  /** The sextets of a byte string: four for every three bytes, the last group one more than its bytes. */
  function SextetsOf(b: Bytes): (vs: seq<Sextet>)
    ensures |vs| == (|b| * 4 + 2) / 3
  {
    if |b| == 0 then []
    else if |b| == 1 then [b[0] as int / 4, b[0] as int % 4 * 16]
    else if |b| == 2 then [b[0] as int / 4, b[0] as int % 4 * 16 + b[1] as int / 16, b[1] as int % 16 * 4]
    else
      [b[0] as int / 4, b[0] as int % 4 * 16 + b[1] as int / 16,
       b[1] as int % 16 * 4 + b[2] as int / 64, b[2] as int % 64]
        + SextetsOf(b[3..])
  }

  function Letters(vs: seq<Sextet>, url: bool): (s: Bytes)
    ensures |s| == |vs| && forall i :: 0 <= i < |s| ==> s[i] == Letter(vs[i], url)
  {
    seq(|vs|, i requires 0 <= i < |vs| => Letter(vs[i], url))
  }

  /** As many padding characters as the last group is short of bytes. */
  function Padding(b: Bytes): (s: Bytes) {
    if |b| % 3 == 1 then [PAD, PAD] else if |b| % 3 == 2 then [PAD] else []
  }

  /** The text of a byte string. */
  function Text(b: Bytes, url: bool, omitPadding: bool): (s: Bytes) {
    Letters(SextetsOf(b), url) + if omitPadding then [] else Padding(b)
  }

  /** The four sextets of the 24 bits of three bytes. */
  lemma Triple(b0: Byte, b1: Byte, b2: Byte)
    ensures var t := b0 as int * 65536 + b1 as int * 256 + b2 as int;
            && t / 26_2144 % 64 == b0 as int / 4
            && t / 4096 % 64 == b0 as int % 4 * 16 + b1 as int / 16
            && t / 64 % 64 == b1 as int % 16 * 4 + b2 as int / 64
            && t % 64 == b2 as int % 64
  {
    var s0, s1 := b0 as int / 4, b0 as int % 4 * 16 + b1 as int / 16;
    var s2, s3 := b1 as int % 16 * 4 + b2 as int / 64, b2 as int % 64;
    FourGroups(s0, s1, s2, s3);
    assert b0 as int * 65536 + b1 as int * 256 + b2 as int == s0 * 26_2144 + s1 * 4096 + s2 * 64 + s3;
  }

  /** The sextets of one step of three bytes, the missing ones read as zero. */
  lemma GroupOf(b: Bytes, i: nat)
    requires i < |b|
    ensures var b1 := if i + 1 < |b| then b[i + 1] else 0;
            var b2 := if i + 2 < |b| then b[i + 2] else 0;
            var t := b[i] as int * 65536 + b1 as int * 256 + b2 as int;
            var n := if i + 3 <= |b| then 3 else |b| - i;
            var group: seq<Sextet> := [t / 26_2144 % 64, t / 4096 % 64, t / 64 % 64, t % 64];
            SextetsOf(b[i..]) == group[..n + 1] + SextetsOf(b[i + n..])
  {
    var b1 := if i + 1 < |b| then b[i + 1] else 0;
    var b2 := if i + 2 < |b| then b[i + 2] else 0;
    Triple(b[i], b1, b2);
    assert |b| - i > 3 ==> b[i..][3..] == b[i + 3..];
    assert SextetsOf([]) == [];
  }

  lemma LettersConcat(a: seq<Sextet>, c: seq<Sextet>, url: bool)
    ensures Letters(a + c, url) == Letters(a, url) + Letters(c, url)
  {
  }

  function Pad(omitPadding: bool): (s: Bytes) { if omitPadding then [] else [PAD] }

  /** What one step of the writer appends, for the 24 bits of its group and the bytes left. */
  function StepText(t: nat, left: nat, url: bool, omitPadding: bool): (s: Bytes) {
    [Letter(t / 26_2144 % 64, url), Letter(t / 4096 % 64, url)]
      + (if left > 1 then [Letter(t / 64 % 64, url)] else Pad(omitPadding))
      + (if left > 2 then [Letter(t % 64, url)] else Pad(omitPadding))
  }

  /** The 24 bits of the group at one place, missing bytes read as zero. */
  function Bits(b: Bytes, i: nat): (t: nat)
    requires i < |b|
  {
    var b1 := if i + 1 < |b| then b[i + 1] else 0;
    var b2 := if i + 2 < |b| then b[i + 2] else 0;
    b[i] as int * 65536 + b1 as int * 256 + b2 as int
  }

  lemma FourLetters(group: seq<Sextet>, url: bool)
    requires |group| == 4
    ensures Letters(group, url) ==
              [Letter(group[0], url), Letter(group[1], url), Letter(group[2], url), Letter(group[3], url)]
  {
  }

  lemma WholeStep(b: Bytes, i: nat, url: bool, omitPadding: bool)
    requires i + 3 <= |b|
    ensures Text(b[i..], url, omitPadding) ==
              StepText(Bits(b, i), |b| - i, url, omitPadding) + Text(b[i + 3..], url, omitPadding)
  {
    hide SextetsOf, Letter, Letters;
    GroupOf(b, i);
    var t := Bits(b, i);
    var group: seq<Sextet> := [t / 26_2144 % 64, t / 4096 % 64, t / 64 % 64, t % 64];
    hide Bits;
    assert group[..4] == group;
    FourLetters(group, url);
    LettersConcat(group, SextetsOf(b[i + 3..]), url);
    SamePadding(b, i);
    hide Padding, Pad;
    var rest := if omitPadding then [] else Padding(b[i + 3..]);
    Lists.Regroup(Letters(group, url), Letters(SextetsOf(b[i + 3..]), url), rest);
    assert Letters(group, url) == StepText(t, |b| - i, url, omitPadding);
  }

  lemma SamePadding(b: Bytes, i: nat)
    requires i + 3 <= |b|
    ensures Padding(b[i..]) == Padding(b[i + 3..])
  {
  }

  lemma LastStep(b: Bytes, i: nat, url: bool, omitPadding: bool)
    requires i < |b| < i + 3
    ensures Text(b[i..], url, omitPadding) == StepText(Bits(b, i), |b| - i, url, omitPadding)
  {
    GroupOf(b, i);
    NoSextets();
    var t, n := Bits(b, i), |b| - i;
    hide SextetsOf, Letter, Bits;
    var group: seq<Sextet> := [t / 26_2144 % 64, t / 4096 % 64, t / 64 % 64, t % 64];
    assert b[i + n..] == [];
    assert SextetsOf(b[i..]) == group[..n + 1];
    assert n == 1 ==> Letters(group[..2], url) == [Letter(group[0], url), Letter(group[1], url)];
    assert n == 2 ==> Letters(group[..3], url) == [Letter(group[0], url), Letter(group[1], url), Letter(group[2], url)];
  }

  /** `base64_encode`. */
  method Base64Encode(bytes: Bytes, url: bool, omitPadding: bool) returns (out: Bytes)
    ensures out == Text(bytes, url, omitPadding)
  {
    hide SextetsOf, Letter, Text, Bits, Letters, Padding;
    out := [];
    var i := 0;
    assert bytes[0..] == bytes;
    while i < |bytes|
      invariant i <= |bytes| ==> out + Text(bytes[i..], url, omitPadding) == Text(bytes, url, omitPadding)
      invariant i > |bytes| ==> out == Text(bytes, url, omitPadding)
    {
      ghost var was, left := out, |bytes| - i;
      var triple := Bits(bytes, i);
      out := out + [Letter(triple / 26_2144 % 64, url)];
      out := out + [Letter(triple / 4096 % 64, url)];
      if i + 1 < |bytes| {
        out := out + [Letter(triple / 64 % 64, url)];
      } else if !omitPadding {
        out := out + [PAD];
      }
      if i + 2 < |bytes| {
        out := out + [Letter(triple % 64, url)];
      } else if !omitPadding {
        out := out + [PAD];
      }
      assert out == was + StepText(Bits(bytes, i), left, url, omitPadding);
      if left >= 3 {
        WholeStep(bytes, i, url, omitPadding);
        Lists.Regroup(was, StepText(Bits(bytes, i), left, url, omitPadding), Text(bytes[i + 3..], url, omitPadding));
      } else {
        LastStep(bytes, i, url, omitPadding);
      }
      i := i + 3;
    }
    TextOfNothing(url, omitPadding);
    assert out + [] == out;
    assert i == |bytes| ==> bytes[i..] == [];
  }

  lemma TextOfNothing(url: bool, omitPadding: bool)
    ensures Text([], url, omitPadding) == []
  {
    assert SextetsOf([]) == [] && Letters([], url) == [];
  }

  lemma NoSextets()
    ensures SextetsOf([]) == []
  {
  }

  // --- Reading ---------------------------------------------------------------------------------

  /** The values of the letters of a text, everything else skipped. */
  function ValuesIn(s: Bytes): (vs: seq<Sextet>)
    ensures |vs| <= |s|
  {
    if s == [] then [] else if SextetOf(s[0]) < 0 then ValuesIn(s[1..]) else [SextetOf(s[0])] + ValuesIn(s[1..])
  }

  function FirstByte(v: Sextet, w: Sextet): (b: Byte) { v as int * 4 + w as int / 16 }

  function SecondByte(v: Sextet, w: Sextet): (b: Byte) { v as int % 16 * 16 + w as int / 4 }

  function ThirdByte(v: Sextet, w: Sextet): (b: Byte) { v as int % 4 * 64 + w as int }

  /** The bytes some sextets spell: three for every four, a last group one fewer than it has. */
  function Packed(vs: seq<Sextet>): (b: Bytes)
    ensures |b| == |vs| * 3 / 4
  {
    if |vs| < 2 then []
    else
      var first := FirstByte(vs[0], vs[1]);
      if |vs| == 2 then [first]
      else
        var second := SecondByte(vs[1], vs[2]);
        if |vs| == 3 then [first, second] else [first, second, ThirdByte(vs[2], vs[3])] + Packed(vs[4..])
  }

  lemma {:induction false} PackedGroups(vs: seq<Sextet>, more: seq<Sextet>)
    requires |vs| % 4 == 0
    ensures Packed(vs + more) == Packed(vs) + Packed(more)
    decreases |vs|
  {
    if vs == [] {
      assert vs + more == more;
    } else {
      assert (vs + more)[4..] == vs[4..] + more;
      PackedGroups(vs[4..], more);
    }
  }

  lemma ValuesStep(s: Bytes, i: nat)
    requires i < |s|
    ensures ValuesIn(s[..i + 1]) == ValuesIn(s[..i]) + if SextetOf(s[i]) < 0 then [] else [SextetOf(s[i])]
  {
    assert s[..i + 1] == s[..i] + [s[i]];
    ValuesConcat(s[..i], [s[i]]);
    assert ValuesIn([s[i]][1..]) == [];
  }

  lemma {:induction false} ValuesConcat(a: Bytes, b: Bytes)
    ensures ValuesIn(a + b) == ValuesIn(a) + ValuesIn(b)
    decreases |a|
  {
    if a == [] {
      assert a + b == b;
    } else {
      assert (a + b)[1..] == a[1..] + b;
      ValuesConcat(a[1..], b);
    }
  }

  lemma PackedFour(group: seq<Sextet>)
    requires |group| == 4
    ensures Packed(group) ==
            [FirstByte(group[0], group[1]), SecondByte(group[1], group[2]), ThirdByte(group[2], group[3])]
  {
    assert Packed(group[4..]) == [];
  }

  lemma PackedPartial(group: seq<Sextet>, filled: nat)
    requires |group| == 4 && filled < 4
    ensures Packed(group[..filled]) ==
      if filled < 2 then [] else if filled == 2 then [FirstByte(group[0], group[1])]
      else [FirstByte(group[0], group[1]), SecondByte(group[1], group[2])]
  {
  }

  lemma ThreeMore(done: Bytes, three: Bytes)
    requires |three| == 3
    ensures done + [three[0]] + [three[1]] + [three[2]] == done + three
  {
  }

  /** `out[write++] = b`. */
  method Write(buffer: array<Byte>, write: nat, b: Byte) returns (next: nat)
    requires write < buffer.Length
    modifies buffer
    ensures next == write + 1 && buffer[..next] == old(buffer[..write]) + [b]
  {
    buffer[write] := b;
    return write + 1;
  }

  /** The buffer for the bytes of so many letters. */
  function BufferSize(letters: nat): (size: nat) { (letters + 3) / 4 * 3 }

  lemma GroupsFit(letters: nat, groups: nat, filled: nat)
    requires 4 * groups + filled <= letters
    ensures 3 * groups <= BufferSize(letters) && (filled > 0 ==> 3 * groups + 3 <= BufferSize(letters))
  {
  }

  /** The lenient loop of `base64_decode`, into a buffer sized before it starts. */
  method Base64Decode(text: Bytes) returns (out: Bytes)
    ensures out == Packed(ValuesIn(text))
  {
    hide ValuesIn, Packed, SextetOf, FirstByte, SecondByte, ThirdByte, BufferSize;
    var buffer := new Byte[BufferSize(|text|)](i => 0);
    var write := 0;
    var group: seq<Sextet> := [0, 0, 0, 0];
    var filled := 0;
    var i := 0;
    ghost var whole: seq<Sextet>, groups := [], 0;
    NothingRead();
    GroupsFit(|text|, 0, 0);
    assert text[..0] == [];
    while i < |text|
      invariant i <= |text| && filled < 4 && |group| == 4
      invariant ValuesIn(text[..i]) == whole + group[..filled]
      invariant |whole| == 4 * groups && |whole| + filled <= i
      invariant write == 3 * groups <= buffer.Length == BufferSize(|text|) && buffer[..write] == Packed(whole)
    {
      ValuesStep(text, i);
      var six := SextetOf(text[i]);
      i := i + 1;
      if six < 0 {
        continue;
      }
      assert group[filled := six][..filled + 1] == group[..filled] + [six];
      Lists.Regroup(whole, group[..filled], [six as Sextet]);
      group := group[filled := six];
      filled := filled + 1;
      if filled == 4 {
        ghost var done := buffer[..write];
        GroupsFit(|text|, groups, 4);
        PackedGroups(whole, group);
        PackedFour(group);
        assert group[..4] == group;
        write := Write(buffer, write, FirstByte(group[0], group[1]));
        write := Write(buffer, write, SecondByte(group[1], group[2]));
        write := Write(buffer, write, ThirdByte(group[2], group[3]));
        filled := 0;
        ThreeMore(done, Packed(group));
        whole, groups := whole + group, groups + 1;
        assert group[..0] == [];
      }
    }
    assert text[..i] == text;
    PackedGroups(whole, group[..filled]);
    GroupsFit(|text|, groups, filled);
    write := WriteRest(buffer, write, group, filled);
    out := buffer[..write];
  }

  /** The bytes of a last, incomplete group. */
  method WriteRest(buffer: array<Byte>, start: nat, group: seq<Sextet>, filled: nat) returns (write: nat)
    requires |group| == 4 && filled < 4
    requires start <= buffer.Length && (filled > 0 ==> start + 3 <= buffer.Length)
    modifies buffer
    ensures start <= write <= buffer.Length
    ensures buffer[..write] == old(buffer[..start]) + Packed(group[..filled])
  {
    hide Packed, FirstByte, SecondByte;
    PackedPartial(group, filled);
    write := start;
    if filled >= 2 {
      write := Write(buffer, write, FirstByte(group[0], group[1]));
      if filled == 3 {
        write := Write(buffer, write, SecondByte(group[1], group[2]));
      }
    }
  }

  lemma NothingRead()
    ensures ValuesIn([]) == [] && Packed([]) == []
  {
  }

  // --- There and back ----------------------------------------------------------------------------

  /** The bits of three bytes, cut in four and put together again. */
  lemma BytesBack(b0: Byte, b1: Byte, b2: Byte)
    ensures FirstByte(b0 as int / 4, b0 as int % 4 * 16 + b1 as int / 16) == b0
    ensures SecondByte(b0 as int % 4 * 16 + b1 as int / 16, b1 as int % 16 * 4 + b2 as int / 64) == b1
    ensures ThirdByte(b1 as int % 16 * 4 + b2 as int / 64, b2 as int % 64) == b2
  {
    assert (b0 as int % 4 * 16 + b1 as int / 16) / 16 == b0 as int % 4;
    assert (b0 as int % 4 * 16 + b1 as int / 16) % 16 == b1 as int / 16;
    assert (b1 as int % 16 * 4 + b2 as int / 64) / 4 == b1 as int % 16;
    assert (b1 as int % 16 * 4 + b2 as int / 64) % 4 == b2 as int / 64;
  }

  lemma {:induction false} PackedUndoes(b: Bytes)
    ensures Packed(SextetsOf(b)) == b
    decreases |b|
  {
    hide FirstByte, SecondByte, ThirdByte;
    if |b| >= 3 {
      PackedUndoes(b[3..]);
      BytesBack(b[0], b[1], b[2]);
      var vs := SextetsOf(b);
      assert vs[4..] == SextetsOf(b[3..]);
      assert b == [b[0], b[1], b[2]] + b[3..];
    } else if |b| == 2 {
      BytesBack(b[0], b[1], 0);
      assert b == [b[0], b[1]];
    } else if |b| == 1 {
      BytesBack(b[0], 0, 0);
      assert b == [b[0]];
    }
  }

  lemma LetterValue(v: Sextet)
    ensures SextetOf(Letter(v, false)) == v
    ensures SextetOf(Letter(v, true)) == if v < 62 then v else -1
  {
  }

  /** The values of the letters that are still letters of the standard alphabet. */
  function Below62(vs: seq<Sextet>): (r: seq<Sextet>)
    ensures |r| <= |vs| && (|r| == |vs| <==> forall i :: 0 <= i < |vs| ==> vs[i] < 62)
    ensures |r| == |vs| ==> r == vs
  {
    if vs == [] then [] else if vs[0] < 62 then [vs[0]] + Below62(vs[1..]) else Below62(vs[1..])
  }

  lemma LettersTail(vs: seq<Sextet>, url: bool)
    requires vs != []
    ensures Letters(vs, url)[0] == Letter(vs[0], url) && Letters(vs, url)[1..] == Letters(vs[1..], url)
  {
    hide Letter;
  }

  lemma {:induction false} ValuesOfLetters(vs: seq<Sextet>)
    ensures ValuesIn(Letters(vs, false)) == vs && ValuesIn(Letters(vs, true)) == Below62(vs)
    decreases |vs|
  {
    if vs != [] {
      hide Letter, SextetOf, Letters;
      LetterValue(vs[0]);
      ValuesOfLetters(vs[1..]);
      LettersTail(vs, false);
      LettersTail(vs, true);
    }
  }

  lemma PaddingHasNoValues(b: Bytes)
    ensures ValuesIn(Padding(b)) == []
  {
    assert [PAD][1..] == [] && [PAD, PAD][1..] == [PAD];
    assert ValuesIn([]) == [] && ValuesIn([PAD]) == [] && ValuesIn([PAD, PAD]) == [];
  }

  lemma ValuesOfText(b: Bytes, url: bool, omitPadding: bool)
    ensures ValuesIn(Text(b, url, omitPadding)) == if url then Below62(SextetsOf(b)) else SextetsOf(b)
  {
    var vs := SextetsOf(b);
    ValuesOfLetters(vs);
    PaddingHasNoValues(b);
    ValuesConcat(Letters(vs, url), if omitPadding then [] else Padding(b));
  }

  /** Decoding undoes encoding in the standard alphabet, with padding or without. */
  lemma RoundTrip(b: Bytes, omitPadding: bool)
    ensures Packed(ValuesIn(Text(b, false, omitPadding))) == b
  {
    ValuesOfText(b, false, omitPadding);
    PackedUndoes(b);
  }

  /** The reader has only the standard alphabet: it undoes the other one exactly where the two agree. */
  lemma UrlRoundTripsExactly(b: Bytes, omitPadding: bool)
    ensures Packed(ValuesIn(Text(b, true, omitPadding))) == b <==>
            Text(b, true, omitPadding) == Text(b, false, omitPadding)
  {
    hide Packed, ValuesIn, SextetOf, SextetsOf, Below62;
    ValuesOfText(b, true, omitPadding);
    PackedUndoes(b);
    var vs := SextetsOf(b);
    var short := Below62(vs);
    if |short| == |vs| {
      assert Letters(vs, true) == Letters(vs, false);
    } else {
      var i :| 0 <= i < |vs| && vs[i] >= 62;
      assert Letter(vs[i], true) != Letter(vs[i], false);
      assert Text(b, true, omitPadding)[i] == Letters(vs, true)[i] == Letter(vs[i], true);
      assert Text(b, false, omitPadding)[i] == Letters(vs, false)[i] == Letter(vs[i], false);
      FewerSextets(|b|, |vs|, |short|);
      assert |Packed(short)| < |b|;
    }
  }

  /** A byte string needs every one of its sextets. */
  lemma FewerSextets(bytes: nat, sextets: nat, fewer: nat)
    requires sextets == (bytes * 4 + 2) / 3 && fewer < sextets
    ensures fewer * 3 / 4 < bytes
  {
  }

  /** A character outside the alphabet changes nothing, wherever it stands. */
  lemma OthersAreIgnored(before: Bytes, c: Byte, after: Bytes)
    requires SextetOf(c) < 0
    ensures Packed(ValuesIn(before + [c] + after)) == Packed(ValuesIn(before + after))
  {
    ValuesConcat(before + [c], after);
    ValuesConcat(before, [c]);
    ValuesConcat(before, after);
    assert ValuesIn([c][1..]) == [] && ValuesIn([c]) == [];
    assert ValuesIn(before) + [] == ValuesIn(before);
  }

  /** The byte FF is "_w" in the URL alphabet and "/w" in the standard one; the reader makes nothing of the first. */
  lemma UrlTextIsNotRead()
    ensures Text([0xFF], true, true) == [0x5F, 0x77] && Text([0xFF], false, true) == [0x2F, 0x77]
    ensures Packed(ValuesIn([0x5F, 0x77])) != [0xFF]
  {
    var b: Bytes := [0xFF];
    assert SextetsOf(b) == [63, 48];
    assert Text(b, true, true) == [0x5F, 0x77];
    hide Packed, ValuesIn;
    UrlRoundTripsExactly(b, true);
  }

  // --- RFC 4648 ---------------------------------------------------------------------------------------

  /** Tables 1 and 2 of RFC 4648. */
  function Standard(): (s: string) { UpperCase() + LowerCase() + "0123456789" + "+/" }

  function UrlSafe(): (s: string) { UpperCase() + LowerCase() + "0123456789" + "-_" }

  lemma DecimalsAre(k: nat)
    requires k < 10
    ensures "0123456789"[k] as int == 0x30 + k
  {
  }

  /** The writer's letters are the tables', and the reader knows exactly those of the first. */
  lemma LettersAreTables(v: Sextet, c: Byte)
    ensures |Standard()| == 64 && |UrlSafe()| == 64
    ensures Letter(v, false) == Standard()[v] as int && Letter(v, true) == UrlSafe()[v] as int
    ensures SextetOf(c) == v <==> c as int == Standard()[v] as int
    ensures SextetOf(c) < 0 <==> forall w: Sextet :: Standard()[w] as int != c as int
  {
    LowerTable(v);
    if SextetOf(c) >= 0 {
      LowerTable(SextetOf(c));
      LetterOfSextet(c);
    } else {
      forall w: Sextet ensures Standard()[w] as int != c as int {
        LowerTable(w);
        LetterValue(w);
      }
    }
    LetterValue(v);
  }

  lemma LowerTable(v: Sextet)
    ensures Letter(v, false) == Standard()[v] as int && Letter(v, true) == UrlSafe()[v] as int
  {
    hide UpperCase, LowerCase;
    if v < 26 {
      CasesAre(v);
    } else if v < 52 {
      CasesAre(v - 26);
    } else if v < 62 {
      DecimalsAre(v - 52);
    }
  }

  lemma LetterOfSextet(c: Byte)
    requires SextetOf(c) >= 0
    ensures Letter(SextetOf(c), false) == c
  {
  }

  /**
    Section 4 of RFC 4648: the sextets of three bytes spell their 24-bit number, high bits
    first; those of a last group spell its bits with zeros behind them.
   */
  lemma SextetsSpellBits(b: Bytes)
    ensures var vs := SextetsOf(b);
            && (|b| >= 3 ==>
                  && vs[0] as int * 26_2144 + vs[1] as int * 4096 + vs[2] as int * 64 + vs[3] as int
                     == b[0] as int * 65536 + b[1] as int * 256 + b[2] as int
                  && vs[4..] == SextetsOf(b[3..]))
            && (|b| == 2 ==>
                  vs[0] as int * 4096 + vs[1] as int * 64 + vs[2] as int == (b[0] as int * 256 + b[1] as int) * 4)
            && (|b| == 1 ==> vs[0] as int * 64 + vs[1] as int == b[0] as int * 16)
  {
    var vs := SextetsOf(b);
    if |b| >= 3 {
      assert vs[..4] == [b[0] as int / 4, b[0] as int % 4 * 16 + b[1] as int / 16,
                         b[1] as int % 16 * 4 + b[2] as int / 64, b[2] as int % 64];
      assert vs[4..] == SextetsOf(b[3..]);
    }
  }

  /** Padding fills the last group up to four characters, at most two of them, and omitting it omits only that. */
  lemma PaddingFills(b: Bytes, url: bool)
    ensures |Text(b, url, false)| == (|b| + 2) / 3 * 4
    ensures |Text(b, url, true)| == (|b| * 4 + 2) / 3
    ensures Text(b, url, true) <= Text(b, url, false)
    ensures forall i :: |Text(b, url, true)| <= i < |Text(b, url, false)| ==> Text(b, url, false)[i] == 0x3D
    ensures 0x3D !in Text(b, url, true)
  {
    hide SextetsOf, Letter, Letters;
    GroupSizes(|b|);
    var vs := SextetsOf(b);
    NoPadLetters(vs, url);
  }

  lemma GroupSizes(n: nat)
    ensures (n + 2) / 3 * 4 == (n * 4 + 2) / 3 + (3 - n % 3) % 3
  {
    var q, r := n / 3, n % 3;
    assert n == 3 * q + r;
    if r == 0 {
    } else if r == 1 {
    } else {
    }
  }

  lemma NoPadLetters(vs: seq<Sextet>, url: bool)
    ensures |Letters(vs, url)| == |vs| && 0x3D !in Letters(vs, url)
  {
    forall i | 0 <= i < |vs| ensures Letters(vs, url)[i] != 0x3D {
      assert Letters(vs, url)[i] == Letter(vs[i], url);
    }
  }
}
