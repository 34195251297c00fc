/** The list operations the document's child vectors go through: find, erase, insert. */
module Lists {

  /** Concatenation is associative, said where the verifier would not look for it. */
  lemma Regroup<T>(a: seq<T>, b: seq<T>, c: seq<T>)
    ensures (a + b) + c == a + (b + c)
  {
  }

  /** `std::ranges::find`: the first place of `x`, or the end. */
  function IndexOf<T(==, !new)>(s: seq<T>, x: T): (i: nat)
    ensures i <= |s|
    ensures i < |s| ==> s[i] == x
    ensures forall j :: 0 <= j < i ==> s[j] != x
    ensures i < |s| <==> x in s
  {
    if s == [] || s[0] == x then 0 else 1 + IndexOf(s[1..], x)
  }

  /** `std::ranges::remove` and `erase`: every `x` goes. */
  function RemoveAll<T(==, !new)>(s: seq<T>, x: T): (r: seq<T>)
    ensures forall y :: y in r <==> y in s && y != x
  {
    if s == [] then [] else if s[0] == x then RemoveAll(s[1..], x) else [s[0]] + RemoveAll(s[1..], x)
  }

  function InsertAt<T(!new)>(s: seq<T>, i: nat, x: T): (r: seq<T>)
    requires i <= |s|
  {
    s[..i] + [x] + s[i..]
  }

  predicate NoRepeats<T(==, !new)>(s: seq<T>) {
    forall i, j :: 0 <= i < j < |s| ==> s[i] != s[j]
  }

  function RemoveAt<T(!new)>(s: seq<T>, i: nat): (r: seq<T>)
    requires i < |s|
  {
    s[..i] + s[i + 1..]
  }

  lemma {:induction false} RemoveAbsent<T(!new)>(s: seq<T>, x: T)
    requires x !in s
    ensures RemoveAll(s, x) == s
  {
    if s != [] {
      RemoveAbsent(s[1..], x);
    }
  }

  lemma {:induction false} RemoveOnce<T(!new)>(s: seq<T>, x: T)
    requires NoRepeats(s) && x in s
    ensures RemoveAll(s, x) == RemoveAt(s, IndexOf(s, x))
  {
    if s[0] == x {
      assert x !in s[1..];
      RemoveAbsent(s[1..], x);
    } else {
      RemoveOnce(s[1..], x);
    }
  }

  lemma RemoveKeepsNoRepeats<T(!new)>(s: seq<T>, x: T)
    requires NoRepeats(s)
    ensures NoRepeats(RemoveAll(s, x))
  {
    if x in s {
      RemoveOnce(s, x);
    } else {
      RemoveAbsent(s, x);
    }
  }

  lemma InsertKeepsNoRepeats<T(!new)>(s: seq<T>, i: nat, x: T)
    requires NoRepeats(s) && x !in s && i <= |s|
    ensures NoRepeats(InsertAt(s, i, x))
    ensures forall y :: y in InsertAt(s, i, x) <==> y in s || y == x
  {
    var r := InsertAt(s, i, x);
    forall y ensures y in r <==> y in s || y == x {
      if y in s {
        var k :| 0 <= k < |s| && s[k] == y;
        assert r[if k < i then k else k + 1] == y;
      }
      assert r[i] == x;
    }
  }

  lemma IndexIs<T(!new)>(s: seq<T>, x: T, i: nat)
    requires i <= |s| && (i < |s| ==> s[i] == x) && forall j :: 0 <= j < i ==> s[j] != x
    ensures IndexOf(s, x) == i
  {
  }

  /** Erasing one value from a list and from a longer one commute with concatenation. */
  lemma {:induction false} RemoveFromConcat<T(!new)>(a: seq<T>, b: seq<T>, x: T)
    ensures RemoveAll(a + b, x) == RemoveAll(a, x) + RemoveAll(b, x)
  {
    if a == [] {
      assert a + b == b;
    } else {
      assert (a + b)[1..] == a[1..] + b;
      RemoveFromConcat(a[1..], b, x);
    }
  }
}
