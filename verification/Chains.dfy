/**
  Chains of a pointer map: every node follows one pointer, and `NONE` ends a chain.
  The document follows two such maps, the parent pointers and the composed `up` links;
  here are the two changes made to either, cutting one pointer and hanging a top node
  somewhere else, and what they do to every chain.
 */
module Chains {

  /** A node handle; the null handle is zero. */
  type Id = nat
  const NONE: Id := 0

  type Links = map<Id, Id>

  function Next(up: Links, x: Id): Id { if x in up then up[x] else NONE }

  ghost predicate IsChain(up: Links, path: seq<Id>) {
    && path != []
    && (forall i :: 0 < i < |path| ==> path[i] == Next(up, path[i - 1]) && path[i] != NONE)
    && Next(up, path[|path| - 1]) == NONE
  }

  ghost predicate IsChainFrom(up: Links, x: Id, path: seq<Id>) {
    IsChain(up, path) && path[0] == x
  }

  /** Every chain ends. */
  ghost predicate Grounded(up: Links) {
    forall x :: x in up ==> exists path :: IsChainFrom(up, x, path)
  }

  /** No pointer leaves the map. */
  ghost predicate Closed(up: Links) {
    NONE !in up && forall x :: x in up && up[x] != NONE ==> up[x] in up
  }

  ghost predicate Sound(up: Links) { Closed(up) && Grounded(up) }

  lemma {:induction false} ChainIsUnique(up: Links, p: seq<Id>, q: seq<Id>)
    requires IsChain(up, p) && IsChain(up, q) && p[0] == q[0]
    ensures p == q
    decreases |p|
  {
    if |p| > 1 || |q| > 1 {
      assert |p| > 1 ==> p[1] == Next(up, p[0]);
      assert |q| > 1 ==> q[1] == Next(up, q[0]);
      ChainTail(up, p, 1);
      ChainTail(up, q, 1);
      ChainIsUnique(up, p[1..], q[1..]);
      assert p == [p[0]] + p[1..] && q == [q[0]] + q[1..];
    }
  }

  /** A chain from any of its nodes on is that node's chain. */
  lemma ChainTail(up: Links, p: seq<Id>, i: nat)
    requires IsChain(up, p) && i < |p|
    ensures IsChainFrom(up, p[i], p[i..])
  {
    var q := p[i..];
    assert forall k :: 0 <= k < |q| ==> q[k] == p[i + k];
    forall k | 0 < k < |q| ensures q[k] == Next(up, q[k - 1]) && q[k] != NONE {
      assert q[k] == p[i + k];
    }
  }

  /** The chain of a node; a node outside the map stands alone. */
  ghost function ChainOf(up: Links, x: Id): (path: seq<Id>)
    requires Grounded(up)
    ensures IsChainFrom(up, x, path)
  {
    if x in up then var path :| IsChainFrom(up, x, path); path
    else assert IsChainFrom(up, x, [x]); [x]
  }

  /** The node at the top of a chain. */
  ghost function TopOf(up: Links, x: Id): Id
    requires Grounded(up)
  {
    var path := ChainOf(up, x); path[|path| - 1]
  }

  /** How many pointers lie above a node. */
  ghost function DepthOf(up: Links, x: Id): nat
    requires Grounded(up)
  {
    |ChainOf(up, x)| - 1
  }

  /** `x` is `a` or hangs below it. */
  ghost predicate Under(up: Links, x: Id, a: Id)
    requires Grounded(up)
  {
    a in ChainOf(up, x)
  }

  lemma ChainIs(up: Links, x: Id, path: seq<Id>)
    requires Grounded(up) && IsChainFrom(up, x, path)
    ensures ChainOf(up, x) == path
  {
    ChainIsUnique(up, path, ChainOf(up, x));
  }

  /** Where `a` stands on the chain of `x`, the rest is the chain of `a`. */
  lemma UnderSplits(up: Links, x: Id, a: Id) returns (i: nat)
    requires Grounded(up) && Under(up, x, a)
    ensures i < |ChainOf(up, x)| && ChainOf(up, x)[i] == a
    ensures ChainOf(up, x)[i..] == ChainOf(up, a)
    ensures i == DepthOf(up, x) - DepthOf(up, a)
    ensures TopOf(up, a) == TopOf(up, x)
  {
    i :| 0 <= i < |ChainOf(up, x)| && ChainOf(up, x)[i] == a;
    ChainTail(up, ChainOf(up, x), i);
    ChainIs(up, a, ChainOf(up, x)[i..]);
  }

  /** A node stands only once on a chain. */
  lemma ChainHasNoRepeats(up: Links, path: seq<Id>, i: nat, j: nat)
    requires IsChain(up, path) && i < j < |path|
    ensures path[i] != path[j]
  {
    if path[i] == path[j] {
      ChainTail(up, path, i);
      ChainTail(up, path, j);
      ChainIsUnique(up, path[i..], path[j..]);
    }
  }

  lemma ParentChain(up: Links, x: Id)
    requires Grounded(up) && Next(up, x) != NONE
    ensures ChainOf(up, x) == [x] + ChainOf(up, Next(up, x))
    ensures DepthOf(up, x) == 1 + DepthOf(up, Next(up, x))
    ensures TopOf(up, x) == TopOf(up, Next(up, x))
  {
    var p := ChainOf(up, x);
    assert |p| > 1 && p[1] == Next(up, x);
    ChainTail(up, p, 1);
    ChainIs(up, p[1], p[1..]);
    assert p == [p[0]] + p[1..];
  }

  /** Every node of a chain is in the map if the first is. */
  lemma {:induction false} ChainInMap(up: Links, path: seq<Id>, i: nat)
    requires Closed(up) && IsChain(up, path) && path[0] in up && i < |path|
    ensures path[i] in up && path[i] != NONE
  {
    if i > 0 {
      ChainInMap(up, path, i - 1);
      assert Next(up, path[i - 1]) == path[i];
    }
  }

  // --- Cutting ----------------------------------------------------------------

  lemma CutOne(up: Links, c: Id, x: Id, path: seq<Id>) returns (r: seq<Id>)
    requires IsChainFrom(up, x, path)
    ensures IsChainFrom(up[c := NONE], x, r)
    ensures c !in path ==> r == path
    ensures c in path ==> exists i :: 0 <= i < |path| && path[i] == c && r == path[..i + 1]
  {
    if c !in path {
      r := path;
    } else {
      var i :| 0 <= i < |path| && path[i] == c;
      forall j | 0 <= j < i ensures path[j] != c {
        ChainHasNoRepeats(up, path, j, i);
      }
      r := path[..i + 1];
    }
  }

  lemma CutKeepsSound(up: Links, c: Id)
    requires Sound(up) && c in up
    ensures Sound(up[c := NONE])
  {
    var cut := up[c := NONE];
    forall x | x in cut ensures exists path :: IsChainFrom(cut, x, path) {
      var r := CutOne(up, c, x, ChainOf(up, x));
    }
  }

  /** What the chain of `x` becomes when `c` lets go of its pointer. */
  lemma Cut(up: Links, c: Id, x: Id)
    requires Sound(up) && c in up
    ensures Sound(up[c := NONE])
    ensures !Under(up, x, c) ==> ChainOf(up[c := NONE], x) == ChainOf(up, x)
    ensures Under(up, x, c) ==>
              && TopOf(up[c := NONE], x) == c
              && DepthOf(up, x) == DepthOf(up[c := NONE], x) + DepthOf(up, c)
  {
    CutKeepsSound(up, c);
    var path := ChainOf(up, x);
    var r := CutOne(up, c, x, path);
    ChainIs(up[c := NONE], x, r);
    hide IsChainFrom, Grounded, Closed;
    if c in path {
      var i :| 0 <= i < |path| && path[i] == c && r == path[..i + 1];
      ChainFromHere(up, x, i);
    }
  }

  lemma ChainFromHere(up: Links, x: Id, i: nat)
    requires Grounded(up) && i < |ChainOf(up, x)|
    ensures ChainOf(up, ChainOf(up, x)[i]) == ChainOf(up, x)[i..]
  {
    ChainTail(up, ChainOf(up, x), i);
    ChainIs(up, ChainOf(up, x)[i], ChainOf(up, x)[i..]);
  }

  // --- Hanging ----------------------------------------------------------------

  ghost predicate HangsChain(up: Links, c: Id, p: Id, x: Id)
    requires Grounded(up) && Grounded(up[c := p])
  {
    ChainOf(up[c := p], x) ==
      if TopOf(up, x) == c then ChainOf(up, x) + ChainOf(up, p) else ChainOf(up, x)
  }

  lemma HangOne(up: Links, c: Id, p: Id, path: seq<Id>, above: seq<Id>)
    requires IsChain(up, path) && IsChainFrom(up, p, above) && p != NONE
    requires Next(up, c) == NONE && above[|above| - 1] != c
    ensures path[|path| - 1] != c ==> IsChain(up[c := p], path)
    ensures path[|path| - 1] == c ==> IsChain(up[c := p], path + above)
  {
    forall i | 0 <= i < |path| - 1 ensures path[i] != c {
      assert path[i + 1] == Next(up, path[i]);
    }
    forall i | 0 <= i < |above| - 1 ensures above[i] != c {
      assert above[i + 1] == Next(up, above[i]);
    }
    if path[|path| - 1] == c {
      var all, hung := path + above, up[c := p];
      forall i | 0 < i < |all| ensures all[i] == Next(hung, all[i - 1]) && all[i] != NONE {
        if i > |path| {
          assert all[i] == above[i - |path|] && all[i - 1] == above[i - |path| - 1];
        } else if i < |path| {
          assert all[i] == path[i] && all[i - 1] == path[i - 1];
        }
      }
    }
  }

  lemma HangKeepsSound(up: Links, c: Id, p: Id)
    requires Sound(up) && c in up && p in up
    requires Next(up, c) == NONE && TopOf(up, p) != c
    ensures Sound(up[c := p])
  {
    var hung := up[c := p];
    forall x | x in hung ensures exists path :: IsChainFrom(hung, x, path) {
      var path := ChainOf(up, x);
      HangOne(up, c, p, path, ChainOf(up, p));
      assert IsChainFrom(hung, x, if path[|path| - 1] == c then path + ChainOf(up, p) else path);
    }
  }

  /** A top node `c` hung under `p`, which is not below `c`. */
  lemma Hang(up: Links, c: Id, p: Id, x: Id)
    requires Sound(up) && c in up && p in up
    requires Next(up, c) == NONE && TopOf(up, p) != c
    ensures Sound(up[c := p])
    ensures HangsChain(up, c, p, x)
    ensures TopOf(up[c := p], x) == if TopOf(up, x) == c then TopOf(up, p) else TopOf(up, x)
    ensures DepthOf(up[c := p], x) ==
            if TopOf(up, x) == c then DepthOf(up, x) + 1 + DepthOf(up, p) else DepthOf(up, x)
  {
    HangKeepsSound(up, c, p);
    var path := ChainOf(up, x);
    HangOne(up, c, p, path, ChainOf(up, p));
    ChainIs(up[c := p], x, if path[|path| - 1] == c then path + ChainOf(up, p) else path);
  }

  /** Moving a node: everything below it moves along, and nothing else. */
  lemma Move(up: Links, c: Id, p: Id, x: Id)
    requires Sound(up) && c in up && p in up && !Under(up, p, c)
    ensures Sound(up[c := NONE]) && Sound(up[c := p])
    ensures !Under(up, x, c) ==> ChainOf(up[c := p], x) == ChainOf(up, x)
    ensures Under(up, x, c) ==>
              && TopOf(up[c := p], x) == TopOf(up, p)
              && DepthOf(up[c := p], x) + DepthOf(up, c) == DepthOf(up, x) + 1 + DepthOf(up, p)
  {
    hide IsChainFrom, Grounded, Closed;
    var cut := up[c := NONE];
    assert cut[c := p] == up[c := p];
    Cut(up, c, x);
    Cut(up, c, p);
    TopAfterCut(up, c, p);
    TopAfterCut(up, c, x);
    SoundHasKeys(up, c, p);
    Hang(cut, c, p, x);
  }

  lemma SoundHasKeys(up: Links, c: Id, p: Id)
    requires Sound(up) && c in up && p in up
    ensures c in up[c := NONE] && p in up[c := NONE] && Next(up[c := NONE], c) == NONE
  {
  }

  /** After the cut, only what hung below `c` has `c` on top. */
  lemma TopAfterCut(up: Links, c: Id, x: Id)
    requires Sound(up) && c in up
    ensures Sound(up[c := NONE])
    ensures TopOf(up[c := NONE], x) == if Under(up, x, c) then c else TopOf(up, x)
    ensures TopOf(up[c := NONE], x) == c <==> Under(up, x, c)
  {
    Cut(up, c, x);
    var path := ChainOf(up, x);
    assert !Under(up, x, c) ==> path[|path| - 1] != c;
  }

  lemma AddOne(up: Links, x: Id, y: Id)
    requires Sound(up) && x !in up && x != NONE && y in up
    ensures IsChainFrom(up[x := NONE], y, ChainOf(up, y))
  {
    hide Grounded, IsChain, ChainOf;
    var path := ChainOf(up, y);
    forall i | 0 <= i < |path| ensures path[i] in up {
      ChainInMap(up, path, i);
    }
    AddedIsChain(up, x, path);
  }

  lemma AddedIsChain(up: Links, x: Id, path: seq<Id>)
    requires IsChain(up, path) && x !in up && forall i :: 0 <= i < |path| ==> path[i] in up
    ensures IsChain(up[x := NONE], path)
  {
    assert forall i :: 0 <= i < |path| ==> Next(up[x := NONE], path[i]) == Next(up, path[i]);
  }

  /** A new node without a pointer changes no chain. */
  lemma AddKeepsSound(up: Links, x: Id)
    requires Sound(up) && x !in up && x != NONE
    ensures Sound(up[x := NONE])
    ensures forall y :: y in up ==> ChainOf(up[x := NONE], y) == ChainOf(up, y)
    ensures ChainOf(up[x := NONE], x) == [x]
  {
    hide IsChain, ChainOf;
    var more := up[x := NONE];
    AddAlone(up, x);
    forall y | y in up ensures IsChainFrom(more, y, ChainOf(up, y)) {
      AddOne(up, x, y);
    }
    ChainIs(more, x, [x]);
    forall y | y in up ensures ChainOf(more, y) == ChainOf(up, y) {
      ChainIs(more, y, ChainOf(up, y));
    }
  }

  /** Nor that of a node outside the map. */
  lemma AddKeepsChain(up: Links, n: Id, x: Id)
    requires Sound(up) && n !in up && n != NONE
    ensures Sound(up[n := NONE]) && ChainOf(up[n := NONE], x) == ChainOf(up, x)
  {
    hide Grounded, Closed, IsChain;
    AddKeepsSound(up, n);
    if x !in up {
      AloneOutside(up, x);
      if x != n {
        AloneOutside(up[n := NONE], x);
      }
    }
  }

  lemma AloneOutside(up: Links, x: Id)
    requires Grounded(up) && x !in up
    ensures ChainOf(up, x) == [x]
  {
    ChainIs(up, x, [x]);
  }

  lemma AddAlone(up: Links, x: Id)
    ensures IsChainFrom(up[x := NONE], x, [x])
  {
  }
}
