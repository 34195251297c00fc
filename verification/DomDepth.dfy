/**
  The composed depth cap: `depth` and `height` measure the tree that crosses into shadow
  roots and template contents, and what the insertions refuse by them keeps every node
  less than MAX_DOM_DEPTH below its top. `set_document_element` does not ask; it keeps
  the cap exactly when the new element's own tree leaves room for the Document above it.
 */
module DomDepth {
  import opened Chains
  import opened DomStore
  import opened DomForest

  /** Shadow roots and hosts point to each other. */
  ghost predicate ShadowsAgree(d: Dom) {
    && (forall h :: h in d.shadowRoots ==>
          && h in d.nodes && d.nodes[h].kind == ElementKind
          && d.shadowRoots[h] in d.shadowHosts && d.shadowHosts[d.shadowRoots[h]] == h)
    && (forall r :: r in d.shadowHosts ==>
          && IsHostable(d, r)
          && d.shadowHosts[r] in d.shadowRoots && d.shadowRoots[d.shadowHosts[r]] == r)
  }

  /** A fragment that is no one's child and not the root. */
  predicate IsHostable(d: Dom, r: Id) {
    r in d.nodes && d.nodes[r].kind == FragmentKind && d.nodes[r].parent == NONE && r != d.root
  }

  predicate IsContents(d: Dom, r: Id) { exists i :: 0 <= i < |d.templates| && d.templates[i].1 == r }

  /** Every template has one contents fragment, every contents fragment one template. */
  ghost predicate TemplatesAgree(d: Dom) {
    && (forall i :: 0 <= i < |d.templates| ==>
          && d.templates[i].0 in d.nodes && d.nodes[d.templates[i].0].kind == ElementKind
          && IsHostable(d, d.templates[i].1) && d.templates[i].1 !in d.shadowHosts)
    && (forall i, j :: 0 <= i < j < |d.templates| ==>
          d.templates[i].0 != d.templates[j].0 && d.templates[i].1 != d.templates[j].1)
  }

  /** The composed tree: a forest, its shadow roots and its template contents, without a cycle. */
  ghost predicate Composed(d: Dom) {
    && Forest(d)
    && d.nodes[d.document].kind == DocumentKind
    && ShadowsAgree(d) && TemplatesAgree(d)
    && Sound(Ups(d))
  }

  predicate IsHosted(d: Dom, c: Id) { c in d.shadowHosts || IsContents(d, c) }

  /** No node sits at the cap or below. */
  ghost predicate DepthBound(d: Dom)
    requires Sound(Ups(d))
  {
    forall x :: x in d.nodes ==> DepthOf(Ups(d), x) < MAX_DOM_DEPTH
  }

  // --- One level up, one level down --------------------------------------------

  lemma {:induction false} SecondIs(pairs: seq<(Id, Id)>, i: nat)
    requires i < |pairs|
    requires forall j, k :: 0 <= j < k < |pairs| ==> pairs[j].0 != pairs[k].0 && pairs[j].1 != pairs[k].1
    ensures SecondOf(pairs, pairs[i].0) == pairs[i].1
    ensures FirstOf(pairs, pairs[i].1) == pairs[i].0
    decreases i
  {
    if i > 0 {
      var rest := pairs[1..];
      assert rest[i - 1] == pairs[i];
      SecondIs(rest, i - 1);
      assert pairs[0].0 != pairs[i].0 && pairs[0].1 != pairs[i].1;
    }
  }

  lemma {:induction false} FirstFound(pairs: seq<(Id, Id)>, b: Id)
    ensures FirstOf(pairs, b) != NONE ==>
              exists i :: 0 <= i < |pairs| && pairs[i] == (FirstOf(pairs, b), b)
    ensures SecondOf(pairs, b) != NONE ==>
              exists i :: 0 <= i < |pairs| && pairs[i] == (b, SecondOf(pairs, b))
  {
    if pairs != [] {
      FirstFound(pairs[1..], b);
      if FirstOf(pairs[1..], b) != NONE {
        var i :| 0 <= i < |pairs[1..]| && pairs[1..][i] == (FirstOf(pairs[1..], b), b);
        assert pairs[i + 1] == (FirstOf(pairs[1..], b), b);
      }
      if SecondOf(pairs[1..], b) != NONE {
        var i :| 0 <= i < |pairs[1..]| && pairs[1..][i] == (b, SecondOf(pairs[1..], b));
        assert pairs[i + 1] == (b, SecondOf(pairs[1..], b));
      }
    }
  }

  lemma ChildIsUp(d: Dom, x: Id, c: Id)
    requires Composed(d) && x in d.nodes && c in d.nodes[x].children
    ensures c in d.nodes && Up(d, c) == x
  {
    assert ListAgrees(d.nodes, d.document, d.root, x);
    assert BelongsTo(d.nodes, d.document, d.root, x, c);
  }

  /** What `height` walks down to is what `up` leads back from. */
  lemma BelowIsUp(d: Dom, x: Id, c: Id)
    requires Composed(d) && x in d.nodes && c in Below(d, x)
    ensures c in d.nodes && Up(d, c) == x
  {
    hide Grounded, Closed, ForestOf, FreshNext;
    if c in d.nodes[x].children {
      ChildIsUp(d, x, c);
    } else if x in d.shadowRoots && c == d.shadowRoots[x] {
      assert c in d.shadowHosts;
    } else {
      assert c == SecondOf(d.templates, x) && c != NONE;
      FirstFound(d.templates, x);
      var i :| 0 <= i < |d.templates| && d.templates[i] == (x, c);
      SecondIs(d.templates, i);
    }
  }

  lemma UpIsChild(d: Dom, c: Id)
    requires Composed(d) && c in d.nodes && Up(d, c) != NONE
    requires (c == d.root && c != d.document) || d.nodes[c].parent == Up(d, c)
    ensures Up(d, c) in d.nodes && c in d.nodes[Up(d, c)].children
  {
    assert PointerAgrees(d.nodes, c);
  }

  lemma UpIsBelow(d: Dom, c: Id)
    requires Composed(d) && c in d.nodes && Up(d, c) != NONE
    ensures Up(d, c) in d.nodes && c in Below(d, Up(d, c))
  {
    hide Grounded, Closed, ForestOf, FreshNext;
    if (c == d.root && c != d.document) || d.nodes[c].parent == Up(d, c) {
      UpIsChild(d, c);
    } else if c in d.shadowHosts {
      var h := d.shadowHosts[c];
      assert h in d.shadowRoots && d.shadowRoots[h] == c;
      assert c != NONE by { NodesAreNotNull(d, c); }
    } else {
      FirstFound(d.templates, c);
      var i :| 0 <= i < |d.templates| && d.templates[i] == (Up(d, c), c);
      SecondIs(d.templates, i);
      assert c != NONE by { NodesAreNotNull(d, c); }
    }
  }

  lemma NodesAreNotNull(d: Dom, c: Id)
    requires Forest(d) && c in d.nodes
    ensures c != NONE
  {
  }

  // --- What depth and height measure ---------------------------------------------

  function Min(a: nat, b: nat): (m: nat)
    ensures m == a || m == b
    ensures m <= a && m <= b
  {
    if a < b then a else b
  }

  /** `depth` is the number of levels above a node, up to the cap. */
  lemma TopAlone(up: Links, x: Id)
    requires Grounded(up) && Next(up, x) == NONE
    ensures DepthOf(up, x) == 0
  {
    assert IsChainFrom(up, x, [x]);
    ChainIs(up, x, [x]);
  }

  lemma NextIsUp(d: Dom, x: Id)
    ensures Next(Ups(d), x) == Up(d, x)
  {
  }

  lemma {:induction false} DepthIsCapped(d: Dom, x: Id, most: nat)
    requires Sound(Ups(d))
    ensures CappedDepth(d, x, most) == Min(DepthOf(Ups(d), x), most)
    decreases most
  {
    hide IsChain, ChainOf, Ups;
    var up := Ups(d);
    NextIsUp(d, x);
    if Up(d, x) == NONE {
      TopAlone(up, x);
    } else {
      ParentChain(up, x);
      if most > 0 {
        DepthIsCapped(d, Up(d, x), most - 1);
      }
    }
  }

  lemma {:induction false} TallestCovers(d: Dom, kids: seq<Id>, most: nat, c: Id)
    requires c in kids
    ensures TallestOf(d, kids, most) >= 1 + CappedHeight(d, c, most)
  {
    if kids[0] != c {
      TallestCovers(d, kids[1..], most, c);
    }
  }

  lemma {:induction false} TallestReached(d: Dom, kids: seq<Id>, most: nat) returns (c: Id)
    requires TallestOf(d, kids, most) > 0
    ensures c in kids && TallestOf(d, kids, most) == 1 + CappedHeight(d, c, most)
  {
    if TallestOf(d, kids, most) == 1 + CappedHeight(d, kids[0], most) {
      c := kids[0];
    } else {
      c := TallestReached(d, kids[1..], most);
    }
  }

  /** The node just below `x` on the way down to `y`. */
  lemma StepDown(d: Dom, x: Id, y: Id) returns (c: Id)
    requires Composed(d) && x in d.nodes && y in d.nodes && Under(Ups(d), y, x) && y != x
    ensures c in d.nodes && c in Below(d, x) && Under(Ups(d), y, c)
    ensures DepthOf(Ups(d), c) == DepthOf(Ups(d), x) + 1
  {
    var up := Ups(d);
    var i := UnderSplits(up, y, x);
    var path := ChainOf(up, y);
    assert i > 0 && path[i] == Next(up, path[i - 1]);
    c := path[i - 1];
    ChainInMap(up, path, i - 1);
    ParentChain(up, c);
    UpIsBelow(d, c);
  }

  lemma HeightStep(d: Dom, x: Id, most: nat)
    ensures CappedHeight(d, x, most) == if most == 0 then 0 else TallestOf(d, Below(d, x), most - 1)
  {
  }

  lemma SelfUnder(up: Links, x: Id)
    requires Grounded(up)
    ensures Under(up, x, x)
  {
    ChainStarts(up, x);
  }

  lemma UpsAt(d: Dom, x: Id)
    ensures Next(Ups(d), x) == Up(d, x)
  {
  }

  lemma ComposedIsSound(d: Dom)
    requires Composed(d)
    ensures Forest(d) && Sound(Ups(d)) && Closed(Ups(d)) && Grounded(Ups(d))
  {
  }

  lemma UnderParent(up: Links, y: Id, c: Id)
    requires Sound(up) && Under(up, y, c) && Next(up, c) != NONE
    ensures Under(up, y, Next(up, c)) && DepthOf(up, c) == DepthOf(up, Next(up, c)) + 1
  {
    ParentChain(up, c);
    var i := UnderSplits(up, y, c);
    ChainStarts(up, Next(up, c));
    assert Next(up, c) in ChainOf(up, c);
    assert Next(up, c) in ChainOf(up, y)[i..];
  }

  /** `height` misses no node below, up to the cap. */
  lemma {:induction false} HeightCovers(d: Dom, x: Id, y: Id, most: nat)
    requires Composed(d) && x in d.nodes && y in d.nodes && Under(Ups(d), y, x)
    ensures DepthOf(Ups(d), y) >= DepthOf(Ups(d), x)
    ensures CappedHeight(d, x, most) >= Min(DepthOf(Ups(d), y) - DepthOf(Ups(d), x), most)
    decreases most
  {
    hide *;
    ComposedIsSound(d);
    var i := UnderSplits(Ups(d), y, x);
    HeightStep(d, x, most);
    if y == x {
    } else if most > 0 {
      var c := StepDown(d, x, y);
      HeightCovers(d, c, y, most - 1);
      TallestCovers(d, Below(d, x), most - 1, c);
    }
  }

  /** `height` is the distance to some node below. */
  lemma {:induction false} HeightReached(d: Dom, x: Id, most: nat) returns (y: Id)
    requires Composed(d) && x in d.nodes
    ensures y in d.nodes && Under(Ups(d), y, x)
    ensures DepthOf(Ups(d), y) == DepthOf(Ups(d), x) + CappedHeight(d, x, most)
    decreases most
  {
    hide *;
    ComposedIsSound(d);
    HeightStep(d, x, most);
    if CappedHeight(d, x, most) == 0 {
      y := x;
      SelfUnder(Ups(d), x);
    } else {
      var c := TallestReached(d, Below(d, x), most - 1);
      BelowIsUp(d, x, c);
      UpsAt(d, c);
      NodesAreNotNull(d, x);
      y := HeightReached(d, c, most - 1);
      UnderParent(Ups(d), y, c);
    }
  }

  /** A tree is `h` levels high: a node lies `h` levels below, and none lies further. */
  ghost predicate IsHeight(d: Dom, x: Id, h: nat)
    requires Sound(Ups(d))
  {
    && (exists y :: y in d.nodes && Under(Ups(d), y, x) && DepthOf(Ups(d), y) == DepthOf(Ups(d), x) + h)
    && (forall y :: y in d.nodes && Under(Ups(d), y, x) ==> DepthOf(Ups(d), y) <= DepthOf(Ups(d), x) + h)
  }

  /** `height` is the true height of the composed subtree, up to the cap. */
  lemma HeightIsCapped(d: Dom, x: Id, h: nat, most: nat)
    requires Composed(d) && x in d.nodes && IsHeight(d, x, h)
    ensures CappedHeight(d, x, most) == Min(h, most)
  {
    hide Composed, CappedHeight;
    var deepest :| deepest in d.nodes && Under(Ups(d), deepest, x)
                   && DepthOf(Ups(d), deepest) == DepthOf(Ups(d), x) + h;
    HeightCovers(d, x, deepest, most);
    var y := HeightReached(d, x, most);
  }
}
