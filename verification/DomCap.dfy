/**
  Over the operations that ask, no node ever reaches the composed depth cap; and for the
  one that does not ask, `set_document_element`, exactly when it keeps the cap.
 */
module DomCap {
  import opened Lists
  import opened Chains
  import opened DomStore
  import opened DomForest
  import opened DomDepth

  /** The two facts kept: the composed tree is one, and nothing is as deep as the cap. */
  ghost predicate Capped(d: Dom) { Composed(d) && DepthBound(d) }

  /** A node that may be put under `p`: no shadow root or contents, and `p` does not hang below it. */
  ghost predicate MayHang(d: Dom, p: Id, c: Id)
    requires Sound(Ups(d))
  {
    MayMove(d, c) && !IsHosted(d, c) && !Under(Ups(d), p, c)
  }

  // --- Composed pointers after a step ----------------------------------------------

  lemma NoContents(d: Dom, x: Id)
    requires !IsContents(d, x)
    ensures TemplateOf(d, x) == NONE
  {
    FirstFound(d.templates, x);
  }

  /** Everything `up` looks at besides the parent pointers and the root. */
  ghost predicate SameFrame(d: Dom, r: Dom) {
    && r.nodes.Keys == d.nodes.Keys && r.document == d.document
    && r.shadowRoots == d.shadowRoots && r.shadowHosts == d.shadowHosts && r.templates == d.templates
    && forall x :: x in d.nodes ==> r.nodes[x].kind == d.nodes[x].kind
  }

  lemma FrameIsTransitive(a: Dom, b: Dom, c: Dom)
    requires SameFrame(a, b) && SameFrame(b, c)
    ensures SameFrame(a, c)
  {
  }

  lemma FrameKeepsHosted(d: Dom, r: Dom, c: Id)
    requires SameFrame(d, r)
    ensures IsHosted(r, c) <==> IsHosted(d, c)
    ensures c in r.nodes <==> c in d.nodes
  {
  }

  /** What a change of parent pointers does to `up`: kinds, hosts and the root stay. */
  lemma UpsChange(d: Dom, r: Dom, c: Id, p: Id)
    requires SameFrame(d, r) && r.root == d.root
    requires Parents(r.nodes) == Parents(d.nodes)[c := p] && c in d.nodes
    requires c != d.root && !IsHosted(d, c)
    ensures Ups(r) == Ups(d)[c := p]
  {
    hide IsContents, IsHosted, Up;
    forall x | x in d.nodes ensures Up(r, x) == if x == c then p else Up(d, x) {
      assert Parents(r.nodes)[x] == r.nodes[x].parent && Parents(d.nodes)[x] == d.nodes[x].parent;
      UpChange(d, r, c, p, x);
    }
  }

  lemma UpChange(d: Dom, r: Dom, c: Id, p: Id, x: Id)
    requires SameFrame(d, r) && r.root == d.root && x in d.nodes && c in d.nodes
    requires r.nodes[x].parent == if x == c then p else d.nodes[x].parent
    requires c != d.root && !IsHosted(d, c)
    ensures Up(r, x) == if x == c then p else Up(d, x)
  {
    NoContents(d, c);
  }

  lemma DetachFrame(d: Dom, c: Id)
    requires Sound(Parents(d.nodes)) && c in d.nodes && d.nodes[c].parent in d.nodes + map[NONE := d.nodes[c]]
    ensures var r := Detached(d, c);
            SameFrame(d, r) && r.root == d.root && Parents(r.nodes) == Parents(d.nodes)[c := NONE]
  {
    hide Sound, Closed, Grounded, RemoveAll, Together;
    if d.nodes[c].parent == NONE {
      assert Parents(d.nodes)[c := NONE] == Parents(d.nodes);
    } else {
      CutNodeParents(d.nodes, c);
    }
  }

  lemma ParentIsLive(d: Dom, c: Id)
    requires Forest(d) && c in d.nodes
    ensures d.nodes[c].parent in d.nodes + map[NONE := d.nodes[c]]
  {
    assert PointerAgrees(d.nodes, c);
  }

  lemma DetachUps(d: Dom, c: Id)
    requires Forest(d) && c in d.nodes && c != d.root && !IsHosted(d, c)
    ensures Sound(Parents(d.nodes))
    ensures Ups(Detached(d, c)) == Ups(d)[c := NONE]
  {
    hide *;
    ForestIsSound(d);
    ParentIsLive(d, c);
    DetachFrame(d, c);
    UpsChange(d, Detached(d, c), c, NONE);
  }

  lemma PlacedFrame(d: Dom, p: Id, c: Id, i: nat)
    requires p in d.nodes && c in d.nodes && i <= |d.nodes[p].children|
    ensures var r := Placed(d, p, c, i);
            SameFrame(d, r) && r.root == d.root && Parents(r.nodes) == Parents(d.nodes)[c := p]
  {
    HangNodeParents(d.nodes, p, c, i);
  }

  lemma MovedFrame(d: Dom, p: Id, c: Id, i: nat)
    requires Forest(d) && Refusal(d, p, c) == Done
    requires p in Detached(d, c).nodes && c in Detached(d, c).nodes
    requires i <= |Detached(d, c).nodes[p].children|
    ensures var r := Placed(Detached(d, c), p, c, i);
            SameFrame(d, r) && r.root == d.root && Parents(r.nodes) == Parents(d.nodes)[c := p]
  {
    hide *;
    ForestIsSound(d);
    RefusalNeedsLive(d, p, c);
    ParentIsLive(d, c);
    DetachFrame(d, c);
    var cut := Detached(d, c);
    PlacedFrame(cut, p, c, i);
    FrameIsTransitive(d, cut, Placed(cut, p, c, i));
    SetTwice(Parents(d.nodes), c, NONE, p);
  }

  lemma SetTwice(up: Links, c: Id, a: Id, b: Id)
    ensures up[c := a][c := b] == up[c := b]
  {
  }

  lemma RefusalNeedsLive(d: Dom, p: Id, c: Id)
    requires Sound(Parents(d.nodes)) && Refusal(d, p, c) == Done
    ensures p in d.nodes && c in d.nodes && !IsTooDeep(d, p, c)
  {
  }

  // --- Hosts and contents stay ------------------------------------------------------

  /** Steps that touch neither hosts nor kinds, nor the parent of a hosted fragment, keep the hosts agreeing. */
  lemma HostsStayAgreed(d: Dom, r: Dom)
    requires ShadowsAgree(d) && TemplatesAgree(d)
    requires SameFrame(d, r)
    requires forall x :: x in d.nodes && IsHosted(d, x) ==> r.nodes[x].parent == d.nodes[x].parent && x != r.root
    ensures ShadowsAgree(r) && TemplatesAgree(r)
  {
    forall x | x in d.shadowHosts ensures IsHostable(r, x) {
      assert IsHosted(d, x);
    }
    forall i | 0 <= i < |d.templates| ensures IsHostable(r, d.templates[i].1) {
      assert IsHosted(d, d.templates[i].1);
    }
  }

  lemma ParentOfOthers(d: Dom, r: Dom, c: Id, p: Id)
    requires Parents(r.nodes) == Parents(d.nodes)[c := p] && c in d.nodes
    ensures forall x :: x in d.nodes && x != c ==> x in r.nodes && r.nodes[x].parent == d.nodes[x].parent
  {
    forall x | x in d.nodes && x != c ensures x in r.nodes && r.nodes[x].parent == d.nodes[x].parent {
      assert x in Parents(r.nodes) && Parents(r.nodes)[x] == Parents(d.nodes)[x];
    }
  }

  lemma HostsStayAfterMove(d: Dom, r: Dom, c: Id, p: Id)
    requires Composed(d) && c in d.nodes && !IsHosted(d, c)
    requires SameFrame(d, r) && r.root == d.root
    requires Parents(r.nodes) == Parents(d.nodes)[c := p]
    ensures ShadowsAgree(r) && TemplatesAgree(r)
    ensures r.document in r.nodes && r.nodes[r.document].kind == DocumentKind
  {
    ParentOfOthers(d, r, c, p);
    HostedIsNotRoot(d);
    HostsStayAgreed(d, r);
  }

  lemma HostedIsNotRoot(d: Dom)
    requires ShadowsAgree(d) && TemplatesAgree(d)
    ensures forall x :: x in d.nodes && IsHosted(d, x) ==> x != d.root
  {
  }

  // --- The insertions --------------------------------------------------------------

  /** How deep everything is once `c` hangs under `p`. */
  lemma MoveStaysBelowCap(d: Dom, p: Id, c: Id, x: Id)
    requires Capped(d) && p in d.nodes && c in d.nodes && x in d.nodes
    requires !Under(Ups(d), p, c) && !IsTooDeep(d, p, c)
    ensures Sound(Ups(d)[c := p]) && DepthOf(Ups(d)[c := p], x) < MAX_DOM_DEPTH
  {
    hide *;
    ComposedIsSound(d) by { CappedParts(d); }
    CappedParts(d);
    UpsKeys(d);
    Move(Ups(d), c, p, x);
    BoundAt(d, x);
    BoundAt(d, p);
    if Under(Ups(d), x, c) {
      HeightCovers(d, c, x, MAX_DOM_DEPTH);
      DepthIsCapped(d, p, MAX_DOM_DEPTH);
      NotTooDeep(d, p, c);
    } else {
      DepthFromChain(Ups(d), Ups(d)[c := p], x);
    }
  }

  lemma CappedParts(d: Dom)
    requires Capped(d)
    ensures Composed(d) && Forest(d) && Sound(Ups(d)) && Grounded(Ups(d)) && DepthBound(d)
  {
  }

  lemma UpsKeys(d: Dom)
    ensures Ups(d).Keys == d.nodes.Keys
  {
  }

  lemma BoundAt(d: Dom, x: Id)
    requires Sound(Ups(d)) && DepthBound(d) && x in d.nodes
    ensures DepthOf(Ups(d), x) < MAX_DOM_DEPTH
  {
  }

  lemma NotTooDeep(d: Dom, p: Id, c: Id)
    requires !IsTooDeep(d, p, c)
    ensures CappedDepth(d, p, MAX_DOM_DEPTH) + 1 + CappedHeight(d, c, MAX_DOM_DEPTH) < MAX_DOM_DEPTH
  {
  }

  lemma DepthFromChain(up: Links, other: Links, x: Id)
    requires Sound(up) && Sound(other) && ChainOf(up, x) == ChainOf(other, x)
    ensures DepthOf(up, x) == DepthOf(other, x)
  {
  }

  lemma MakeCapped(r: Dom)
    requires Forest(r) && r.nodes[r.document].kind == DocumentKind && ShadowsAgree(r) && TemplatesAgree(r)
    requires Sound(Ups(r)) && forall x :: x in r.nodes ==> DepthOf(Ups(r), x) < MAX_DOM_DEPTH
    ensures Capped(r)
  {
  }

  /** An insertion that is not refused keeps the cap. */
  lemma MoveKeepsCap(d: Dom, p: Id, c: Id, i: nat)
    requires Capped(d) && MayHang(d, p, c) && Refusal(d, p, c) == Done
    requires p in Detached(d, c).nodes && c in Detached(d, c).nodes
    requires i <= |Detached(d, c).nodes[p].children|
    ensures Capped(Placed(Detached(d, c), p, c, i))
  {
    hide *;
    CappedParts(d);
    ForestIsSound(d);
    MayHangParts(d, p, c);
    RefusalNeedsLive(d, p, c);
    DetachedForInsertion(d, p, c);
    var cut := Detached(d, c);
    var r := Placed(cut, p, c, i);
    PlaceKeepsForest(cut, p, c, i);
    MovedFrame(d, p, c, i);
    HostsStayAfterMove(d, r, c, p);
    UpsChange(d, r, c, p);
    UpsKeys(d);
    Move(Ups(d), c, p, c);
    SoundIsGrounded(Ups(r));
    forall x | x in r.nodes ensures DepthOf(Ups(r), x) < MAX_DOM_DEPTH {
      FrameKeepsHosted(d, r, x);
      MoveStaysBelowCap(d, p, c, x);
    }
    MakeCapped(r);
  }

  lemma SoundIsGrounded(up: Links)
    requires Sound(up)
    ensures Grounded(up) && Closed(up)
  {
  }

  lemma MayHangParts(d: Dom, p: Id, c: Id)
    requires Sound(Ups(d)) && MayHang(d, p, c)
    ensures MayMove(d, c) && c != d.root && c != d.document && !IsHosted(d, c) && !Under(Ups(d), p, c)
  {
  }

  lemma AppendKeepsCap(d: Dom, p: Id, c: Id)
    requires Capped(d) && (Appended(d, p, c).1 == Done ==> MayHang(d, p, c))
    ensures Capped(Appended(d, p, c).0)
  {
    if Refusal(d, p, c) == Done {
      DetachedForInsertion(d, p, c);
      MoveKeepsCap(d, p, c, |Detached(d, c).nodes[p].children|);
    }
  }

  lemma InsertKeepsCap(d: Dom, p: Id, c: Id, before: Id)
    requires Capped(d) && (InsertedBefore(d, p, c, before).1 == Done ==> MayHang(d, p, c))
    ensures Capped(InsertedBefore(d, p, c, before).0)
  {
    if Refusal(d, p, c) == Done {
      DetachedForInsertion(d, p, c);
      MoveKeepsCap(d, p, c, IndexOf(Detached(d, c).nodes[p].children, ReferenceFor(d.nodes[p].children, c, before)));
    }
  }

  // --- The removals ------------------------------------------------------------------

  lemma CutLowersDepth(up: Links, c: Id, x: Id)
    requires Sound(up) && c in up
    ensures Sound(up[c := NONE]) && DepthOf(up[c := NONE], x) <= DepthOf(up, x)
  {
    Cut(up, c, x);
  }

  lemma DetachKeepsCap(d: Dom, c: Id)
    requires Capped(d) && c in d.nodes && c != d.root && !IsHosted(d, c)
    ensures Sound(Parents(d.nodes)) && Capped(Detached(d, c))
  {
    hide *;
    CappedParts(d);
    ForestIsSound(d);
    DetachUps(d, c);
    DetachKeepsForest(d, c);
    ParentIsLive(d, c);
    DetachFrame(d, c);
    var r := Detached(d, c);
    HostsStayAfterMove(d, r, c, NONE);
    UpsKeys(d);
    CutKeepsSound(Ups(d), c);
    SoundIsGrounded(Ups(r));
    forall x | x in r.nodes ensures DepthOf(Ups(r), x) < MAX_DOM_DEPTH {
      FrameKeepsHosted(d, r, x);
      CutLowersDepth(Ups(d), c, x);
      BoundAt(d, x);
    }
    MakeCapped(r);
  }

  /** A detach of a hosted fragment, which has no parent, changes nothing. */
  lemma HostedHasNoParent(d: Dom, c: Id)
    requires Composed(d) && c in d.nodes && IsHosted(d, c)
    ensures d.nodes[c].parent == NONE
  {
  }

  lemma RemoveKeepsCap(d: Dom, c: Id)
    requires Capped(d)
    ensures Sound(Parents(d.nodes)) && Capped(ChildRemoved(d, c).0)
  {
    ForestIsSound(d);
    if c in d.nodes && c != d.root {
      if IsHosted(d, c) {
        HostedHasNoParent(d, c);
        BumpKeepsCap(d);
      } else {
        DetachKeepsCap(d, c);
        BumpKeepsCap(Detached(d, c));
      }
    }
  }

  lemma BumpKeepsCap(d: Dom)
    requires Capped(d)
    ensures Capped(Bumped(d))
  {
    hide *;
    CappedParts(d);
    BumpKeepsForest(d);
    SameButVersion(d);
    forall x | x in d.nodes ensures DepthOf(Ups(d), x) < MAX_DOM_DEPTH {
      BoundAt(d, x);
    }
    MakeCapped(Bumped(d));
  }

  lemma SameButVersion(d: Dom)
    requires Composed(d)
    ensures Ups(Bumped(d)) == Ups(d) && Bumped(d).nodes == d.nodes && Bumped(d).document == d.document
    ensures d.document in d.nodes && d.nodes[d.document].kind == DocumentKind
    ensures ShadowsAgree(Bumped(d)) && TemplatesAgree(Bumped(d))
  {
    HostedIsNotRoot(d);
    HostsStayAgreed(d, Bumped(d));
    UpsIgnoreVersion(d);
  }

  lemma UpsIgnoreVersion(d: Dom)
    ensures Ups(Bumped(d)) == Ups(d)
  {
  }

  lemma RootRemovedFrame(d: Dom)
    requires Forest(d) && d.root != d.document
    ensures var r := RootRemoved(d);
            && SameFrame(d, r) && r.root == d.document
            && (forall x :: x in d.nodes ==> r.nodes[x].parent == d.nodes[x].parent)
  {
    hide Grounded, Closed, ListAgrees, PointerAgrees, RemoveAll, IndexOf, NoRepeats, FreshNext;
    RootRemovedPointers(d);
    var r := RootRemoved(d);
    forall x | x in d.nodes ensures r.nodes[x].parent == d.nodes[x].parent {
      assert Parents(r.nodes)[x] == Parents(d.nodes)[x];
    }
  }

  lemma UnrootedUp(d: Dom, r: Dom, x: Id)
    requires SameFrame(d, r) && x in d.nodes && r.nodes[x].parent == d.nodes[x].parent
    requires d.root != d.document && r.root == d.document && d.document in d.nodes
    requires d.root in d.nodes && d.nodes[d.root].parent == NONE && !IsHosted(d, d.root)
    ensures Up(r, x) == if x == d.root then NONE else Up(d, x)
  {
    NoContents(d, d.root);
  }

  lemma SameFrameParts(d: Dom, r: Dom)
    requires SameFrame(d, r)
    ensures r.nodes.Keys == d.nodes.Keys
  {
  }

  lemma RootIsTop(d: Dom)
    requires Forest(d)
    ensures d.document in d.nodes && d.root in d.nodes && d.nodes[d.root].parent == NONE
  {
  }

  lemma RootRemovedUps(d: Dom)
    requires Forest(d) && d.root != d.document && !IsHosted(d, d.root)
    ensures Ups(RootRemoved(d)) == Ups(d)[d.root := NONE]
    ensures var r := RootRemoved(d);
            && SameFrame(d, r) && r.root == d.document
            && (forall x :: x in d.nodes ==> r.nodes[x].parent == d.nodes[x].parent)
  {
    hide *;
    RootRemovedFrame(d);
    RootIsTop(d);
    SameFrameParts(d, RootRemoved(d));
    var r := RootRemoved(d);
    forall x | x in d.nodes ensures Up(r, x) == if x == d.root then NONE else Up(d, x) {
      UnrootedUp(d, r, x);
    }
  }

  lemma RootRemovedKeepsCap(d: Dom)
    requires Capped(d)
    ensures Capped(RootRemoved(d))
  {
    if d.root != d.document {
      RootRemovedLive(d);
    }
  }

  lemma RootRemovedLive(d: Dom)
    requires Capped(d) && d.root != d.document
    ensures Capped(RootRemoved(d))
  {
    hide *;
    CappedParts(d);
    RootIsNotHosted(d);
    RootIsLive(d);
    RootRemovedUps(d);
    RootRemovedKeepsForest(d);
    var r := RootRemoved(d);
    RootStaysOut(d, r);
    UpsKeys(d);
    CutKeepsSound(Ups(d), d.root);
    SoundIsGrounded(Ups(r));
    forall x | x in r.nodes ensures DepthOf(Ups(r), x) < MAX_DOM_DEPTH {
      FrameKeepsHosted(d, r, x);
      CutLowersDepth(Ups(d), d.root, x);
      BoundAt(d, x);
    }
    MakeCapped(r);
  }

  lemma RootIsLive(d: Dom)
    requires Forest(d)
    ensures d.root in d.nodes && d.document in d.nodes && d.root != NONE
    ensures d.nodes[d.document].parent == NONE
  {
  }

  lemma RootIsNotHosted(d: Dom)
    requires Composed(d)
    ensures !IsHosted(d, d.root) && !IsHosted(d, d.document)
  {
    hide Forest, Sound, Up;
    assert ShadowsAgree(d) && TemplatesAgree(d);
  }

  /** The Document becomes the root again: no fragment. */
  lemma RootStaysOut(d: Dom, r: Dom)
    requires Composed(d)
    requires SameFrame(d, r) && r.root == d.document
    requires forall x :: x in d.nodes ==> r.nodes[x].parent == d.nodes[x].parent
    requires Forest(r)
    ensures r.nodes[r.document].kind == DocumentKind && ShadowsAgree(r) && TemplatesAgree(r)
  {
    RootIsNotHosted(d);
    HostsStayAgreed(d, r);
  }
}
