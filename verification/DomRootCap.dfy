/**
  The composed depth cap, continued: new nodes, shadow roots, and exactly when
  `set_document_element`, which asks nothing about depth, keeps the cap.
 */
module DomRootCap {
  import opened Chains
  import opened DomStore
  import opened DomForest
  import opened DomDepth
  import opened DomCap

  // --- New nodes --------------------------------------------------------------------

  /** A handle nothing refers to yet. */
  predicate IsUnknown(d: Dom, n: Id) {
    && n != NONE && n !in d.nodes && n !in d.shadowHosts && n !in d.shadowRoots
    && TemplateOf(d, n) == NONE && n != d.root && n != d.document
  }

  lemma NextIsUnknown(d: Dom)
    requires Composed(d)
    ensures IsUnknown(d, d.next) && d.next !in Ups(d) && d.next != NONE
    ensures !IsContents(d, d.next)
  {
    assert !IsContents(d, d.next);
    NoContents(d, d.next);
  }

  lemma CreatedUps(d: Dom, node: Node)
    requires IsUnknown(d, d.next)
    ensures Ups(Created(d, node)) == Ups(d)[d.next := NONE]
  {
    var r := Created(d, node);
    assert r.nodes[d.next].parent == NONE;
    assert TemplateOf(r, d.next) == NONE;
    forall x | x in d.nodes ensures Up(r, x) == Up(d, x) {
      assert r.nodes[x] == d.nodes[x];
    }
  }

  lemma CreatedHosts(d: Dom, node: Node)
    requires IsUnknown(d, d.next) && !IsContents(d, d.next) && ShadowsAgree(d) && TemplatesAgree(d)
    ensures ShadowsAgree(Created(d, node)) && TemplatesAgree(Created(d, node))
  {
    var r := Created(d, node);
    assert forall x :: x in d.nodes ==> x in r.nodes && r.nodes[x] == d.nodes[x];
    hide Created;
    CreatedSame(d, node);
    forall x | x in d.shadowHosts ensures IsHostable(r, x) {
      assert IsHostable(d, x);
    }
    forall i | 0 <= i < |d.templates| ensures IsHostable(r, d.templates[i].1) {
      assert IsHostable(d, d.templates[i].1);
    }
  }

  lemma CreatedSame(d: Dom, node: Node)
    ensures var r := Created(d, node);
            && r.root == d.root && r.document == d.document && r.templates == d.templates
            && r.shadowRoots == d.shadowRoots && r.shadowHosts == d.shadowHosts
            && (d.next !in d.nodes ==> forall x :: x in d.nodes ==> x in r.nodes && r.nodes[x] == d.nodes[x])
  {
  }

  lemma CreatedDocument(d: Dom, node: Node)
    requires Composed(d)
    ensures var r := Created(d, node); r.document in r.nodes && r.nodes[r.document].kind == DocumentKind
    ensures ShadowsAgree(d) && TemplatesAgree(d)
  {
    RootIsLive(d);
    NextIsUnknown(d);
  }

  lemma CreatedKeepsCap(d: Dom, node: Node)
    requires Capped(d)
    ensures Capped(Created(d, node))
  {
    hide *;
    CappedParts(d);
    NextIsUnknown(d);
    CreatedUps(d, node);
    CreatedDocument(d, node);
    CreatedHosts(d, node);
    CreatedKeepsForest(d, node);
    UpsKeys(d);
    AddKeepsSound(Ups(d), d.next);
    var r := Created(d, node);
    SoundIsGrounded(Ups(r));
    CreatedKeys(d, node);
    forall x | x in r.nodes ensures DepthOf(Ups(r), x) < MAX_DOM_DEPTH {
      if x == d.next {
        DepthAlone(Ups(r), x);
        assert 0 < MAX_DOM_DEPTH by { CapIsPositive(); }
      } else {
        DepthFromChain(Ups(d), Ups(r), x);
        BoundAt(d, x);
      }
    }
    MakeCapped(r);
  }

  lemma CreatedKeys(d: Dom, node: Node)
    ensures forall x :: x in Created(d, node).nodes <==> x in d.nodes || x == d.next
    ensures Created(d, node).document == d.document
  {
  }

  lemma CapIsPositive()
    ensures MAX_DOM_DEPTH > 0
  {
  }

  lemma DepthAlone(up: Links, x: Id)
    requires Grounded(up) && ChainOf(up, x) == [x]
    ensures DepthOf(up, x) == 0
  {
  }

  // --- Shadow roots ----------------------------------------------------------------

  /** The state once `host` has its new shadow root. */
  function WithShadow(d: Dom, host: Id): Dom {
    Created(d, Node(FragmentKind, [], false, NONE, [], [], []))
      .(shadowRoots := d.shadowRoots[host := d.next], shadowHosts := d.shadowHosts[d.next := host])
  }

  lemma ShadowUps(d: Dom, host: Id)
    requires IsUnknown(d, d.next) && host in d.nodes
    ensures Ups(WithShadow(d, host)) == Ups(d)[d.next := host]
  {
    var r := WithShadow(d, host);
    assert Up(r, d.next) == host;
    forall x | x in d.nodes ensures Up(r, x) == Up(d, x) {
      assert r.nodes[x] == d.nodes[x];
    }
  }

  lemma ShadowHosts(d: Dom, host: Id)
    requires IsUnknown(d, d.next) && !IsContents(d, d.next) && ShadowsAgree(d) && TemplatesAgree(d)
    requires host in d.nodes && d.nodes[host].kind == ElementKind && host !in d.shadowRoots
    ensures ShadowsAgree(WithShadow(d, host)) && TemplatesAgree(WithShadow(d, host))
  {
    hide WithShadow, IsContents, TemplatesAgree, ShadowsAgree, TemplateOf;
    var r := WithShadow(d, host);
    WithShadowSame(d, host);
    ShadowShadows(d, r, host);
    ShadowTemplates(d, r, host);
  }

  lemma ShadowShadows(d: Dom, r: Dom, host: Id)
    requires ShadowsAgree(d) && host in d.nodes && d.nodes[host].kind == ElementKind && host !in d.shadowRoots
    requires d.next !in d.nodes && d.next !in d.shadowHosts
    requires r.root == d.root && r.shadowRoots == d.shadowRoots[host := d.next]
    requires r.shadowHosts == d.shadowHosts[d.next := host]
    requires d.next in r.nodes && r.nodes[d.next] == Node(FragmentKind, [], false, NONE, [], [], []) && d.next != d.root
    requires forall x :: x in d.nodes ==> x in r.nodes && r.nodes[x] == d.nodes[x]
    ensures ShadowsAgree(r)
  {
    assert IsHostable(r, d.next);
    forall x | x in d.shadowHosts ensures IsHostable(r, x) {
      assert IsHostable(d, x);
    }
  }

  lemma ShadowTemplates(d: Dom, r: Dom, host: Id)
    requires !IsContents(d, d.next) && TemplatesAgree(d)
    requires r.root == d.root && r.templates == d.templates && r.shadowHosts == d.shadowHosts[d.next := host]
    requires forall x :: x in d.nodes ==> x in r.nodes && r.nodes[x] == d.nodes[x]
    ensures TemplatesAgree(r)
  {
    forall i | 0 <= i < |d.templates|
      ensures IsHostable(r, d.templates[i].1) && d.templates[i].1 !in r.shadowHosts
    {
      assert IsHostable(d, d.templates[i].1);
      assert IsContents(d, d.templates[i].1);
    }
  }

  lemma WithShadowSame(d: Dom, host: Id)
    ensures var r := WithShadow(d, host);
            && r.root == d.root && r.document == d.document && r.templates == d.templates
            && r.shadowRoots == d.shadowRoots[host := d.next] && r.shadowHosts == d.shadowHosts[d.next := host]
            && d.next in r.nodes && r.nodes[d.next] == Node(FragmentKind, [], false, NONE, [], [], [])
            && (d.next !in d.nodes ==> forall x :: x in d.nodes ==> x in r.nodes && r.nodes[x] == d.nodes[x])
  {
  }

  lemma ShadowHostIsNew(d: Dom, host: Id)
    requires Composed(d) && !(host in d.shadowRoots && d.shadowRoots[host] != NONE)
    ensures host !in d.shadowRoots
  {
    hide Closed, Grounded;
    assert host in d.shadowRoots ==> d.shadowRoots[host] in d.shadowHosts && IsHostable(d, d.shadowRoots[host]);
  }

  lemma HangNew(up: Links, n: Id, host: Id, x: Id)
    requires Sound(up) && n !in up && n != NONE && host in up
    ensures Sound(up[n := host])
    ensures x in up ==> DepthOf(up[n := host], x) == DepthOf(up, x)
    ensures DepthOf(up[n := host], n) == 1 + DepthOf(up, host)
  {
    hide IsChain, ChainOf;
    var more := up[n := NONE];
    AddKeepsSound(up, n);
    assert more[n := host] == up[n := host];
    TopInMap(up, host);
    Hang(more, n, host, n);
    if x in up {
      TopInMap(up, x);
      Hang(more, n, host, x);
    }
  }

  lemma TopInMap(up: Links, x: Id)
    requires Sound(up) && x in up
    ensures TopOf(up, x) in up
  {
    var path := ChainOf(up, x);
    ChainInMap(up, path, |path| - 1);
  }

  lemma WithShadowKeepsCap(d: Dom, host: Id)
    requires Capped(d) && host in d.nodes && d.nodes[host].kind == ElementKind && host !in d.shadowRoots
    requires CappedDepth(d, host, MAX_DOM_DEPTH) + 1 < MAX_DOM_DEPTH
    ensures Capped(WithShadow(d, host))
  {
    hide *;
    CappedParts(d);
    NextIsUnknown(d);
    ShadowUps(d, host);
    CreatedDocument(d, Node(FragmentKind, [], false, NONE, [], [], []));
    ShadowHosts(d, host);
    UpsKeys(d);
    var r := WithShadow(d, host);
    ShadowForest(d, host);
    ShadowDocument(d, host);
    DepthIsCapped(d, host, MAX_DOM_DEPTH);
    HangNew(Ups(d), d.next, host, host);
    SoundIsGrounded(Ups(r));
    forall x | x in r.nodes ensures DepthOf(Ups(r), x) < MAX_DOM_DEPTH {
      HangNew(Ups(d), d.next, host, x);
      if x != d.next {
        BoundAt(d, x);
      }
    }
    MakeCapped(r);
  }

  lemma ShadowDocument(d: Dom, host: Id)
    requires Composed(d)
    ensures var r := WithShadow(d, host); r.document in r.nodes && r.nodes[r.document].kind == DocumentKind
  {
    CreatedDocument(d, Node(FragmentKind, [], false, NONE, [], [], []));
  }

  lemma ShadowForest(d: Dom, host: Id)
    requires Forest(d)
    ensures Forest(WithShadow(d, host))
    ensures forall x :: x in WithShadow(d, host).nodes <==> x in d.nodes || x == d.next
    ensures WithShadow(d, host).document == d.document
  {
    var fragment := Node(FragmentKind, [], false, NONE, [], [], []);
    CreatedKeepsForest(d, fragment);
    hide Forest;
    SameTreeSameForest(Created(d, fragment), d.shadowRoots[host := d.next], d.shadowHosts[d.next := host]);
  }

  /** `attach_shadow` keeps the cap: it asks. */
  lemma ShadowKeepsCap(d: Dom, host: Id)
    requires Capped(d)
    ensures Capped(ShadowAttached(d, host).0)
  {
    hide Capped, Composed, CappedDepth, Created, WithShadow, Grounded, Closed, DepthBound, ForestOf;
    if ShadowAttached(d, host).1 == Done {
      CappedParts(d);
      ShadowHostIsNew(d, host);
      WithShadowKeepsCap(d, host);
      ShadowAttachedIs(d, host);
    }
  }

  lemma ShadowAttachedIs(d: Dom, host: Id)
    requires ShadowAttached(d, host).1 == Done
    ensures ShadowAttached(d, host).0 == WithShadow(d, host)
  {
  }

  // --- The document element ----------------------------------------------------------

  /** A new document element that is neither the old one, nor the Document, nor a hosted fragment. */
  predicate IsNewRoot(d: Dom, id: Id) {
    id in d.nodes && id != d.root && id != d.document && !IsHosted(d, id)
  }

  /** The composed pointers once `id` is the document element. */
  function RootLinks(d: Dom, id: Id): Links {
    if d.root == d.document then Ups(d)[id := d.document] else Ups(d)[d.root := NONE][id := d.document]
  }

  lemma RootSetFrame(d: Dom, id: Id, before: Id)
    requires Forest(d) && id in d.nodes && id != d.root && id != d.document
    ensures Sound(Parents(d.nodes))
    ensures var r := RootSet(d, id, before);
            SameFrame(d, r) && r.root == id && Parents(r.nodes) == Parents(d.nodes)[id := NONE]
  {
    hide *;
    ForestIsSound(d);
    RootIsLive(d);
    ParentIsLive(d, id);
    DetachFrame(d, id);
    DetachIgnoresRoot(d, id, id);
    RootSetIs(d, id, before);
    var cut := Detached(d, id).(root := id);
    FrameIgnoresRoot(d, Detached(d, id), id);
    RootPlacedFrame(cut, d.root, id, before);
    FrameIsTransitive(d, cut, RootSet(d, id, before));
  }

  lemma RootSetIs(d: Dom, id: Id, before: Id)
    requires Sound(Parents(d.nodes)) && d.document in d.nodes && id in d.nodes && id != d.root && id != d.document
    requires Detached(d.(root := id), id) == Detached(d, id).(root := id)
    requires d.document in Detached(d, id).nodes
    ensures RootSet(d, id, before) == Bumped(RootPlaced(Detached(d, id).(root := id), d.root, id, before))
  {
  }

  lemma FrameIgnoresRoot(d: Dom, r: Dom, root: Id)
    requires SameFrame(d, r)
    ensures SameFrame(d, r.(root := root)) && r.(root := root).document == d.document
    ensures d.document in d.nodes ==> d.document in r.nodes
  {
  }

  lemma RootPlacedFrame(d: Dom, previous: Id, id: Id, before: Id)
    requires d.document in d.nodes
    ensures var r := Bumped(RootPlaced(d, previous, id, before));
            SameFrame(d, r) && r.root == d.root && Parents(r.nodes) == Parents(d.nodes)
  {
    RootPlacedPointers(d, previous, id, before);
  }

  lemma RootSetUps(d: Dom, r: Dom, id: Id)
    requires id in d.nodes && id != d.root && id != d.document && d.root in d.nodes && d.document in d.nodes
    requires d.nodes[d.root].parent == NONE && !IsHosted(d, d.root)
    requires SameFrame(d, r) && r.root == id
    requires forall x :: x in d.nodes && x != id ==> x in r.nodes && r.nodes[x].parent == d.nodes[x].parent
    ensures Ups(r) == RootLinks(d, id)
  {
    NoContents(d, d.root);
    hide IsContents, FirstOf;
    forall x | x in d.nodes
      ensures Up(r, x) == if x == id then d.document else if x == d.root && x != d.document then NONE else Up(d, x)
    {
    }
  }

  lemma RootHasNoParent(d: Dom)
    requires Forest(d)
    ensures d.nodes[d.root].parent == NONE
  {
  }

  lemma RootSetHosts(d: Dom, r: Dom, id: Id)
    requires Composed(d) && IsNewRoot(d, id)
    requires SameFrame(d, r) && r.root == id && Parents(r.nodes) == Parents(d.nodes)[id := NONE]
    ensures r.document in r.nodes && r.nodes[r.document].kind == DocumentKind
    ensures ShadowsAgree(r) && TemplatesAgree(r)
  {
    RootIsLive(d);
    ParentOfOthers(d, r, id, NONE);
    HostsStayAgreed(d, r);
  }

  lemma DocumentIsTop(d: Dom)
    requires Composed(d)
    ensures Next(Ups(d), d.document) == NONE
    ensures ChainOf(Ups(d), d.document) == [d.document]
  {
    RootIsLive(d);
    assert Up(d, d.document) == NONE;
    ChainIs(Ups(d), d.document, [d.document]);
  }

  /** No chain from below `id` passes through the old root unless `id` hangs below it. */
  lemma RootStepsToDocument(d: Dom)
    requires Composed(d) && d.root != d.document
    ensures Next(Ups(d), d.root) == d.document
    ensures ChainOf(Ups(d), d.root) == [d.root, d.document]
  {
    hide Composed, Closed, Grounded, IsChain, ChainOf;
    ComposedIsSound(d);
    RootIsLive(d);
    DocumentIsTop(d);
    ParentChain(Ups(d), d.root);
    assert [d.root] + [d.document] == [d.root, d.document];
  }

  /** Below the new element everything sinks or rises with it; elsewhere nothing gets deeper. */
  lemma RootDepths(up: Links, previous: Id, document: Id, id: Id, x: Id)
    requires Sound(up) && id in up && document in up && previous in up && x in up
    requires id != document && id != previous && document != previous
    requires ChainOf(up, document) == [document] && Next(up, document) == NONE
    requires ChainOf(up, previous) == [previous, document]
    ensures Sound(up[previous := NONE][id := document])
    ensures Under(up, x, id) ==>
              DepthOf(up[previous := NONE][id := document], x) == DepthOf(up, x) - DepthOf(up, id) + 1
    ensures !Under(up, x, id) ==> DepthOf(up[previous := NONE][id := document], x) <= DepthOf(up, x)
  {
    hide IsChainFrom, Closed, Grounded;
    var one := up[id := NONE];
    SoundIsGrounded(up);
    Cut(up, id, x);
    Cut(up, id, previous);
    Cut(up, id, document);
    TopAfterCut(up, id, x);
    assert ChainOf(one, previous) == [previous, document] && ChainOf(one, document) == [document];
    RootDepthsAfterCut(one, previous, document, id, x);
    assert one[previous := NONE][id := document] == up[previous := NONE][id := document];
  }

  lemma RootDepthsAfterCut(one: Links, previous: Id, document: Id, id: Id, x: Id)
    requires Sound(one) && id in one && document in one && previous in one
    requires id != document && id != previous && document != previous
    requires ChainOf(one, document) == [document] && Next(one, id) == NONE
    requires ChainOf(one, previous) == [previous, document]
    ensures Sound(one[previous := NONE][id := document])
    ensures TopOf(one, x) == id ==> DepthOf(one[previous := NONE][id := document], x) == DepthOf(one, x) + 1
    ensures TopOf(one, x) != id ==> DepthOf(one[previous := NONE][id := document], x) <= DepthOf(one, x)
  {
    hide IsChainFrom, Closed, Grounded;
    SoundIsGrounded(one);
    var two := one[previous := NONE];
    Cut(one, previous, x);
    Cut(one, previous, document);
    TopAfterCut(one, previous, x);
    SoundIsGrounded(two);
    assert TopOf(two, document) == document;
    assert Next(two, id) == NONE;
    if Under(one, x, previous) {
      var i := UnderSplits(one, x, previous);
      assert TopOf(one, x) == document;
    }
    Hang(two, id, document, x);
  }

  lemma NewRootUps(d: Dom, id: Id, before: Id)
    requires Composed(d) && IsNewRoot(d, id)
    ensures Sound(Parents(d.nodes))
    ensures var r := RootSet(d, id, before);
            && Ups(r) == RootLinks(d, id) && Forest(r)
            && r.document in r.nodes && r.nodes[r.document].kind == DocumentKind
            && ShadowsAgree(r) && TemplatesAgree(r)
            && forall x :: x in r.nodes <==> x in d.nodes
  {
    hide *;
    ComposedIsSound(d);
    NewRootParts(d, id);
    RootIsLive(d);
    RootSetFrame(d, id, before);
    var r := RootSet(d, id, before);
    RootSetKeepsForestExactly(d, id, before);
    RootSetHosts(d, r, id);
    RootHasNoParent(d);
    RootIsNotHosted(d);
    ParentOfOthers(d, r, id, NONE);
    RootSetUps(d, r, id);
    forall x ensures x in r.nodes <==> x in d.nodes {
      FrameKeepsHosted(d, r, x);
    }
  }

  lemma NewRootParts(d: Dom, id: Id)
    requires IsNewRoot(d, id)
    ensures id in d.nodes && id != d.root && id != d.document && !IsHosted(d, id) && MayBeRoot(d, id)
  {
  }

  /** Every depth after `set_document_element`: one below the Document for the new element's tree. */
  lemma NewRootDepths(d: Dom, id: Id, x: Id)
    requires Composed(d) && IsNewRoot(d, id) && x in d.nodes
    ensures Sound(RootLinks(d, id))
    ensures Under(Ups(d), x, id) ==> DepthOf(RootLinks(d, id), x) == DepthOf(Ups(d), x) - DepthOf(Ups(d), id) + 1
    ensures !Under(Ups(d), x, id) ==> DepthOf(RootLinks(d, id), x) <= DepthOf(Ups(d), x)
  {
    hide Composed, Up, Closed, Grounded;
    ComposedIsSound(d);
    DocumentIsTop(d);
    RootIsLive(d);
    if d.root == d.document {
      Move(Ups(d), id, d.document, x) by {
        assert !Under(Ups(d), d.document, id);
      }
      SoundIsGrounded(RootLinks(d, id));
    } else {
      RootStepsToDocument(d);
      RootDepths(Ups(d), d.root, d.document, id, x);
    }
  }

  /** `set_document_element` keeps the cap exactly when the element's own tree has room above it. */
  lemma RootSetKeepsCapExactly(d: Dom, id: Id, before: Id)
    requires Capped(d) && IsNewRoot(d, id)
    ensures Sound(Parents(d.nodes))
    ensures Capped(RootSet(d, id, before)) <==> 1 + CappedHeight(d, id, MAX_DOM_DEPTH) < MAX_DOM_DEPTH
  {
    hide *;
    CappedParts(d);
    RootIsLive(d);
    NewRootParts(d, id);
    NewRootUps(d, id, before);
    var r := RootSet(d, id, before);
    var y := HeightReached(d, id, MAX_DOM_DEPTH);
    NewRootDepths(d, id, y);
    SoundIsGrounded(Ups(r));
    if Capped(r) {
      CappedParts(r);
      BoundAt(r, y);
    }
    if 1 + CappedHeight(d, id, MAX_DOM_DEPTH) < MAX_DOM_DEPTH {
      forall x | x in r.nodes ensures DepthOf(Ups(r), x) < MAX_DOM_DEPTH {
        NewRootDepths(d, id, x);
        BoundAt(d, x);
        if Under(Ups(d), x, id) {
          HeightCovers(d, id, x, MAX_DOM_DEPTH);
        }
      }
      MakeCapped(r);
    }
  }

  // --- The cap can be broken ---------------------------------------------------------

  /** Element `i` of a chain of `n` elements, numbered from 2, the first of them on top. */
  function ChainNode(i: nat, n: nat): Node
    requires 2 <= i <= n + 1
  {
    Node(ElementKind, [], false, if i == 2 then NONE else i - 1, if i == n + 1 then [] else [i + 1], [], [])
  }

  /** An empty document, and beside it a detached chain of `n` elements. */
  function ChainDom(n: nat): Dom {
    var top := Node(DocumentKind, [], false, NONE, [], [], []);
    var nodes := map i | 1 <= i <= n + 1 :: if i == 1 then top else ChainNode(i, n);
    Dom(nodes, n + 2, 1, 1, map[], map[], [], [], [], false, 1)
  }

  lemma {:induction false} ChainDomChain(n: nat, i: nat) returns (path: seq<Id>)
    requires 2 <= i <= n + 1
    ensures IsChainFrom(Parents(ChainDom(n).nodes), i, path)
    ensures |path| == i - 1 && path[|path| - 1] == 2
  {
    if i == 2 {
      path := [2];
    } else {
      var above := ChainDomChain(n, i - 1);
      path := [i] + above;
      assert Next(Parents(ChainDom(n).nodes), i) == i - 1;
    }
  }

  lemma ChainDomGrounded(n: nat)
    ensures Sound(Parents(ChainDom(n).nodes))
  {
    var up := Parents(ChainDom(n).nodes);
    forall x | x in up ensures exists path :: IsChainFrom(up, x, path) {
      if x == 1 {
        assert IsChainFrom(up, 1, [1]);
      } else {
        var path := ChainDomChain(n, x);
      }
    }
  }

  lemma ChainDomNode(n: nat, x: Id)
    requires x in ChainDom(n).nodes
    ensures var d := ChainDom(n);
            && ListAgrees(d.nodes, d.document, d.root, x) && PointerAgrees(d.nodes, x)
            && Up(d, x) == d.nodes[x].parent
  {
  }

  lemma ChainDomRoot(n: nat)
    ensures var d := ChainDom(n); RootAgrees(d.nodes, d.document, d.root) && FreshNext(d) && NONE !in d.nodes
  {
  }

  lemma ChainDomIsForest(n: nat)
    ensures Forest(ChainDom(n))
    ensures Ups(ChainDom(n)) == Parents(ChainDom(n).nodes)
  {
    hide Closed, Grounded, ChainDom, ListAgrees, PointerAgrees, RootAgrees, FreshNext;
    var d := ChainDom(n);
    ChainDomGrounded(n);
    ChainDomRoot(n);
    forall x | x in d.nodes
      ensures ListAgrees(d.nodes, d.document, d.root, x) && PointerAgrees(d.nodes, x)
      ensures Up(d, x) == d.nodes[x].parent
    {
      ChainDomNode(n, x);
    }
  }

  lemma ChainDomAlone(n: nat)
    ensures IsChainFrom(Parents(ChainDom(n).nodes), 1, [1])
  {
  }

  lemma ChainDomDepth(n: nat, x: Id)
    requires 1 <= x <= n + 1
    ensures Sound(Ups(ChainDom(n))) && x in ChainDom(n).nodes
    ensures DepthOf(Ups(ChainDom(n)), x) == if x == 1 then 0 else x - 2
    ensures x != 1 ==> Under(Ups(ChainDom(n)), x, 2)
  {
    hide Closed, Grounded, Forest, Ups;
    ChainDomIsForest(n);
    ForestIsSound(ChainDom(n));
    var up := Ups(ChainDom(n));
    if x == 1 {
      ChainDomAlone(n);
      ChainIs(up, 1, [1]);
    } else {
      var path := ChainDomChain(n, x);
      ChainIs(up, x, path);
    }
  }

  lemma ChainDomParts(n: nat)
    ensures var d := ChainDom(n);
            && d.document in d.nodes && d.nodes[d.document].kind == DocumentKind
            && ShadowsAgree(d) && TemplatesAgree(d)
            && (forall x :: x in d.nodes <==> 1 <= x <= n + 1)
            && (n >= 1 ==> IsNewRoot(d, 2))
  {
  }

  lemma ChainDomIsCapped(n: nat)
    requires n <= 512
    ensures Capped(ChainDom(n))
  {
    hide *;
    CapIs512();
    ChainDomIsForest(n);
    ChainDomParts(n);
    var d := ChainDom(n);
    ChainDomDepth(n, 1);
    SoundIsGrounded(Ups(d));
    forall x | x in d.nodes ensures DepthOf(Ups(d), x) < MAX_DOM_DEPTH {
      ChainDomDepth(n, x);
    }
    MakeCapped(d);
  }

  lemma MakeHeight(d: Dom, x: Id, y: Id, h: nat)
    requires Sound(Ups(d)) && y in d.nodes && Under(Ups(d), y, x)
    requires DepthOf(Ups(d), y) == DepthOf(Ups(d), x) + h
    requires forall z :: z in d.nodes && Under(Ups(d), z, x) ==> DepthOf(Ups(d), z) <= DepthOf(Ups(d), x) + h
    ensures IsHeight(d, x, h)
  {
  }

  lemma ChainDomHeight(n: nat)
    requires n >= 1
    ensures Sound(Ups(ChainDom(n))) && IsHeight(ChainDom(n), 2, n - 1)
  {
    hide *;
    ChainDomParts(n);
    var d := ChainDom(n);
    ChainDomDepth(n, 2);
    ChainDomDepth(n, n + 1);
    SoundIsGrounded(Ups(d));
    forall z | z in d.nodes && Under(Ups(d), z, 2) ensures DepthOf(Ups(d), z) <= DepthOf(Ups(d), 2) + (n - 1) {
      ChainDomDepth(n, z);
    }
    MakeHeight(d, 2, n + 1, n - 1);
  }

  /**
    The promise that nothing reaches the cap does fail: an empty document and a detached chain of
    MAX_DOM_DEPTH elements keep it, and the document whose element is the top of that chain does not.
   */
  lemma RootSetBreaksCap()
    ensures var d := ChainDom(MAX_DOM_DEPTH);
            Capped(d) && Sound(Parents(d.nodes)) && Forest(RootSet(d, 2, NONE)) && !Capped(RootSet(d, 2, NONE))
  {
    hide *;
    CapIs512();
    var d := ChainDom(MAX_DOM_DEPTH);
    ChainDomIsCapped(MAX_DOM_DEPTH);
    ChainDomHeight(MAX_DOM_DEPTH);
    ChainDomParts(MAX_DOM_DEPTH);
    CappedParts(d);
    RootIsLive(d);
    HeightIsCapped(d, 2, MAX_DOM_DEPTH - 1, MAX_DOM_DEPTH);
    RootSetKeepsCapExactly(d, 2, NONE);
    NewRootUps(d, 2, NONE);
  }

  lemma CapIs512()
    ensures MAX_DOM_DEPTH == 512
  {
  }
}
