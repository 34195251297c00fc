/**
  The document stays a forest: over every operation, each child stands once, in its
  parent's list, the document element stands once under the Document, and no parent
  chain is a cycle. For each operation the condition under which this holds is exact.
 */
module DomForest {
  import opened Lists
  import opened Chains
  import opened DomStore

  /** A node without a parent that is not the document element is in no list. */
  lemma TopIsInNoList(d: Dom, c: Id, p: Id)
    requires Forest(d) && c in d.nodes && d.nodes[c].parent == NONE
    requires c != d.root || d.root == d.document
    requires p in d.nodes
    ensures c !in d.nodes[p].children
  {
    assert ListAgrees(d.nodes, d.document, d.root, p);
  }

  lemma CutList(nodes: Nodes, document: Id, root: Id, c: Id, q: Id)
    requires RootAgrees(nodes, document, root)
    requires c in nodes && nodes[c].parent in nodes && nodes[c].parent != NONE && q in nodes
    requires ListAgrees(nodes, document, root, q)
    ensures CutNode(nodes, c)[q].children ==
            if q == nodes[c].parent then RemoveAll(nodes[q].children, c) else nodes[q].children
    ensures ListAgrees(CutNode(nodes, c), document, root, q)
  {
    RemoveKeepsNoRepeats(nodes[q].children, c);
    var cut := CutNode(nodes, c);
    forall x | x in cut[q].children ensures BelongsTo(cut, document, root, q, x) {
      assert BelongsTo(nodes, document, root, q, x);
    }
  }

  lemma CutPointer(nodes: Nodes, c: Id, x: Id)
    requires c in nodes && nodes[c].parent in nodes && nodes[c].parent != NONE && x in nodes
    requires PointerAgrees(nodes, x)
    ensures PointerAgrees(CutNode(nodes, c), x)
  {
  }

  lemma CutRoot(nodes: Nodes, document: Id, root: Id, c: Id)
    requires RootAgrees(nodes, document, root)
    requires c in nodes && nodes[c].parent in nodes && nodes[c].parent != NONE
    ensures RootAgrees(CutNode(nodes, c), document, root)
  {
  }

  lemma CutForest(nodes: Nodes, document: Id, root: Id, c: Id)
    requires ForestOf(nodes, document, root)
    requires c in nodes && nodes[c].parent in nodes && nodes[c].parent != NONE
    requires Sound(Parents(CutNode(nodes, c)))
    ensures ForestOf(CutNode(nodes, c), document, root)
  {
    hide Grounded, ListAgrees, PointerAgrees, RootAgrees, CutNode;
    var cut := CutNode(nodes, c);
    CutKeys(nodes, c);
    CutRoot(nodes, document, root, c);
    forall q | q in cut ensures ListAgrees(cut, document, root, q) {
      CutList(nodes, document, root, c, q);
    }
    forall x | x in cut ensures PointerAgrees(cut, x) {
      CutPointer(nodes, c, x);
    }
  }

  lemma CutKeys(nodes: Nodes, c: Id)
    requires c in nodes && nodes[c].parent in nodes
    ensures CutNode(nodes, c).Keys == nodes.Keys && CutNode(nodes, c)[c].parent == NONE
  {
  }

  /** After the detach of a child the forest stands, and the child is a top. */
  lemma DetachKeepsForest(d: Dom, c: Id)
    requires Forest(d) && c in d.nodes
    ensures Sound(Parents(d.nodes))
    ensures Forest(Detached(d, c))
    ensures Detached(d, c).nodes.Keys == d.nodes.Keys
    ensures Detached(d, c).nodes[c].parent == NONE
  {
    ForestIsSound(d);
    if d.nodes[c].parent != NONE {
      assert PointerAgrees(d.nodes, c);
      hide Grounded, Closed, ForestOf, Together, CutNode, Parents;
      CutNodeParents(d.nodes, c);
      CutKeepsSound(Parents(d.nodes), c);
      CutForest(d.nodes, d.document, d.root, c);
      CutKeys(d.nodes, c);
    }
  }

  lemma HangList(nodes: Nodes, document: Id, root: Id, p: Id, c: Id, i: nat, q: Id)
    requires RootAgrees(nodes, document, root)
    requires p in nodes && c in nodes && q in nodes && p != c && i <= |nodes[p].children|
    requires nodes[c].parent == NONE && c != root && c !in nodes[q].children
    requires ListAgrees(nodes, document, root, q)
    ensures ListAgrees(HangNode(nodes, p, c, i), document, root, q)
  {
    var hung := HangNode(nodes, p, c, i);
    if q == p {
      InsertKeepsNoRepeats(nodes[p].children, i, c);
    }
    forall x | x in hung[q].children ensures BelongsTo(hung, document, root, q, x) {
      assert x != c ==> BelongsTo(nodes, document, root, q, x);
    }
  }

  lemma HangPointer(nodes: Nodes, p: Id, c: Id, i: nat, x: Id)
    requires p in nodes && c in nodes && x in nodes && p != c && i <= |nodes[p].children|
    requires NoRepeats(nodes[p].children) && c !in nodes[p].children
    requires PointerAgrees(nodes, x)
    ensures PointerAgrees(HangNode(nodes, p, c, i), x)
  {
    InsertKeepsNoRepeats(nodes[p].children, i, c);
  }

  lemma HangRoot(nodes: Nodes, document: Id, root: Id, p: Id, c: Id, i: nat)
    requires RootAgrees(nodes, document, root)
    requires p in nodes && c in nodes && p != c && i <= |nodes[p].children|
    requires NoRepeats(nodes[p].children) && c !in nodes[p].children
    requires c != root && c != document
    ensures RootAgrees(HangNode(nodes, p, c, i), document, root)
  {
    InsertKeepsNoRepeats(nodes[p].children, i, c);
  }

  lemma ListIsOnce(nodes: Nodes, document: Id, root: Id, p: Id)
    requires p in nodes && ListAgrees(nodes, document, root, p)
    ensures NoRepeats(nodes[p].children)
  {
  }

  lemma HangForest(nodes: Nodes, document: Id, root: Id, p: Id, c: Id, i: nat)
    requires ForestOf(nodes, document, root)
    requires p in nodes && c in nodes && p != c && i <= |nodes[p].children|
    requires nodes[c].parent == NONE && c != root && c != document
    requires forall q :: q in nodes ==> c !in nodes[q].children
    requires Sound(Parents(HangNode(nodes, p, c, i)))
    ensures ForestOf(HangNode(nodes, p, c, i), document, root)
  {
    hide Grounded, ListAgrees, PointerAgrees, RootAgrees, HangNode, NoRepeats, Parents;
    ListIsOnce(nodes, document, root, p);
    var hung := HangNode(nodes, p, c, i);
    HangKeys(nodes, p, c, i);
    HangRoot(nodes, document, root, p, c, i);
    forall q | q in hung ensures ListAgrees(hung, document, root, q) {
      HangList(nodes, document, root, p, c, i, q);
    }
    forall x | x in hung ensures PointerAgrees(hung, x) {
      HangPointer(nodes, p, c, i, x);
    }
  }

  /** A top node that is neither root nor Document, hung outside its own tree. */
  lemma PlaceKeepsForest(d: Dom, p: Id, c: Id, i: nat)
    requires Forest(d) && p in d.nodes && c in d.nodes && i <= |d.nodes[p].children|
    requires d.nodes[c].parent == NONE && c != d.root && c != d.document
    requires TopOf(Parents(d.nodes), p) != c
    ensures Forest(Placed(d, p, c, i))
  {
    ForestIsSound(d);
    assert p != c by {
      ChainIs(Parents(d.nodes), c, [c]);
    }
    hide Grounded, Closed, ForestOf, HangNode, Parents;
    HangNodeParents(d.nodes, p, c, i);
    HangKeepsSound(Parents(d.nodes), c, p);
    forall q | q in d.nodes ensures c !in d.nodes[q].children {
      TopIsInNoList(d, c, q);
    }
    HangForest(d.nodes, d.document, d.root, p, c, i);
    HangKeys(d.nodes, p, c, i);
  }

  lemma HangKeys(nodes: Nodes, p: Id, c: Id, i: nat)
    requires p in nodes && c in nodes && i <= |nodes[p].children|
    ensures HangNode(nodes, p, c, i).Keys == nodes.Keys
  {
  }

  /** What the insertions need of the detached state. */
  lemma DetachedForInsertion(d: Dom, p: Id, c: Id)
    requires Forest(d) && Refusal(d, p, c) == Done
    ensures var cut := Detached(d, c);
            && Forest(cut) && cut.nodes.Keys == d.nodes.Keys
            && cut.nodes[c].parent == NONE && TopOf(Parents(cut.nodes), p) != c
            && cut.root == d.root && cut.document == d.document
  {
    DetachKeepsForest(d, c);
    var up := Parents(d.nodes);
    if d.nodes[c].parent == NONE {
      ChainIs(up, c, [c]);
      assert TopOf(up, p) in ChainOf(up, p);
    } else {
      CutNodeParents(d.nodes, c);
      TopAfterCut(up, c, p);
    }
  }

  // --- Each operation, exactly --------------------------------------------------

  /** The root and the Document are moved by other operations only. */
  predicate MayMove(d: Dom, c: Id) { c != d.root && c != d.document }

  /** A node put under a parent points to it, so a root or a Document put there is one no more. */
  lemma PlacedRootIsNoForest(d: Dom, p: Id, c: Id, i: nat)
    requires p in d.nodes && c in d.nodes && i <= |d.nodes[p].children| && p != NONE
    requires !MayMove(d, c)
    ensures !Forest(Placed(d, p, c, i))
  {
    assert Placed(d, p, c, i).nodes[c].parent == p;
  }

  /** `append_child` keeps the forest exactly when it refuses, or moves neither root nor Document. */
  lemma AppendKeepsForestExactly(d: Dom, p: Id, c: Id)
    requires Forest(d)
    ensures var r := Appended(d, p, c); Forest(r.0) <==> r.1 != Done || MayMove(d, c)
  {
    if Refusal(d, p, c) == Done {
      DetachedForInsertion(d, p, c);
      var cut := Detached(d, c);
      if MayMove(d, c) {
        PlaceKeepsForest(cut, p, c, |cut.nodes[p].children|);
      } else {
        PlacedRootIsNoForest(cut, p, c, |cut.nodes[p].children|);
      }
    }
  }

  /** `insert_before`, likewise. */
  lemma InsertKeepsForestExactly(d: Dom, p: Id, c: Id, before: Id)
    requires Forest(d)
    ensures var r := InsertedBefore(d, p, c, before); Forest(r.0) <==> r.1 != Done || MayMove(d, c)
  {
    if Refusal(d, p, c) == Done {
      DetachedForInsertion(d, p, c);
      var cut := Detached(d, c);
      var i := IndexOf(cut.nodes[p].children, ReferenceFor(d.nodes[p].children, c, before));
      if MayMove(d, c) {
        PlaceKeepsForest(cut, p, c, i);
      } else {
        PlacedRootIsNoForest(cut, p, c, i);
      }
    }
  }

  /** `remove_child` always keeps it. */
  lemma RemoveKeepsForest(d: Dom, c: Id)
    requires Forest(d)
    ensures Forest(ChildRemoved(d, c).0)
  {
    if c in d.nodes && c != d.root {
      DetachKeepsForest(d, c);
    }
  }

  /** The new document element is a live node, and not the Document while there is another. */
  predicate MayBeRoot(d: Dom, id: Id) {
    id in d.nodes && (id == d.document ==> d.root == d.document)
  }

  lemma DocumentListIsOnce(d: Dom)
    requires Forest(d)
    ensures d.document in d.nodes && NoRepeats(d.nodes[d.document].children)
  {
  }

  lemma RootListIsOnce(d: Dom, previous: Id, id: Id, before: Id)
    requires Forest(d) && previous == d.root && id in d.nodes && id != d.document && id != d.root
    requires d.nodes[id].parent == NONE
    ensures var items := RootPlaced(d, previous, id, before).nodes[d.document].children;
            && NoRepeats(items)
            && (forall x :: x in items <==> x == id || (x in d.nodes[d.document].children && x != previous))
  {
    hide Grounded, Closed, PointerAgrees, RootAgrees, BelongsTo, FreshNext, RemoveAll;
    DocumentListIsOnce(d);
    var items := d.nodes[d.document].children;
    TopIsInNoList(d, id, d.document);
    RemoveAbsent(items, id);
    var slot := IndexOf(items, previous);
    if slot < |items| {
      var r := items[slot := id];
      forall x ensures x in r <==> x == id || (x in items && x != previous) {
        if x in items && x != previous {
          var k := IndexOf(items, x);
          assert r[k] == x;
        }
        assert r[slot] == id;
      }
    } else {
      InsertKeepsNoRepeats(items, IndexOf(items, before), id);
    }
  }

  lemma RootPlacedList(d: Dom, id: Id, before: Id, q: Id)
    requires Forest(d) && id in d.nodes && id != d.document && id != d.root && q in d.nodes
    requires d.nodes[id].parent == NONE
    ensures ListAgrees(RootPlaced(d, d.root, id, before).nodes, d.document, id, q)
  {
    var r := RootPlaced(d, d.root, id, before);
    RootListIsOnce(d, d.root, id, before);
    TopIsInNoList(d, id, q);
    assert ListAgrees(d.nodes, d.document, d.root, q);
    forall x | x in r.nodes[q].children ensures BelongsTo(r.nodes, d.document, id, q, x) {
      assert x != id ==> BelongsTo(d.nodes, d.document, d.root, q, x);
    }
  }

  lemma RootPlacedPointer(d: Dom, id: Id, before: Id, x: Id)
    requires Forest(d) && id in d.nodes && id != d.document && id != d.root && x in d.nodes
    requires d.nodes[id].parent == NONE
    ensures PointerAgrees(RootPlaced(d, d.root, id, before).nodes, x)
  {
    RootListIsOnce(d, d.root, id, before);
    assert PointerAgrees(d.nodes, x);
  }

  lemma RootPlacedKeepsForest(d: Dom, id: Id, before: Id)
    requires Forest(d) && id in d.nodes && id != d.document && id != d.root
    requires d.nodes[id].parent == NONE
    ensures Forest(RootPlaced(d, d.root, id, before).(root := id))
  {
    var r := RootPlaced(d, d.root, id, before).(root := id);
    RootPlacedIs(d, id, before);
    hide Grounded, ListAgrees, PointerAgrees, NoRepeats, RootPlaced, Parents, RootAgrees;
    assert FreshNext(r);
    hide FreshNext;
    forall q | q in r.nodes ensures ListAgrees(r.nodes, r.document, r.root, q) {
      RootPlacedList(d, id, before, q);
    }
    forall x | x in r.nodes ensures PointerAgrees(r.nodes, x) {
      RootPlacedPointer(d, id, before, x);
    }
  }

  lemma RootPlacedPointers(d: Dom, previous: Id, id: Id, before: Id)
    requires d.document in d.nodes
    ensures Parents(RootPlaced(d, previous, id, before).nodes) == Parents(d.nodes)
    ensures RootPlaced(d, previous, id, before).forms == d.forms
  {
    var r := RootPlaced(d, previous, id, before);
    assert forall x :: x in d.nodes ==> r.nodes[x].parent == d.nodes[x].parent;
  }

  lemma RootPlacedIs(d: Dom, id: Id, before: Id)
    requires Forest(d) && id in d.nodes && id != d.document && id != d.root
    requires d.nodes[id].parent == NONE
    ensures var r := RootPlaced(d, d.root, id, before);
            && r.nodes.Keys == d.nodes.Keys && r.document == d.document && r.next == d.next
            && Parents(r.nodes) == Parents(d.nodes)
            && RootAgrees(r.nodes, d.document, id)
  {
    RootListIsOnce(d, d.root, id, before);
    RootPlacedPointers(d, d.root, id, before);
    RootPlacedKeys(d, d.root, id, before);
    hide Grounded, ListAgrees, PointerAgrees, NoRepeats, RootPlaced, FreshNext;
    var r := RootPlaced(d, d.root, id, before);
    assert forall x :: x in d.nodes ==> Parents(r.nodes)[x] == Parents(d.nodes)[x];
  }

  /** The detach inside `set_document_element` does not look at which node is the root. */
  lemma DetachIgnoresRoot(d: Dom, c: Id, root: Id)
    requires Sound(Parents(d.nodes)) && c in d.nodes
    ensures Detached(d.(root := root), c) == Detached(d, c).(root := root)
  {
  }

  /** `set_document_element` keeps the forest exactly for a live node that is not the Document. */
  lemma RootSetKeepsForestExactly(d: Dom, id: Id, before: Id)
    requires Forest(d)
    ensures Forest(RootSet(d, id, before)) <==> MayBeRoot(d, id)
  {
    ForestIsSound(d);
    var r := RootSet(d, id, before);
    hide Grounded, Closed, NoRepeats, RootPlaced, PointerAgrees, Detached, Parents;
    if id == d.root {
      assert r == d;
    } else if id == d.document {
      assert d.root in r.nodes[d.document].children;
      assert !BelongsTo(r.nodes, r.document, r.root, d.document, d.root);
      assert !ListAgrees(r.nodes, r.document, r.root, d.document);
    } else if id !in d.nodes {
      assert !RootAgrees(r.nodes, r.document, r.root) by { RootPlacedKeys(d.(root := id), d.root, id, before); }
    } else {
      RootSetLive(d, id, before);
    }
  }

  lemma RootSetLive(d: Dom, id: Id, before: Id)
    requires Forest(d) && id in d.nodes && id != d.document && id != d.root
    ensures Forest(RootSet(d, id, before))
  {
    ForestIsSound(d);
    DetachKeepsForest(d, id);
    hide ForestOf, RootPlaced, Detached, Parents, Grounded, Closed;
    DetachIgnoresRoot(d, id, id);
    var cut := Detached(d, id);
    DetachKeepsFields(d, id);
    RootPlacedKeepsForest(cut, id, before);
    RootPlacedIgnoresRoot(cut, d.root, id, before);
    BumpKeepsForest(RootPlaced(cut, d.root, id, before).(root := id));
  }

  lemma DetachKeepsFields(d: Dom, c: Id)
    requires Sound(Parents(d.nodes)) && c in d.nodes
    ensures var r := Detached(d, c);
            && r.root == d.root && r.document == d.document && r.next == d.next
            && r.shadowRoots == d.shadowRoots && r.shadowHosts == d.shadowHosts && r.templates == d.templates
            && r.logging == d.logging
  {
  }

  lemma RootPlacedKeys(d: Dom, previous: Id, id: Id, before: Id)
    requires d.document in d.nodes
    ensures RootPlaced(d, previous, id, before).nodes.Keys == d.nodes.Keys
    ensures var r := RootPlaced(d, previous, id, before);
            r.root == d.root && r.document == d.document && r.next == d.next
  {
  }

  lemma RootPlacedIgnoresRoot(d: Dom, previous: Id, id: Id, before: Id)
    requires d.document in d.nodes
    ensures RootPlaced(d.(root := id), previous, id, before) == RootPlaced(d, previous, id, before).(root := id)
  {
  }

  lemma BumpKeepsForest(d: Dom)
    ensures Forest(Bumped(d)) <==> Forest(d)
  {
  }

  /** `remove_document_element` always keeps it. */
  lemma RootRemovedKeepsForest(d: Dom)
    requires Forest(d)
    ensures Forest(RootRemoved(d))
  {
    hide Grounded, Closed, NoRepeats, RemoveAll, IndexOf;
    RootRemovedPointers(d);
    var r := RootRemoved(d);
    if d.root != d.document {
      var items := d.nodes[d.document].children;
      forall q | q in r.nodes ensures ListAgrees(r.nodes, r.document, r.root, q) {
        assert ListAgrees(d.nodes, d.document, d.root, q);
        RemoveKeepsNoRepeats(d.nodes[q].children, d.root);
        forall x | x in r.nodes[q].children ensures BelongsTo(r.nodes, r.document, r.root, q, x) {
          assert BelongsTo(d.nodes, d.document, d.root, q, x);
        }
      }
      forall x | x in r.nodes ensures PointerAgrees(r.nodes, x) {
        assert PointerAgrees(d.nodes, x);
      }
    }
  }

  lemma RootRemovedPointers(d: Dom)
    requires d.document in d.nodes
    ensures Parents(RootRemoved(d).nodes) == Parents(d.nodes) && RootRemoved(d).forms == d.forms
  {
  }

  lemma CreatedPointers(d: Dom, node: Node)
    requires Forest(d)
    ensures Parents(Created(d, node).nodes) == Parents(d.nodes)[d.next := NONE]
    ensures Sound(Parents(Created(d, node).nodes))
  {
    ForestIsSound(d);
    assert NONE != d.next && d.next !in d.nodes;
    CreatedParents(d, node);
    hide ForestOf, Grounded, Closed, FreshNext;
    AddKeepsSound(Parents(d.nodes), d.next);
  }

  lemma CreatedParents(d: Dom, node: Node)
    ensures Parents(Created(d, node).nodes) == Parents(d.nodes)[d.next := NONE]
  {
  }

  lemma NoChildren(nodes: Nodes, document: Id, root: Id, q: Id)
    requires q in nodes && nodes[q].children == []
    ensures ListAgrees(nodes, document, root, q)
  {
  }

  lemma CreatedList(d: Dom, node: Node, q: Id)
    requires Forest(d) && q in Created(d, node).nodes
    ensures FreshNext(Created(d, node)) && RootAgrees(Created(d, node).nodes, d.document, d.root)
    ensures ListAgrees(Created(d, node).nodes, d.document, d.root, q)
    ensures PointerAgrees(Created(d, node).nodes, q)
  {
    hide Sound, NoRepeats, Parents;
    var r := Created(d, node);
    NoChildren(r.nodes, d.document, d.root, d.next);
    if q != d.next {
      assert ListAgrees(d.nodes, d.document, d.root, q) && PointerAgrees(d.nodes, q);
      forall x | x in r.nodes[q].children ensures BelongsTo(r.nodes, d.document, d.root, q, x) {
        assert BelongsTo(d.nodes, d.document, d.root, q, x);
      }
    }
  }

  lemma CreatedKeepsForest(d: Dom, node: Node)
    requires Forest(d)
    ensures Forest(Created(d, node))
    ensures Parents(Created(d, node).nodes) == Parents(d.nodes)[d.next := NONE]
  {
    var r := Created(d, node);
    CreatedPointers(d, node);
    hide Grounded, Closed, ListAgrees, PointerAgrees, Parents, RootAgrees, FreshNext;
    CreatedList(d, node, d.next);
    forall q | q in r.nodes ensures ListAgrees(r.nodes, r.document, r.root, q) && PointerAgrees(r.nodes, q) {
      CreatedList(d, node, q);
    }
  }

  lemma ShadowKeepsForest(d: Dom, host: Id)
    requires Forest(d)
    ensures Forest(ShadowAttached(d, host).0)
  {
    hide ForestOf, FreshNext, Created, CappedDepth;
    var fragment := Node(FragmentKind, [], false, NONE, [], [], []);
    CreatedKeepsForest(d, fragment);
    SameTreeSameForest(Created(d, fragment), d.shadowRoots[host := d.next], d.shadowHosts[d.next := host]);
  }

  lemma SameTreeSameForest(d: Dom, roots: map<Id, Id>, hosts: map<Id, Id>)
    requires Forest(d)
    ensures Forest(d.(shadowRoots := roots, shadowHosts := hosts))
  {
  }

  // --- Where an insertion puts the child ------------------------------------------

  /** The list an insertion leaves, given the list there was. */
  function ListAfter(was: seq<Id>, c: Id, before: Id): (now: seq<Id>) {
    var gap := RemoveAll(was, c);
    InsertAt(gap, IndexOf(gap, ReferenceFor(was, c, before)), c)
  }

  /** The list after an insertion, against the algorithm of section 4.2.3 of the DOM standard. */
  ghost predicate PlacedAsStandard(was: seq<Id>, c: Id, before: Id, now: seq<Id>) {
    && RemoveAll(now, c) == RemoveAll(was, c)
    && (before == c && c in was ==> now == was)
    && (before != c && before in was ==> IndexOf(now, before) == IndexOf(now, c) + 1 && IndexOf(now, before) < |now|)
    && (before !in was ==> now == RemoveAll(was, c) + [c])
  }

  lemma BeforeReference(gap: seq<Id>, i: nat, c: Id, before: Id)
    requires c !in gap && i < |gap| && i == IndexOf(gap, before) && before != c
    ensures var now := InsertAt(gap, i, c);
            IndexOf(now, c) == i && IndexOf(now, before) == i + 1 && i + 1 < |now|
  {
    var now := InsertAt(gap, i, c);
    assert now[i] == c && now[i + 1] == gap[i];
    assert forall j :: 0 <= j < i ==> now[j] == gap[j];
    IndexIs(now, c, i);
    IndexIs(now, before, i + 1);
  }

  lemma ListAfterIsStandard(was: seq<Id>, c: Id, before: Id)
    requires NoRepeats(was) && NONE !in was
    ensures PlacedAsStandard(was, c, before, ListAfter(was, c, before))
  {
    var gap := RemoveAll(was, c);
    var i := IndexOf(gap, ReferenceFor(was, c, before));
    InsertedOnce(gap, i, c);
    if before == c && c in was {
      BackInPlace(was, c);
    }
    hide RemoveAll, NoRepeats;
    if before != c && before in was {
      BeforeReference(gap, i, c, before);
    } else if before !in was {
      hide IndexOf;
      assert InsertAt(gap, |gap|, c) == gap + [c];
    }
  }

  /** An insertion lists the child where the standard says, and nowhere else. */
  lemma InsertionPlacesChild(d: Dom, p: Id, c: Id, before: Id)
    requires Forest(d) && MayMove(d, c) && InsertedBefore(d, p, c, before).1 == Done
    ensures PlacedAsStandard(d.nodes[p].children, c, before, InsertedBefore(d, p, c, before).0.nodes[p].children)
    ensures forall q :: q in d.nodes && q != p ==>
              InsertedBefore(d, p, c, before).0.nodes[q].children == RemoveAll(d.nodes[q].children, c)
  {
    assert ListAgrees(d.nodes, d.document, d.root, p);
    ListAfterIsStandard(d.nodes[p].children, c, before);
    hide ForestOf, PlacedAsStandard, InsertedBefore, ListAfter;
    forall q | q in d.nodes
      ensures q in InsertedBefore(d, p, c, before).0.nodes
      ensures InsertedBefore(d, p, c, before).0.nodes[q].children ==
              if q == p then ListAfter(d.nodes[p].children, c, before) else RemoveAll(d.nodes[q].children, c)
    {
      InsertionList(d, p, c, before, q);
    }
  }

  lemma InsertionList(d: Dom, p: Id, c: Id, before: Id, q: Id)
    requires Forest(d) && MayMove(d, c) && InsertedBefore(d, p, c, before).1 == Done && q in d.nodes
    ensures q in InsertedBefore(d, p, c, before).0.nodes
    ensures InsertedBefore(d, p, c, before).0.nodes[q].children ==
            if q == p then ListAfter(d.nodes[p].children, c, before) else RemoveAll(d.nodes[q].children, c)
  {
    hide ForestOf, Parents, Detached, Grounded, Closed, IsTooDeep, HangNode, IsChainFrom;
    ForestIsSound(d);
    var cut := Detached(d, c);
    assert p != c by {
      assert p in ChainOf(Parents(d.nodes), p) by { ChainStarts(Parents(d.nodes), p); }
    }
    DetachedForInsertion(d, p, c);
    DetachEmptiesLists(d, c, p);
    DetachEmptiesLists(d, c, q);
    var reference := ReferenceFor(d.nodes[p].children, c, before);
    HangListsAt(cut.nodes, p, c, IndexOf(cut.nodes[p].children, reference), q);
  }

  lemma ChainStarts(up: Links, x: Id)
    requires Grounded(up)
    ensures x in ChainOf(up, x)
  {
  }

  lemma HangListsAt(nodes: Nodes, p: Id, c: Id, i: nat, q: Id)
    requires p in nodes && c in nodes && q in nodes && p != c && i <= |nodes[p].children|
    ensures q in HangNode(nodes, p, c, i)
    ensures HangNode(nodes, p, c, i)[q].children ==
            if q == p then InsertAt(nodes[p].children, i, c) else nodes[q].children
  {
  }

  lemma DetachEmptiesLists(d: Dom, c: Id, q: Id)
    requires Forest(d) && MayMove(d, c) && c in d.nodes && q in d.nodes
    ensures Detached(d, c).nodes[q].children == RemoveAll(d.nodes[q].children, c)
  {
    ForestIsSound(d);
    assert ListAgrees(d.nodes, d.document, d.root, q);
    assert PointerAgrees(d.nodes, c);
    hide Grounded, Closed;
    if d.nodes[c].parent == NONE {
      TopIsInNoList(d, c, q);
      RemoveAbsent(d.nodes[q].children, c);
    } else {
      CutList(d.nodes, d.document, d.root, c, q);
      if q != d.nodes[c].parent {
        assert c in d.nodes[q].children ==> BelongsTo(d.nodes, d.document, d.root, q, c);
        RemoveAbsent(d.nodes[q].children, c);
      }
    }
  }

  lemma InsertedOnce(gap: seq<Id>, i: nat, c: Id)
    requires c !in gap && i <= |gap|
    ensures RemoveAll(InsertAt(gap, i, c), c) == gap
  {
    RemoveOnlyOne(c);
    RemoveFromConcat(gap[..i] + [c], gap[i..], c);
    RemoveFromConcat(gap[..i], [c], c);
    RemoveAbsent(gap[..i], c);
    RemoveAbsent(gap[i..], c);
    hide RemoveAll;
    assert RemoveAll(InsertAt(gap, i, c), c) == gap[..i] + [] + gap[i..];
  }

  lemma RemoveOnlyOne(c: Id)
    ensures RemoveAll([c], c) == []
  {
  }

  lemma GapIndex(was: seq<Id>, k: nat)
    requires NoRepeats(was) && k < |was| && NONE !in was
    ensures var gap := RemoveAt(was, k);
            IndexOf(gap, if k + 1 < |was| then was[k + 1] else NONE) == k
  {
    var gap := RemoveAt(was, k);
    if k + 1 < |was| {
      assert gap[k] == was[k + 1];
      forall j | 0 <= j < k ensures gap[j] != was[k + 1] {
        assert gap[j] == was[j];
      }
      IndexIs(gap, was[k + 1], k);
    } else {
      assert |gap| == k;
      assert NONE !in gap;
    }
  }

  lemma GapFilled(was: seq<Id>, k: nat)
    requires k < |was|
    ensures InsertAt(RemoveAt(was, k), k, was[k]) == was
  {
    var gap := RemoveAt(was, k);
    assert gap[..k] == was[..k] && gap[k..] == was[k + 1..];
  }

  /** A node inserted before itself goes back to its place. */
  lemma BackInPlace(was: seq<Id>, c: Id)
    requires NoRepeats(was) && c in was && NONE !in was
    ensures var gap := RemoveAll(was, c); InsertAt(gap, IndexOf(gap, NextSibling(was, c)), c) == was
  {
    hide RemoveAll, RemoveAt, InsertAt, NoRepeats;
    var k := IndexOf(was, c);
    RemoveOnce(was, c);
    GapIndex(was, k);
    GapFilled(was, k);
  }

  // --- Calls that break the forest -----------------------------------------------------

  /** The Document 1 with its element 2, and a detached element 3. */
  function SmallDom(): Dom {
    var top := Node(DocumentKind, [], false, NONE, [2], [], []);
    var element := Node(ElementKind, [], false, NONE, [], [], []);
    Dom(map[1 := top, 2 := element, 3 := element], 4, 1, 2, map[], map[], [], [], [], false, 1)
  }

  lemma SmallDomAlone(x: Id)
    requires x in SmallDom().nodes
    ensures IsChainFrom(Parents(SmallDom().nodes), x, [x])
  {
  }

  lemma SmallDomNode(x: Id)
    requires x in SmallDom().nodes
    ensures var d := SmallDom(); ListAgrees(d.nodes, d.document, d.root, x) && PointerAgrees(d.nodes, x)
  {
    var d := SmallDom();
    assert x == 1 || x == 2 || x == 3;
    assert d.nodes[2].parent == NONE && d.nodes[x].children == if x == 1 then [2] else [];
  }

  lemma SmallDomRoot()
    ensures var d := SmallDom();
            && NONE !in d.nodes && RootAgrees(d.nodes, d.document, d.root) && FreshNext(d) && Closed(Parents(d.nodes))
  {
  }

  lemma SmallDomIsForest()
    ensures Forest(SmallDom())
  {
    hide ListAgrees, PointerAgrees, RootAgrees, FreshNext, Closed, SmallDom, IsChain;
    var d := SmallDom();
    SmallDomRoot();
    forall x | x in d.nodes
      ensures exists path :: IsChainFrom(Parents(d.nodes), x, path)
      ensures ListAgrees(d.nodes, d.document, d.root, x) && PointerAgrees(d.nodes, x)
    {
      SmallDomAlone(x);
      SmallDomNode(x);
    }
  }

  lemma SmallDomShape()
    ensures var d := SmallDom(); Up(d, 3) == NONE && Below(d, 1) == [2] && Below(d, 2) == []
    ensures SmallDom().nodes.Keys == {1, 2, 3}
  {
    assert SecondOf([], 2) == NONE;
  }

  lemma LowEnough(d: Dom, p: Id, c: Id, kid: Id)
    requires Up(d, p) == NONE && Below(d, kid) == [] && (c == kid || Below(d, c) == [kid])
    ensures !IsTooDeep(d, p, c)
  {
    assert CappedHeight(d, kid, MAX_DOM_DEPTH - 1) == 0 && TallestOf(d, [kid][1..], MAX_DOM_DEPTH - 1) == 0;
    assert CappedHeight(d, c, MAX_DOM_DEPTH) <= 1;
  }

  lemma SmallDomRefusesNothing(c: Id)
    requires c == 1 || c == 2
    ensures Sound(Parents(SmallDom().nodes)) && Refusal(SmallDom(), 3, c) == Done
  {
    hide SmallDom, IsTooDeep, Up, Below, IsChain, Closed, Grounded;
    var d := SmallDom();
    SmallDomIsForest();
    SmallDomShape();
    ForestIsSound(d);
    SmallDomAlone(3);
    ChainIs(Parents(d.nodes), 3, [3]);
    LowEnough(d, 3, c, 2);
  }

  /** Nothing refuses the Document or its element as a child, and the forest is gone. */
  lemma MovedRootBreaksForest(c: Id, before: Id)
    requires c == 1 || c == 2
    ensures var d := SmallDom();
            && Forest(d)
            && Appended(d, 3, c).1 == Done && !Forest(Appended(d, 3, c).0)
            && InsertedBefore(d, 3, c, before).1 == Done && !Forest(InsertedBefore(d, 3, c, before).0)
  {
    hide *;
    var d := SmallDom();
    SmallDomIsForest();
    SmallDomRefusesNothing(c);
    SmallDomMoves(c, before);
    AppendKeepsForestExactly(d, 3, c);
    InsertKeepsForestExactly(d, 3, c, before);
  }

  lemma SmallDomMoves(c: Id, before: Id)
    requires c == 1 || c == 2
    ensures !MayMove(SmallDom(), c)
    ensures Sound(Parents(SmallDom().nodes)) && Refusal(SmallDom(), 3, c) == Done
    ensures Appended(SmallDom(), 3, c).1 == Done && InsertedBefore(SmallDom(), 3, c, before).1 == Done
  {
    hide Sound, Parents, Refusal;
    SmallDomRefusesNothing(c);
  }

  /** Nor does anything refuse the Document, or a handle of no node, as the document element. */
  lemma RootSetBreaksForest(before: Id)
    ensures var d := SmallDom();
            Forest(d) && Sound(Parents(d.nodes)) && !Forest(RootSet(d, 1, before)) && !Forest(RootSet(d, 4, before))
  {
    hide RootSet, Forest, Sound;
    var d := SmallDom();
    SmallDomIsForest();
    ForestIsSound(d);
    RootSetKeepsForestExactly(d, 1, before);
    RootSetKeepsForestExactly(d, 4, before);
  }
}
