/**
  What each write of the document does to the whole state, said in plain terms: which
  lists, pointers, fields and notes are which afterwards, and what stays. The functions of
  DomStore and DomAttributes are proved to have these effects, and to be refused exactly
  when the arguments say so.
 */
module DomEffects {
  import opened Options
  import opened Utf8
  import Utf16
  import opened Lists
  import opened Chains
  import opened DomStore
  import opened DomForest
  import opened DomDepth
  import opened DomForms
  import opened DomCap
  import opened DomRootCap
  import opened PseudoAttributes
  import opened DomAttributes
  import opened DomRuns

  // --- What stays ---------------------------------------------------------------------

  /** Nodes are live as before and hold what they held; only their places may differ. */
  ghost predicate SameNodes(d: Dom, r: Dom) {
    && r.nodes.Keys == d.nodes.Keys
    && forall x :: x in d.nodes ==>
         && r.nodes[x].kind == d.nodes[x].kind && r.nodes[x].tag == d.nodes[x].tag
         && r.nodes[x].mayHost == d.nodes[x].mayHost
         && r.nodes[x].attributes == d.nodes[x].attributes && r.nodes[x].text == d.nodes[x].text
  }

  /** Every field but the nodes, the root, the log, the version and the forms. */
  ghost predicate SameRest(d: Dom, r: Dom) {
    && r.document == d.document && r.next == d.next && r.logging == d.logging
    && r.shadowRoots == d.shadowRoots && r.shadowHosts == d.shadowHosts && r.templates == d.templates
  }

  /** One node points to `p`, every other one where it did. */
  ghost predicate PointsTo(d: Dom, r: Dom, c: Id, p: Id)
    requires r.nodes.Keys == d.nodes.Keys
  {
    forall x :: x in d.nodes ==> r.nodes[x].parent == if x == c then p else d.nodes[x].parent
  }

  /** One node is gone from every list but that of `p`, and the others keep their order. */
  ghost predicate LeavesLists(d: Dom, r: Dom, c: Id, p: Id)
    requires r.nodes.Keys == d.nodes.Keys
  {
    forall q :: q in d.nodes && q != p ==> r.nodes[q].children == RemoveAll(d.nodes[q].children, c)
  }

  /** The note of a node that leaves its parent. */
  function Leaving(d: Dom, c: Id): (notes: seq<Note>) {
    if c !in d.nodes || d.nodes[c].parent !in d.nodes then []
    else [Removed(d.nodes[c].parent, c, IndexOf(d.nodes[d.nodes[c].parent].children, c))]
  }

  ghost predicate Logs(d: Dom, r: Dom, notes: seq<Note>) { r.log == d.log + if d.logging then notes else [] }

  // --- Moves --------------------------------------------------------------------------

  /** `c` now stands in the list `now` of `p`, in no other, and nothing else has moved. */
  ghost predicate IsMoved(d: Dom, r: Dom, p: Id, c: Id, now: seq<Id>) {
    && SameNodes(d, r) && SameRest(d, r) && r.root == d.root && r.version == d.version + 1
    && PointsTo(d, r, c, p) && LeavesLists(d, r, c, p)
    && p in r.nodes && r.nodes[p].children == now
    && Logs(d, r, Leaving(d, c) + [Inserted(p, c, IndexOf(now, c))])
  }

  /** `c` stands in no list and points nowhere, and nothing else has moved. */
  ghost predicate IsGone(d: Dom, r: Dom, c: Id) {
    && SameNodes(d, r) && SameRest(d, r) && r.root == d.root
    && PointsTo(d, r, c, NONE) && LeavesLists(d, r, c, NONE)
    && Logs(d, r, Leaving(d, c))
  }

  lemma OnTopIsUnlisted(d: Dom, c: Id)
    requires Forest(d) && c in d.nodes && c != d.root && d.nodes[c].parent == NONE
    ensures forall q :: q in d.nodes ==> RemoveAll(d.nodes[q].children, c) == d.nodes[q].children
  {
    hide ForestOf, FreshNext;
    forall q | q in d.nodes ensures RemoveAll(d.nodes[q].children, c) == d.nodes[q].children {
      TopIsInNoList(d, c, q);
      RemoveAbsent(d.nodes[q].children, c);
    }
  }

  lemma OthersHaveNot(d: Dom, c: Id, q: Id)
    requires Forest(d) && c in d.nodes && c != d.root && q in d.nodes && d.nodes[c].parent != q
    ensures RemoveAll(d.nodes[q].children, c) == d.nodes[q].children
  {
    assert ListAgrees(d.nodes, d.document, d.root, q);
    assert c in d.nodes[q].children ==> BelongsTo(d.nodes, d.document, d.root, q, c);
    RemoveAbsent(d.nodes[q].children, c);
  }

  /** `detach`. */
  lemma DetachTakesOut(d: Dom, c: Id)
    requires Forest(d) && c in d.nodes && c != d.root
    ensures Sound(Parents(d.nodes))
    ensures IsGone(d, Detached(d, c), c) && Detached(d, c).version == d.version
  {
    hide *;
    ForestIsSound(d);
    NoneIsDead(d);
    if d.nodes[c].parent == NONE {
      OnTopIsGone(d, c);
    } else {
      ParentIsLive(d, c);
      forall q | q in d.nodes && q != d.nodes[c].parent
        ensures RemoveAll(d.nodes[q].children, c) == d.nodes[q].children
      {
        OthersHaveNot(d, c, q);
      }
      CutNodeIs(d.nodes, c);
      DetachedIs(d, c);
      CutIsGone(d, Detached(d, c), c);
    }
  }

  lemma OnTopIsGone(d: Dom, c: Id)
    requires Forest(d) && c in d.nodes && c != d.root && d.nodes[c].parent == NONE && Sound(Parents(d.nodes))
    requires NONE !in d.nodes
    ensures IsGone(d, Detached(d, c), c) && Detached(d, c).version == d.version
  {
    OnTopIsUnlisted(d, c);
    hide Forest, Sound, RemoveAll, Together;
    assert d.log + [] == d.log;
  }

  lemma CutIsGone(d: Dom, r: Dom, c: Id)
    requires NONE !in d.nodes && c in d.nodes && d.nodes[c].parent in d.nodes && r.nodes == CutNode(d.nodes, c)
    requires r.root == d.root && SameRest(d, r) && Logs(d, r, Leaving(d, c))
    requires forall q :: q in d.nodes && q != d.nodes[c].parent ==>
               RemoveAll(d.nodes[q].children, c) == d.nodes[q].children
    ensures IsGone(d, r, c)
  {
    hide RemoveAll, CutNode, Leaving, Logs;
    CutNodeIs(d.nodes, c);
  }

  lemma NoneIsDead(d: Dom)
    requires Forest(d)
    ensures NONE !in d.nodes && d.document in d.nodes
  {
  }

  lemma DetachedIs(d: Dom, c: Id)
    requires Sound(Parents(d.nodes)) && c in d.nodes && d.nodes[c].parent in d.nodes && d.nodes[c].parent != NONE
    ensures var r := Detached(d, c);
            && r.nodes == CutNode(d.nodes, c) && r.root == d.root && r.version == d.version && SameRest(d, r)
            && Logs(d, r, Leaving(d, c))
  {
    hide CutNode, Together, Sound, IndexOf;
    assert d.log + [] == d.log;
  }

  lemma CutNodeIs(nodes: Nodes, c: Id)
    requires c in nodes && nodes[c].parent in nodes
    ensures var cut := CutNode(nodes, c);
            && cut.Keys == nodes.Keys
            && (forall x :: x in nodes ==>
                  cut[x] == nodes[x].(parent := if x == c then NONE else nodes[x].parent,
                                      children := if x == nodes[c].parent then RemoveAll(nodes[x].children, c)
                                                  else nodes[x].children))
  {
    hide RemoveAll;
  }

  /** `c` is put at place `i` of the list of `p`, and nothing else has changed. */
  ghost predicate IsPlaced(d: Dom, r: Dom, p: Id, c: Id, i: nat) {
    && SameNodes(d, r) && SameRest(d, r) && r.root == d.root && r.version == d.version + 1
    && PointsTo(d, r, c, p)
    && p in d.nodes && i <= |d.nodes[p].children|
    && r.nodes[p].children == InsertAt(d.nodes[p].children, i, c)
    && (forall q :: q in d.nodes && q != p ==> r.nodes[q].children == d.nodes[q].children)
    && Logs(d, r, [Inserted(p, c, i)])
  }

  lemma PlacedIs(d: Dom, p: Id, c: Id, i: nat)
    requires p in d.nodes && c in d.nodes && p != c && i <= |d.nodes[p].children|
    ensures IsPlaced(d, Placed(d, p, c, i), p, c, i)
  {
    hide InsertAt, HangNode;
    HangNodeIs(d.nodes, p, c, i);
  }

  lemma HangNodeIs(nodes: Nodes, p: Id, c: Id, i: nat)
    requires p in nodes && c in nodes && p != c && i <= |nodes[p].children|
    ensures var hung := HangNode(nodes, p, c, i);
            && hung.Keys == nodes.Keys
            && (forall x :: x in nodes ==>
                  hung[x] == nodes[x].(parent := if x == c then p else nodes[x].parent,
                                       children := if x == p then InsertAt(nodes[p].children, i, c)
                                                   else nodes[x].children))
  {
    hide InsertAt;
  }

  lemma NotUnderItself(d: Dom, p: Id, c: Id)
    requires Sound(Parents(d.nodes)) && Refusal(d, p, c) == Done
    ensures p in d.nodes && c in d.nodes && p != c
  {
    ChainStarts(Parents(d.nodes), p);
  }

  /** Out, and in again at a place of the list without it. */
  lemma MovePlaces(d: Dom, p: Id, c: Id, i: nat)
    requires Forest(d) && MayMove(d, c) && Refusal(d, p, c) == Done
    requires i <= |RemoveAll(d.nodes[p].children, c)|
    ensures c in d.nodes && p in Detached(d, c).nodes && c in Detached(d, c).nodes
    ensures Detached(d, c).nodes[p].children == RemoveAll(d.nodes[p].children, c)
    ensures IsMoved(d, Placed(Detached(d, c), p, c, i), p, c, InsertAt(RemoveAll(d.nodes[p].children, c), i, c))
  {
    hide *;
    ForestIsSound(d);
    NotUnderItself(d, p, c);
    NoneIsDead(d);
    MayMoveIs(d, c);
    DetachTakesOut(d, c);
    var cut := Detached(d, c);
    GoneFrom(d, cut, c, p);
    PlacedIs(cut, p, c, i);
    OutAndIn(d, cut, Placed(cut, p, c, i), p, c, i);
  }

  lemma MayMoveIs(d: Dom, c: Id)
    requires MayMove(d, c)
    ensures c != d.root && c != d.document
  {
  }

  lemma GoneFrom(d: Dom, cut: Dom, c: Id, p: Id)
    requires IsGone(d, cut, c) && p in d.nodes && p != NONE
    ensures cut.nodes.Keys == d.nodes.Keys && cut.nodes[p].children == RemoveAll(d.nodes[p].children, c)
  {
  }

  lemma OutAndIn(d: Dom, cut: Dom, r: Dom, p: Id, c: Id, i: nat)
    requires IsGone(d, cut, c) && cut.version == d.version && IsPlaced(cut, r, p, c, i) && p != NONE && NONE !in d.nodes
    ensures var now := InsertAt(RemoveAll(d.nodes[p].children, c), i, c); IsMoved(d, r, p, c, now)
  {
    hide InsertAt, RemoveAll, IndexOf, Leaving, Logs;
    InsertedAtIndex(RemoveAll(d.nodes[p].children, c), i, c);
    LogsTwice(d, cut, r, Leaving(d, c), [Inserted(p, c, i)]);
    forall q | q in d.nodes && q != p ensures r.nodes[q].children == RemoveAll(d.nodes[q].children, c) {
      assert cut.nodes[q].children == RemoveAll(d.nodes[q].children, c);
    }
  }

  lemma InsertedAtIndex(gap: seq<Id>, i: nat, c: Id)
    requires c !in gap && i <= |gap|
    ensures IndexOf(InsertAt(gap, i, c), c) == i
  {
    var now := InsertAt(gap, i, c);
    assert forall j :: 0 <= j < i ==> now[j] == gap[j];
    IndexIs(now, c, i);
  }

  lemma LogsTwice(a: Dom, b: Dom, c: Dom, first: seq<Note>, second: seq<Note>)
    requires Logs(a, b, first) && Logs(b, c, second) && b.logging == a.logging
    ensures Logs(a, c, first + second)
  {
    Regroup(a.log, first, second);
    assert a.log + [] == a.log;
  }

  /** `append_child` puts the child at the end of the list. */
  lemma AppendPlacesLast(d: Dom, p: Id, c: Id)
    requires Forest(d) && MayMove(d, c)
    ensures Sound(Parents(d.nodes))
    ensures var r := Appended(d, p, c);
            && (r.1 != Done ==> r.0 == d)
            && (r.1 == Done ==>
                  p in d.nodes && IsMoved(d, r.0, p, c, RemoveAll(d.nodes[p].children, c) + [c]))
  {
    hide ForestOf, FreshNext, Grounded, Closed, Detached, Placed, Sound, Refusal, RemoveAll, IsMoved;
    ForestIsSound(d);
    if Refusal(d, p, c) == Done {
      NotUnderItself(d, p, c);
      var gap := RemoveAll(d.nodes[p].children, c);
      MovePlaces(d, p, c, |gap|);
      assert InsertAt(gap, |gap|, c) == gap + [c];
    }
  }

  /** `insert_before` puts it where section 4.2.3 of the DOM standard says. */
  lemma InsertPlacesBefore(d: Dom, p: Id, c: Id, before: Id)
    requires Forest(d) && MayMove(d, c)
    ensures Sound(Parents(d.nodes))
    ensures var r := InsertedBefore(d, p, c, before);
            && (r.1 != Done ==> r.0 == d)
            && (r.1 == Done ==>
                  && p in d.nodes && p in r.0.nodes
                  && IsMoved(d, r.0, p, c, r.0.nodes[p].children)
                  && PlacedAsStandard(d.nodes[p].children, c, before, r.0.nodes[p].children))
  {
    hide ForestOf, FreshNext, Grounded, Closed, Detached, Placed, Sound, Refusal, RemoveAll, IndexOf;
    hide PlacedAsStandard, ReferenceFor;
    ForestIsSound(d);
    if Refusal(d, p, c) == Done {
      NotUnderItself(d, p, c);
      InsertionPlacesChild(d, p, c, before);
      var gap := RemoveAll(d.nodes[p].children, c);
      MovePlaces(d, p, c, IndexOf(gap, ReferenceFor(d.nodes[p].children, c, before)));
    }
  }

  /** `remove_child`: done exactly for a live node that is not the root, and then it is out. */
  lemma RemoveTakesOut(d: Dom, c: Id)
    requires Forest(d)
    ensures Sound(Parents(d.nodes))
    ensures var r := ChildRemoved(d, c);
            && r.1 == (if c !in d.nodes then NoSuchNode else if c == d.root then IsRoot else Done)
            && (r.1 != Done ==> r.0 == d)
            && (r.1 == Done ==> IsGone(d, r.0, c) && r.0.version == d.version + 1)
  {
    hide ForestOf, FreshNext, Grounded, Closed, Detached, Sound, IsGone;
    ForestIsSound(d);
    if c in d.nodes && c != d.root {
      DetachTakesOut(d, c);
      GoneAndBumped(d, Detached(d, c), c);
    }
  }

  lemma GoneAndBumped(d: Dom, r: Dom, c: Id)
    requires IsGone(d, r, c)
    ensures IsGone(d, Bumped(r), c)
  {
    hide RemoveAll, Leaving;
  }

  /** Why an insertion is refused, in this order, by the true depth and height. */
  ghost predicate RefusedAs(d: Dom, p: Id, c: Id, o: Outcome)
    requires Sound(Parents(d.nodes)) && Sound(Ups(d))
  {
    o == if p !in d.nodes || c !in d.nodes then NoSuchNode
         else if Under(Parents(d.nodes), p, c) then WouldCycle
         else if exists y :: y in d.nodes && Under(Ups(d), y, c)
                             && DepthOf(Ups(d), p) + 1 + (DepthOf(Ups(d), y) - DepthOf(Ups(d), c)) >= 512 then TooDeep
         else Done
  }

  lemma TooDeepExactly(d: Dom, p: Id, c: Id)
    requires Composed(d) && p in d.nodes && c in d.nodes
    ensures Sound(Ups(d))
    ensures IsTooDeep(d, p, c) <==>
            exists y :: y in d.nodes && Under(Ups(d), y, c)
                        && DepthOf(Ups(d), p) + 1 + (DepthOf(Ups(d), y) - DepthOf(Ups(d), c)) >= 512
  {
    hide *;
    ComposedIsSound(d);
    var up := Ups(d);
    var depth, height := CappedDepth(d, p, MAX_DOM_DEPTH), CappedHeight(d, c, MAX_DOM_DEPTH);
    DepthIsCapped(d, p, MAX_DOM_DEPTH);
    TooDeepIs(d, p, c);
    var y := HeightReached(d, c, MAX_DOM_DEPTH);
    if IsTooDeep(d, p, c) {
      assert DepthOf(up, p) + 1 + (DepthOf(up, y) - DepthOf(up, c)) >= 512 by { MinIs(DepthOf(up, p)); }
    }
    if z :| z in d.nodes && Under(up, z, c) && DepthOf(up, p) + 1 + (DepthOf(up, z) - DepthOf(up, c)) >= 512 {
      HeightCovers(d, c, z, MAX_DOM_DEPTH);
      MinIs(DepthOf(up, p));
      MinIs(DepthOf(up, z) - DepthOf(up, c));
    }
  }

  lemma TooDeepIs(d: Dom, p: Id, c: Id)
    ensures IsTooDeep(d, p, c) <==> CappedDepth(d, p, MAX_DOM_DEPTH) + 1 + CappedHeight(d, c, MAX_DOM_DEPTH) >= 512
  {
  }

  lemma MinIs(n: nat)
    ensures Min(n, MAX_DOM_DEPTH) == if n < 512 then n else 512
  {
  }

  /** Both insertions are refused exactly as the arguments deserve. */
  lemma RefusalExactly(d: Dom, p: Id, c: Id, before: Id)
    requires Composed(d)
    ensures Sound(Parents(d.nodes)) && Sound(Ups(d))
    ensures RefusedAs(d, p, c, Appended(d, p, c).1) && RefusedAs(d, p, c, InsertedBefore(d, p, c, before).1)
  {
    hide *;
    ComposedIsSound(d);
    ForestIsSound(d);
    if p in d.nodes && c in d.nodes {
      TooDeepExactly(d, p, c);
    }
    RefusalIsRefused(d, p, c);
    AppendedRefused(d, p, c);
    InsertedRefused(d, p, c, before);
  }

  lemma RefusalIsRefused(d: Dom, p: Id, c: Id)
    requires Sound(Parents(d.nodes)) && Sound(Ups(d))
    requires p in d.nodes && c in d.nodes ==>
               (IsTooDeep(d, p, c) <==>
                exists y :: y in d.nodes && Under(Ups(d), y, c)
                            && DepthOf(Ups(d), p) + 1 + (DepthOf(Ups(d), y) - DepthOf(Ups(d), c)) >= 512)
    ensures RefusedAs(d, p, c, Refusal(d, p, c))
  {
    hide Under, DepthOf, IsTooDeep, Closed, Grounded;
  }

  // --- The document element --------------------------------------------------------------

  /** The Document's list: the new element in the old one's slot, or before a reference, or at the end. */
  ghost predicate HoldsRoot(was: seq<Id>, hasRoot: bool, previous: Id, id: Id, before: Id, now: seq<Id>) {
    var items := RemoveAll(was, id);
    if hasRoot then
      |now| == |items| && forall k :: 0 <= k < |items| ==> now[k] == if items[k] == previous then id else items[k]
    else if before in items then
      RemoveAll(now, id) == items && IndexOf(now, before) == IndexOf(now, id) + 1 < |now|
    else now == items + [id]
  }

  ghost predicate IsRooted(d: Dom, r: Dom, id: Id, before: Id)
    requires d.document in d.nodes
  {
    && SameNodes(d, r) && SameRest(d, r) && r.root == id && r.version == d.version + 1
    && PointsTo(d, r, id, NONE) && LeavesLists(d, r, id, d.document)
    && d.document in r.nodes
    && var (was, now) := (d.nodes[d.document].children, r.nodes[d.document].children);
       && HoldsRoot(was, d.root != d.document, d.root, id, before, now)
       && Logs(d, r, Leaving(d, id) + RootNotes(d.document, d.root, id, now))
  }

  lemma SlotTaken(items: seq<Id>, previous: Id, id: Id)
    requires NoRepeats(items) && previous in items && id !in items
    ensures var now := items[IndexOf(items, previous) := id];
            && IndexOf(now, id) == IndexOf(items, previous)
            && forall k :: 0 <= k < |items| ==> now[k] == if items[k] == previous then id else items[k]
  {
    IndexIs(items[IndexOf(items, previous) := id], id, IndexOf(items, previous));
  }

  /** One list is another, and nothing else has changed, the log and the version apart. */
  ghost predicate OnlyList(d: Dom, r: Dom, p: Id, now: seq<Id>) {
    && SameNodes(d, r) && SameRest(d, r)
    && (forall x :: x in d.nodes ==>
          r.nodes[x].parent == d.nodes[x].parent && r.nodes[x].children == if x == p then now else d.nodes[x].children)
  }

  lemma WithListIs(d: Dom, r: Dom, p: Id, now: seq<Id>)
    requires p in d.nodes && r.nodes == WithChildren(d.nodes, p, now) && SameRest(d, r)
    ensures OnlyList(d, r, p, now)
  {
  }

  /** The notes of the Document's new list. */
  function RootNotes(document: Id, previous: Id, id: Id, now: seq<Id>): (notes: seq<Note>) {
    (if previous != document then [Removed(document, previous, IndexOf(now, id))] else [])
    + [Inserted(document, id, IndexOf(now, id))]
  }

  lemma RootListIs(d: Dom, previous: Id, id: Id, before: Id)
    requires d.document in d.nodes && id !in d.nodes[d.document].children && NoRepeats(d.nodes[d.document].children)
    requires previous in d.nodes[d.document].children || previous == d.document
    requires d.document !in d.nodes[d.document].children
    ensures var r := RootPlaced(d, previous, id, before);
            && r.document == d.document && d.document in r.nodes
            && var (was, now) := (d.nodes[d.document].children, r.nodes[d.document].children);
               && OnlyList(d, r, d.document, now) && r.root == d.root && r.version == d.version
               && HoldsRoot(was, previous != d.document, previous, id, before, now)
               && Logs(d, r, RootNotes(d.document, previous, id, now))
  {
    var was := d.nodes[d.document].children;
    RemoveAbsent(was, id);
    hide RemoveAll, IndexOf, NoRepeats, InsertAt, HoldsRoot, OnlyList;
    var r := RootPlaced(d, previous, id, before);
    if previous != d.document {
      SlotTaken(was, previous, id);
      RootSlot(was, previous, id, before);
      Regroup(d.log, [Removed(d.document, previous, IndexOf(was, previous))],
              [Inserted(d.document, id, IndexOf(was, previous))]);
      assert d.log + [] == d.log;
      WithListIs(d, r, d.document, was[IndexOf(was, previous) := id]);
    } else {
      var at := IndexOf(was, before);
      RootBefore(was, previous, id, before);
      assert d.log + [] == d.log && [] + [Inserted(d.document, id, at)] == [Inserted(d.document, id, at)];
      WithListIs(d, r, d.document, InsertAt(was, at, id));
    }
  }

  lemma RootSlot(was: seq<Id>, previous: Id, id: Id, before: Id)
    requires NoRepeats(was) && previous in was && id !in was
    ensures HoldsRoot(was, true, previous, id, before, was[IndexOf(was, previous) := id])
  {
    RemoveAbsent(was, id);
    SlotTaken(was, previous, id);
  }

  lemma RootBefore(was: seq<Id>, previous: Id, id: Id, before: Id)
    requires id !in was
    ensures HoldsRoot(was, false, previous, id, before, InsertAt(was, IndexOf(was, before), id))
    ensures IndexOf(InsertAt(was, IndexOf(was, before), id), id) == IndexOf(was, before)
  {
    var at := IndexOf(was, before);
    RemoveAbsent(was, id);
    InsertedAtIndex(was, at, id);
    InsertedOnce(was, at, id);
    if before in was {
      BeforeReference(was, at, id, before);
    } else {
      assert InsertAt(was, at, id) == was + [id];
    }
  }

  lemma DocumentList(d: Dom)
    requires Forest(d)
    ensures d.document in d.nodes && NoRepeats(d.nodes[d.document].children)
    ensures d.document !in d.nodes[d.document].children
    ensures d.root in d.nodes[d.document].children || d.root == d.document
  {
    var was := d.nodes[d.document].children;
    assert ListAgrees(d.nodes, d.document, d.root, d.document);
    assert d.document in was ==> BelongsTo(d.nodes, d.document, d.root, d.document, d.document);
  }

  lemma RemoveTwice(s: seq<Id>, x: Id)
    ensures x !in RemoveAll(s, x) && RemoveAll(RemoveAll(s, x), x) == RemoveAll(s, x)
  {
    RemoveAbsent(RemoveAll(s, x), x);
  }

  /** `set_document_element`: nothing for the old element; else where the new one stands. */
  lemma RootSetPlaces(d: Dom, id: Id, before: Id)
    requires Forest(d) && MayBeRoot(d, id)
    ensures Sound(Parents(d.nodes)) && d.document in d.nodes
    ensures if id == d.root then RootSet(d, id, before) == d else IsRooted(d, RootSet(d, id, before), id, before)
  {
    hide ForestOf, FreshNext, Grounded, Closed, Detached, Sound, RemoveAll, RootPlaced, NoRepeats, IsRooted;
    hide IsGone, Logs, OnlyList, HoldsRoot;
    ForestIsSound(d);
    DocumentList(d);
    if id != d.root {
      DetachTakesOut(d, id);
      DetachIgnoresRoot(d, id, id);
      NoneIsDead(d);
      var was := d.nodes[d.document].children;
      var gone := Detached(d, id);
      var cut := gone.(root := id);
      GoneFrom(d, gone, id, d.document);
      DetachKeepsFields(d, id);
      RemoveTwice(was, id);
      RemoveKeepsNoRepeats(was, id);
      RootListIs(cut, d.root, id, before);
      RootedIs(d, gone, RootPlaced(cut, d.root, id, before), id, before);
    }
  }

  lemma RootedIs(d: Dom, gone: Dom, r: Dom, id: Id, before: Id)
    requires d.document in d.nodes && NONE !in d.nodes && IsGone(d, gone, id) && gone.version == d.version
    requires r.document in r.nodes && r.root == id && r.version == d.version && gone.document == d.document
    requires var now := r.nodes[r.document].children;
             var cut := gone.(root := id);
             && OnlyList(cut, r, d.document, now)
             && HoldsRoot(RemoveAll(d.nodes[d.document].children, id), d.root != d.document, d.root, id, before, now)
             && Logs(cut, r, RootNotes(d.document, d.root, id, now))
    ensures IsRooted(d, Bumped(r), id, before)
  {
    hide HoldsRoot, RootNotes, Leaving, SameNodes, PointsTo, LeavesLists;
    var now := r.nodes[d.document].children;
    HoldsRootTwice(d.nodes[d.document].children, d.root != d.document, d.root, id, before, now);
    RootedPlaces(d, gone, gone.(root := id), r, id);
    LogsTwice(d, gone, r, Leaving(d, id), RootNotes(d.document, d.root, id, now));
  }

  lemma RootedPlaces(d: Dom, gone: Dom, cut: Dom, r: Dom, id: Id)
    requires IsGone(d, gone, id) && cut.nodes == gone.nodes && d.document in r.nodes && NONE !in d.nodes
    requires OnlyList(cut, r, d.document, r.nodes[d.document].children)
    ensures SameNodes(d, r) && PointsTo(d, r, id, NONE) && LeavesLists(d, r, id, d.document)
    ensures var b := Bumped(r); SameNodes(d, b) && PointsTo(d, b, id, NONE) && LeavesLists(d, b, id, d.document)
  {
    hide RemoveAll, Leaving, Logs;
    forall q | q in d.nodes && q != d.document ensures r.nodes[q].children == RemoveAll(d.nodes[q].children, id) {
      assert gone.nodes[q].children == RemoveAll(d.nodes[q].children, id);
    }
  }

  lemma HoldsRootTwice(was: seq<Id>, hasRoot: bool, previous: Id, id: Id, before: Id, now: seq<Id>)
    requires HoldsRoot(RemoveAll(was, id), hasRoot, previous, id, before, now)
    ensures HoldsRoot(was, hasRoot, previous, id, before, now)
  {
    RemoveTwice(was, id);
  }

  /** `remove_document_element`: the element leaves the Document's list, and the Document is the root. */
  lemma RootRemovedTakesOut(d: Dom)
    requires Forest(d)
    ensures d.document in d.nodes
    ensures var r := RootRemoved(d);
            && (d.root == d.document ==> r == d)
            && (d.root != d.document ==>
                  && r.root == d.document && r.version == d.version + 1
                  && OnlyList(d, r, d.document, RemoveAll(d.nodes[d.document].children, d.root))
                  && Logs(d, r, [Removed(d.document, d.root, IndexOf(d.nodes[d.document].children, d.root))]))
  {
    hide Forest, RemoveAll, IndexOf, OnlyList;
    DocumentList(d);
    assert d.log + [] == d.log;
    if d.root != d.document {
      WithListIs(d, RootRemoved(d), d.document, RemoveAll(d.nodes[d.document].children, d.root));
    }
  }

  // --- The parser's forms --------------------------------------------------------------

  /** A pair stays unless a detach parts its ends; a node without a parent is not detached. */
  ghost predicate KeepsForms(d: Dom, forms: seq<(Id, Id)>, c: Id)
    requires Sound(Parents(d.nodes)) && c in d.nodes
  {
    && (d.nodes[c].parent == NONE ==> forms == d.forms)
    && (FormsTogether(d) && d.nodes[c].parent != NONE ==>
          forall pair :: pair in forms <==>
            pair in d.forms && (Under(Parents(d.nodes), pair.0, c) <==> Under(Parents(d.nodes), pair.1, c)))
  }

  lemma DetachKeepsForms(d: Dom, c: Id)
    requires Forest(d) && c in d.nodes
    ensures Sound(Parents(d.nodes)) && KeepsForms(d, Detached(d, c).forms, c)
  {
    hide Forest, Under, Together;
    ForestIsSound(d);
    if FormsTogether(d) && d.nodes[c].parent != NONE {
      forall pair ensures pair in Detached(d, c).forms <==>
          pair in d.forms && (Under(Parents(d.nodes), pair.0, c) <==> Under(Parents(d.nodes), pair.1, c))
      {
        DetachSeversExactly(d, c, pair);
      }
    }
  }

  /** Every write that detaches a node keeps the forms so, and does nothing else to them. */
  lemma MovesKeepForms(d: Dom, p: Id, c: Id, before: Id)
    requires Forest(d) && c in d.nodes
    ensures Sound(Parents(d.nodes))
    ensures Appended(d, p, c).1 == Done ==> KeepsForms(d, Appended(d, p, c).0.forms, c)
    ensures InsertedBefore(d, p, c, before).1 == Done ==> KeepsForms(d, InsertedBefore(d, p, c, before).0.forms, c)
    ensures ChildRemoved(d, c).1 == Done ==> KeepsForms(d, ChildRemoved(d, c).0.forms, c)
  {
    hide Forest, KeepsForms, Detached, Sound, IsTooDeep, Under, HangNode, InsertAt;
    ForestIsSound(d);
    DetachKeepsForms(d, c);
  }

  lemma RootKeepsForms(d: Dom, c: Id, before: Id)
    requires Forest(d) && c in d.nodes && c != d.document && c != d.root
    ensures Sound(Parents(d.nodes)) && d.document in d.nodes
    ensures KeepsForms(d, RootSet(d, c, before).forms, c) && RootRemoved(d).forms == d.forms
  {
    hide Forest, KeepsForms, Detached, Sound, InsertAt, RemoveAll;
    ForestIsSound(d);
    NoneIsDead(d);
    DetachKeepsForms(d, c);
    DetachIgnoresRoot(d, c, c);
    DetachKeepsForest(d, c);
  }

  // --- New nodes ------------------------------------------------------------------------------

  /** A new node at the next handle, detached; every other node is as it was. */
  ghost predicate IsCreated(d: Dom, r: Dom, kind: Kind, tag: Bytes, mayHost: bool, text: Bytes) {
    && r.nodes.Keys == d.nodes.Keys + {d.next} && r.next == d.next + 1
    && (forall x :: x in d.nodes && x != d.next ==> r.nodes[x] == d.nodes[x])
    && var n := r.nodes[d.next];
       && n.kind == kind && n.tag == tag && n.mayHost == mayHost && n.text == text
       && n.parent == NONE && n.children == []
       && n.attributes == if kind == InstructionKind then AttributesFrom(text) else []
  }

  /** What a new node changes besides the slab: nothing. */
  ghost predicate SameAside(d: Dom, r: Dom) {
    && r.document == d.document && r.root == d.root && r.templates == d.templates && r.forms == d.forms
    && r.log == d.log && r.logging == d.logging && r.version == d.version
  }

  /** The `create_` calls. */
  lemma CreatedHolds(d: Dom, kind: Kind, tag: Bytes, mayHost: bool, text: Bytes)
    ensures var r := Created(d, NewNode(kind, tag, mayHost, text));
            && IsCreated(d, r, kind, tag, mayHost, text) && SameAside(d, r)
            && r.shadowRoots == d.shadowRoots && r.shadowHosts == d.shadowHosts
  {
    hide AttributesFrom;
  }

  /** `attach_shadow`: the refusals in order, by the true depth; else a new fragment and the host know each other. */
  lemma ShadowAttachedHolds(d: Dom, host: Id)
    requires Composed(d)
    ensures Sound(Ups(d))
    ensures var r := ShadowAttached(d, host);
            && r.1 == (if host !in d.nodes then NoSuchNode
                       else if d.nodes[host].kind != ElementKind || !d.nodes[host].mayHost then InvalidShadowHost
                       else if host in d.shadowRoots then ShadowRootExists
                       else if DepthOf(Ups(d), host) + 1 >= 512 then TooDeep
                       else Done)
            && (r.1 != Done ==> r.0 == d)
            && (r.1 == Done ==>
                  && IsCreated(d, r.0, FragmentKind, [], false, []) && SameAside(d, r.0)
                  && r.0.shadowRoots == d.shadowRoots[host := d.next]
                  && r.0.shadowHosts == d.shadowHosts[d.next := host])
  {
    hide *;
    ComposedIsSound(d);
    ShadowRefusals(d, host);
    ShadowKept(d, host);
    if ShadowAttached(d, host).1 == Done {
      CreatedHolds(d, FragmentKind, [], false, []);
      NewNodeIsFragment();
      LinksAside(d, host);
    }
  }

  lemma ShadowKept(d: Dom, host: Id)
    ensures var r := ShadowAttached(d, host);
            var made := Created(d, Node(FragmentKind, [], false, NONE, [], [], []));
            r.0 == if r.1 != Done then d
                   else made.(shadowRoots := d.shadowRoots[host := d.next],
                              shadowHosts := d.shadowHosts[d.next := host])
  {
    hide CappedDepth, Created;
  }

  lemma ShadowRefusals(d: Dom, host: Id)
    requires Composed(d) && Sound(Ups(d))
    ensures ShadowAttached(d, host).1 ==
              (if host !in d.nodes then NoSuchNode
               else if d.nodes[host].kind != ElementKind || !d.nodes[host].mayHost then InvalidShadowHost
               else if host in d.shadowRoots then ShadowRootExists
               else if DepthOf(Ups(d), host) + 1 >= 512 then TooDeep
               else Done)
  {
    hide Composed, Grounded, Closed, Created, ChainOf;
    ComposedIsSound(d);
    DepthIsCapped(d, host, MAX_DOM_DEPTH);
    MinIs(DepthOf(Ups(d), host));
    if host in d.shadowRoots && d.shadowRoots[host] == NONE {
      ShadowHostIsNew(d, host);
    }
  }

  lemma NewNodeIsFragment()
    ensures NewNode(FragmentKind, [], false, []) == Node(FragmentKind, [], false, NONE, [], [], [])
  {
  }

  lemma LinksAside(d: Dom, host: Id)
    ensures var made := Created(d, Node(FragmentKind, [], false, NONE, [], [], []));
            var r := made.(shadowRoots := d.shadowRoots[host := d.next], shadowHosts := d.shadowHosts[d.next := host]);
            && (IsCreated(d, made, FragmentKind, [], false, []) ==> IsCreated(d, r, FragmentKind, [], false, []))
            && (SameAside(d, made) ==> SameAside(d, r))
            && r.shadowRoots == d.shadowRoots[host := d.next] && r.shadowHosts == d.shadowHosts[d.next := host]
  {
  }

  // --- Data and attributes ------------------------------------------------------------------

  /** One node may hold other data and attributes; all else is as it was, the log and the forms apart. */
  ghost predicate OnlyHolds(d: Dom, r: Dom, id: Id) {
    && SameRest(d, r) && r.root == d.root && r.version == d.version + 1
    && r.nodes.Keys == d.nodes.Keys && id in d.nodes
    && (forall x :: x in d.nodes && x != id ==> r.nodes[x] == d.nodes[x])
    && var (n, m) := (d.nodes[id], r.nodes[id]);
       && m.kind == n.kind && m.tag == n.tag && m.mayHost == n.mayHost
       && m.parent == n.parent && m.children == n.children
  }

  /** `set_text`: the text is the value, and an instruction's attributes are read from it. */
  ghost predicate HoldsText(d: Dom, r: Dom, id: Id, value: Bytes, edit: Option<DataEdit>) {
    && OnlyHolds(d, r, id) && r.forms == d.forms
    && r.nodes[id].text == value
    && r.nodes[id].attributes ==
         (if d.nodes[id].kind == InstructionKind then AttributesFrom(value) else d.nodes[id].attributes)
    && Logs(d, r, [DataWritten(id, if edit.Some? then edit.value else
                     DataEdit(0, |Utf16.ToUnits(d.nodes[id].text)| % 0x1_0000_0000,
                              |Utf16.ToUnits(value)| % 0x1_0000_0000))])
  }

  lemma TextSetHolds(d: Dom, id: Id, value: Bytes, edit: Option<DataEdit>)
    ensures var r := TextSet(d, id, value, edit);
            && r.1 == (if id in d.nodes then Done else NoSuchNode)
            && (r.1 != Done ==> r.0 == d)
            && (r.1 == Done ==> HoldsText(d, r.0, id, value, edit))
  {
    hide AttributesFrom, Utf16.ToUnits;
    assert d.log + [] == d.log;
  }

  /** `k` is the place of the first attribute of a name. */
  predicate IsFirst(attributes: seq<Attribute>, name: Bytes, k: int) {
    0 <= k < |attributes| && attributes[k].name == name && forall j :: 0 <= j < k ==> attributes[j].name != name
  }

  /** A write of the attribute forgets the parser's form of anything but an `img`, if it is `form`. */
  ghost predicate ForgetsForm(d: Dom, forms: seq<(Id, Id)>, id: Id, name: Bytes)
    requires id in d.nodes
  {
    forall pair :: pair in forms <==>
      pair in d.forms && !(pair.0 == id && name == [0x66, 0x6F, 0x72, 0x6D] && d.nodes[id].tag != [0x69, 0x6D, 0x67])
  }

  /** The attributes are `now`; an instruction's data is written anew from them, and all is noted. */
  ghost predicate HoldsAttributes(d: Dom, r: Dom, id: Id, now: seq<Attribute>, name: Bytes, note: Note) {
    && OnlyHolds(d, r, id) && ForgetsForm(d, r.forms, id, name)
    && r.nodes[id].attributes == now
    && var instruction := d.nodes[id].kind == InstructionKind;
       && r.nodes[id].text == (if instruction then Serialized(now) else d.nodes[id].text)
       && Logs(d, r, (if instruction then [DataWritten(id, DataEdit(0, 0, 0))] else []) + [note])
  }

  lemma WriteHolds(d: Dom, id: Id, now: seq<Attribute>, name: Bytes, note: Note)
    requires id in d.nodes
    ensures var written := DataUpdated(WithNode(d, id, d.nodes[id].(attributes := now)), id);
            HoldsAttributes(d, Noted(Bumped(FormForgotten(written, id, name)), note), id, now, name, note)
  {
    hide Serialized, OnlyHolds, ForgetsForm, FormForgotten, DataUpdated, WithNode;
    var written := DataUpdated(WithNode(d, id, d.nodes[id].(attributes := now)), id);
    var forgotten := FormForgotten(written, id, name);
    var r := Noted(Bumped(forgotten), note);
    DataUpdatedIs(d, id, now);
    FormsForgotten(d, written, id, name);
    var data := if d.nodes[id].kind == InstructionKind then [DataWritten(id, DataEdit(0, 0, 0))] else [];
    Regroup(d.log, data, [note]);
    assert d.log + [] == d.log;
    HoldsOnly(d, r, id, written.nodes[id]);
  }

  lemma DataUpdatedIs(d: Dom, id: Id, now: seq<Attribute>)
    requires id in d.nodes
    ensures var n := d.nodes[id];
            var written := DataUpdated(WithNode(d, id, n.(attributes := now)), id);
            var instruction := n.kind == InstructionKind;
            && SameRest(d, written) && written.root == d.root && written.version == d.version
            && written.forms == d.forms
            && written.nodes ==
                 d.nodes[id := n.(attributes := now, text := if instruction then Serialized(now) else n.text)]
            && Logs(d, written, if instruction then [DataWritten(id, DataEdit(0, 0, 0))] else [])
  {
    hide Serialized;
    var n := d.nodes[id];
    var m := n.(attributes := now, text := if n.kind == InstructionKind then Serialized(now) else n.text);
    assert d.nodes[id := n.(attributes := now)][id := m] == d.nodes[id := m];
    assert d.log + [] == d.log;
  }

  lemma HoldsOnly(d: Dom, r: Dom, id: Id, m: Node)
    requires id in d.nodes && r.nodes == d.nodes[id := m] && SameRest(d, r)
    requires r.root == d.root && r.version == d.version + 1
    requires var n := d.nodes[id]; m == n.(attributes := m.attributes, text := m.text)
    ensures OnlyHolds(d, r, id)
  {
  }

  lemma FormsForgotten(d: Dom, written: Dom, id: Id, name: Bytes)
    requires id in d.nodes && id in written.nodes
    requires written.nodes[id].tag == d.nodes[id].tag && written.forms == d.forms
    ensures var r := FormForgotten(written, id, name);
            && ForgetsForm(d, r.forms, id, name)
            && r.nodes == written.nodes && SameRest(written, r) && r.root == written.root
            && r.version == written.version && r.log == written.log
  {
    hide Without;
  }

  /** The first attribute of the name has the value and all others are as they were, or there is one more. */
  ghost predicate IsWrittenTo(was: seq<Attribute>, name: Bytes, value: Bytes, now: seq<Attribute>) {
    if HasName(was, name) then
      && |now| == |was|
      && forall k :: 0 <= k < |was| ==> now[k] == if IsFirst(was, name, k) then Attribute(name, value) else was[k]
    else now == was + [Attribute(name, value)]
  }

  lemma NamePlaceIsFirst(attributes: seq<Attribute>, name: Bytes)
    ensures HasName(attributes, name) <==> NamePlace(attributes, name) < |attributes|
    ensures HasName(attributes, name) ==> IsFirst(attributes, name, NamePlace(attributes, name))
  {
  }

  lemma WrittenToIs(was: seq<Attribute>, name: Bytes, value: Bytes)
    ensures IsWrittenTo(was, name, value, AttributeWrittenTo(was, name, value))
  {
    NamePlaceIsFirst(was, name);
  }

  /** Whoever asks for the first attribute of the name finds the value that was set. */
  lemma SetValueIsFound(was: seq<Attribute>, name: Bytes, value: Bytes, now: seq<Attribute>)
    requires IsWrittenTo(was, name, value, now)
    ensures exists k :: IsFirst(now, name, k) && now[k].value == value
  {
    var k := NamePlace(was, name);
    NamePlaceIsFirst(was, name);
    assert IsFirst(now, name, k) && now[k].value == value;
  }

  /** The value is stored under the name, and the note says whether it was there. */
  ghost predicate HoldsValue(d: Dom, r: Dom, id: Id, name: Bytes, value: Bytes) {
    && id in d.nodes && id in r.nodes
    && var (was, now) := (d.nodes[id].attributes, r.nodes[id].attributes);
       && IsWrittenTo(was, name, value, now)
       && HoldsAttributes(d, r, id, now, name, AttributeWritten(id, name, HasName(was, name), false))
  }

  /** The first attribute of the name is gone, and the rest stand as they did. */
  ghost predicate LacksFirst(d: Dom, r: Dom, id: Id, name: Bytes) {
    && id in d.nodes && id in r.nodes
    && var (was, now) := (d.nodes[id].attributes, r.nodes[id].attributes);
       && (exists k :: IsFirst(was, name, k) && now == was[..k] + was[k + 1..])
       && HoldsAttributes(d, r, id, now, name, AttributeWritten(id, name, true, true))
  }

  /** `set_attribute`: done exactly for an element or an instruction, and then the value is stored. */
  lemma AttributeSetHolds(d: Dom, id: Id, name: Bytes, value: Bytes)
    ensures var r := AttributeSet(d, id, name, value);
            && r.1 == (if id !in d.nodes then NoSuchNode
                       else if d.nodes[id].kind != ElementKind && d.nodes[id].kind != InstructionKind then NotAnElement
                       else Done)
            && (r.1 != Done ==> r.0 == d)
            && (r.1 == Done ==> HoldsValue(d, r.0, id, name, value))
  {
    hide DataUpdated, FormForgotten, WithNode, AttributeWrittenTo, IsWrittenTo, HasName, NamePlace;
    if AttributeSet(d, id, name, value).1 == Done {
      var was := d.nodes[id].attributes;
      NamePlaceIsFirst(was, name);
      WrittenToIs(was, name, value);
      WriteHolds(d, id, AttributeWrittenTo(was, name, value), name,
                 AttributeWritten(id, name, HasName(was, name), false));
    }
  }

  /** `remove_attribute`: the first of the name goes, the rest stand; nothing at all when there is none. */
  lemma AttributeRemovedHolds(d: Dom, id: Id, name: Bytes)
    ensures var r := AttributeRemoved(d, id, name);
            && r.1 == (if id in d.nodes then Done else NoSuchNode)
            && (id !in d.nodes || !HasName(d.nodes[id].attributes, name) ==> r.0 == d)
            && (id in d.nodes && HasName(d.nodes[id].attributes, name) ==> LacksFirst(d, r.0, id, name))
  {
    hide DataUpdated, FormForgotten, WithNode, HasName, NamePlace, IsFirst;
    if id in d.nodes {
      var was := d.nodes[id].attributes;
      NamePlaceIsFirst(was, name);
      if HasName(was, name) {
        FirstInside(was, name, NamePlace(was, name));
        WriteHolds(d, id, RemoveAt(was, NamePlace(was, name)), name, AttributeWritten(id, name, true, true));
      }
    }
  }

  lemma FirstInside(attributes: seq<Attribute>, name: Bytes, k: int)
    requires IsFirst(attributes, name, k)
    ensures 0 <= k < |attributes|
  {
  }
}
