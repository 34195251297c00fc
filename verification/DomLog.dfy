/**
  The write log tells what happened to the child lists: replaying the logged insertions
  and removals in order on the lists there were gives the lists there are, and every
  logged removal finds its child at its index.
 */
module DomLog {
  import opened Lists
  import opened Chains
  import opened DomStore
  import opened DomForest

  /** Child lists by node; a node without an entry has no children. */
  type Kids = map<Id, seq<Id>>

  datatype Replayed = Stuck | Lists(kids: Kids)

  function ListsOf(nodes: Nodes): Kids {
    map p | p in nodes :: nodes[p].children
  }

  function At(kids: Kids, p: Id): seq<Id> { if p in kids then kids[p] else [] }

  /** One logged edit on the lists; stuck when a removal does not find its child at its index. */
  function ReplayOne(kids: Kids, note: Note): Replayed {
    match note
    case Inserted(p, c, i) =>
      if i <= |At(kids, p)| then Lists(kids[p := InsertAt(At(kids, p), i, c)]) else Stuck
    case Removed(p, c, i) =>
      if i < |At(kids, p)| && At(kids, p)[i] == c then Lists(kids[p := RemoveAt(At(kids, p), i)]) else Stuck
    case _ => Lists(kids)
  }

  function Replay(kids: Kids, notes: seq<Note>): Replayed
    decreases |notes|
  {
    if notes == [] then Lists(kids)
    else
      var r := ReplayOne(kids, notes[0]);
      if r.Stuck? then Stuck else Replay(r.kids, notes[1..])
  }

  ghost predicate SameLists(a: Kids, b: Kids) { forall p :: At(a, p) == At(b, p) }

  /** The log of `after` is that of `before` and some notes, which replay the one's lists into the other's. */
  ghost predicate Explains(before: Dom, after: Dom, notes: seq<Note>) {
    && after.logging == before.logging
    && after.log == before.log + notes
    && var r := Replay(ListsOf(before.nodes), notes);
       r.Lists? && SameLists(r.kids, ListsOf(after.nodes))
  }

  lemma {:induction false} ReplayOfSame(a: Kids, b: Kids, notes: seq<Note>)
    requires SameLists(a, b)
    ensures Replay(a, notes).Stuck? <==> Replay(b, notes).Stuck?
    ensures Replay(a, notes).Lists? ==> SameLists(Replay(a, notes).kids, Replay(b, notes).kids)
    decreases |notes|
  {
    if notes != [] {
      SameAfterOne(a, b, notes[0]);
      var r, s := ReplayOne(a, notes[0]), ReplayOne(b, notes[0]);
      if r.Lists? {
        ReplayOfSame(r.kids, s.kids, notes[1..]);
      }
    }
  }

  lemma SameAfterOne(a: Kids, b: Kids, note: Note)
    requires SameLists(a, b)
    ensures ReplayOne(a, note).Stuck? <==> ReplayOne(b, note).Stuck?
    ensures ReplayOne(a, note).Lists? ==> SameLists(ReplayOne(a, note).kids, ReplayOne(b, note).kids)
  {
    if note.Inserted? || note.Removed? {
      assert At(a, note.parent) == At(b, note.parent);
      var r, s := ReplayOne(a, note), ReplayOne(b, note);
      if r.Lists? {
        forall p ensures At(r.kids, p) == At(s.kids, p) {
          assert At(a, p) == At(b, p);
        }
      }
    }
  }

  lemma {:induction false} ReplayConcat(kids: Kids, first: seq<Note>, second: seq<Note>)
    ensures Replay(kids, first + second) ==
            var r := Replay(kids, first); if r.Stuck? then Stuck else Replay(r.kids, second)
    decreases |first|
  {
    if first == [] {
      assert first + second == second;
    } else {
      assert (first + second)[1..] == first[1..] + second;
      var r := ReplayOne(kids, first[0]);
      if r.Lists? {
        ReplayConcat(r.kids, first[1..], second);
      }
    }
  }

  /** Explanations follow one another. */
  lemma ExplainsConcat(a: Dom, b: Dom, c: Dom, first: seq<Note>, second: seq<Note>)
    requires Explains(a, b, first) && Explains(b, c, second)
    ensures Explains(a, c, first + second)
  {
    hide SameLists, ListsOf;
    ReplayConcat(ListsOf(a.nodes), first, second);
    var r := Replay(ListsOf(a.nodes), first).kids;
    ReplayOfSame(r, ListsOf(b.nodes), second);
    SameIsTransitive(Replay(r, second).kids, Replay(ListsOf(b.nodes), second).kids, ListsOf(c.nodes));
    assert c.log == a.log + (first + second);
  }

  lemma SameIsTransitive(a: Kids, b: Kids, c: Kids)
    requires SameLists(a, b) && SameLists(b, c)
    ensures SameLists(a, c)
  {
    forall p ensures At(a, p) == At(c, p) {
      assert At(a, p) == At(b, p);
    }
  }

  lemma NothingHappened(before: Dom, after: Dom)
    requires after.logging == before.logging && after.log == before.log
    requires forall x :: ChildrenOf(after.nodes, x) == ChildrenOf(before.nodes, x)
    ensures Explains(before, after, [])
  {
    assert before.log + [] == before.log;
    forall p ensures At(ListsOf(before.nodes), p) == At(ListsOf(after.nodes), p) {
      assert ChildrenOf(after.nodes, p) == ChildrenOf(before.nodes, p);
    }
  }

  /** One note explains one changed list. */
  lemma OneNote(before: Dom, after: Dom, note: Note, p: Id)
    requires after.logging == before.logging && after.log == before.log + [note]
    requires p in before.nodes && after.nodes.Keys == before.nodes.Keys
    requires forall x :: x in before.nodes && x != p ==> after.nodes[x].children == before.nodes[x].children
    requires ReplayOne(ListsOf(before.nodes), note).Lists?
    requires ReplayOne(ListsOf(before.nodes), note).kids == ListsOf(before.nodes)[p := after.nodes[p].children]
    ensures Explains(before, after, [note])
  {
    var kids := ListsOf(before.nodes)[p := after.nodes[p].children];
    assert [note][1..] == [];
    forall x ensures At(kids, x) == At(ListsOf(after.nodes), x) {
    }
  }

  // --- Each step --------------------------------------------------------------

  lemma DetachIsLogged(d: Dom, c: Id) returns (notes: seq<Note>)
    requires Forest(d) && d.logging && c in d.nodes
    ensures Sound(Parents(d.nodes)) && Explains(d, Detached(d, c), notes)
  {
    ForestIsSound(d);
    var p := d.nodes[c].parent;
    if p == NONE {
      notes := [];
      NothingHappened(d, d);
    } else {
      assert PointerAgrees(d.nodes, c) && ListAgrees(d.nodes, d.document, d.root, p);
      DetachedNodes(d, c);
      hide ForestOf, Grounded, Closed, ListAgrees, Detached, Explains, Parents, CutNode, NoRepeats;
      notes := [Removed(p, c, IndexOf(d.nodes[p].children, c))];
      CutListsAt(d.nodes, c);
      RemovalReplays(d, Detached(d, c), p, c);
    }
  }

  /** A child taken out of its list, and the note of it. */
  lemma RemovalReplays(d: Dom, r: Dom, p: Id, c: Id)
    requires p in d.nodes && NoRepeats(d.nodes[p].children) && c in d.nodes[p].children
    requires r.logging == d.logging && r.log == d.log + [Removed(p, c, IndexOf(d.nodes[p].children, c))]
    requires r.nodes.Keys == d.nodes.Keys && r.nodes[p].children == RemoveAll(d.nodes[p].children, c)
    requires forall x :: x in d.nodes && x != p ==> r.nodes[x].children == d.nodes[x].children
    ensures Explains(d, r, [Removed(p, c, IndexOf(d.nodes[p].children, c))])
  {
    hide Explains, NoRepeats, RemoveAll;
    RemoveOnce(d.nodes[p].children, c);
    OneNote(d, r, Removed(p, c, IndexOf(d.nodes[p].children, c)), p);
  }

  lemma DetachedNodes(d: Dom, c: Id)
    requires Sound(Parents(d.nodes)) && c in d.nodes && d.nodes[c].parent != NONE && d.logging
    ensures d.nodes[c].parent in d.nodes
    ensures var p, r := d.nodes[c].parent, Detached(d, c);
            && r.nodes == CutNode(d.nodes, c) && r.logging
            && r.log == d.log + [Removed(p, c, IndexOf(d.nodes[p].children, c))]
  {
  }

  lemma CutListsAt(nodes: Nodes, c: Id)
    requires c in nodes && nodes[c].parent in nodes
    ensures CutNode(nodes, c).Keys == nodes.Keys
    ensures forall q :: q in nodes ==>
              CutNode(nodes, c)[q].children ==
              if q == nodes[c].parent then RemoveAll(nodes[q].children, c) else nodes[q].children
  {
  }

  lemma PlacementIsLogged(d: Dom, p: Id, c: Id, i: nat)
    requires d.logging && p in d.nodes && c in d.nodes && p != c && i <= |d.nodes[p].children|
    ensures Explains(d, Placed(d, p, c, i), [Inserted(p, c, i)])
  {
    HangKeys(d.nodes, p, c, i);
    forall q | q in d.nodes
      ensures HangNode(d.nodes, p, c, i)[q].children ==
              if q == p then InsertAt(d.nodes[p].children, i, c) else d.nodes[q].children
    {
      HangListsAt(d.nodes, p, c, i, q);
    }
    OneNote(d, Placed(d, p, c, i), Inserted(p, c, i), p);
  }

  lemma PlacedAfterDetachIsLogged(d: Dom, p: Id, c: Id, i: nat) returns (notes: seq<Note>)
    requires Forest(d) && d.logging && Refusal(d, p, c) == Done
    requires p in Detached(d, c).nodes && c in Detached(d, c).nodes && i <= |Detached(d, c).nodes[p].children|
    ensures Explains(d, Placed(Detached(d, c), p, c, i), notes)
  {
    hide ForestOf, Explains, Detached, Placed, IsTooDeep;
    ForestIsSound(d);
    ChainStarts(Parents(d.nodes), p);
    DetachKeepsFields(d, c);
    var first := DetachIsLogged(d, c);
    var cut := Detached(d, c);
    PlacementIsLogged(cut, p, c, i);
    ExplainsConcat(d, cut, Placed(cut, p, c, i), first, [Inserted(p, c, i)]);
    notes := first + [Inserted(p, c, i)];
  }

  lemma AppendIsLogged(d: Dom, p: Id, c: Id) returns (notes: seq<Note>)
    requires Forest(d) && d.logging
    ensures Explains(d, Appended(d, p, c).0, notes)
  {
    ForestIsSound(d);
    hide ForestOf, Explains, Detached, Placed, IsTooDeep, Closed, Grounded, Parents, FreshNext;
    if Refusal(d, p, c) == Done {
      DetachedForInsertion(d, p, c);
      notes := PlacedAfterDetachIsLogged(d, p, c, |Detached(d, c).nodes[p].children|);
    } else {
      notes := [];
      NothingHappened(d, d);
    }
  }

  lemma MoveIsLogged(d: Dom, p: Id, c: Id, reference: Id) returns (notes: seq<Note>)
    requires Forest(d) && d.logging && Refusal(d, p, c) == Done
    ensures Explains(d, MovedBefore(d, p, c, reference), notes)
  {
    ForestIsSound(d);
    hide ForestOf, Explains, Detached, Placed, IsTooDeep, Closed, Grounded, Parents, FreshNext;
    DetachedForInsertion(d, p, c);
    notes := PlacedAfterDetachIsLogged(d, p, c, IndexOf(Detached(d, c).nodes[p].children, reference));
  }

  lemma InsertBeforeIsLogged(d: Dom, p: Id, c: Id, before: Id) returns (notes: seq<Note>)
    requires Forest(d) && d.logging
    ensures Explains(d, InsertedBefore(d, p, c, before).0, notes)
  {
    ForestIsSound(d);
    hide Forest, Explains, MovedBefore, Refusal, Closed, Grounded;
    if Refusal(d, p, c) == Done {
      RefusalNeedsBoth(d, p, c);
      notes := MoveIsLogged(d, p, c, ReferenceFor(d.nodes[p].children, c, before));
    } else {
      notes := [];
      NothingHappened(d, d);
    }
  }

  lemma RefusalNeedsBoth(d: Dom, p: Id, c: Id)
    requires Sound(Parents(d.nodes)) && Refusal(d, p, c) == Done
    ensures p in d.nodes && c in d.nodes
  {
  }

  lemma BumpIsNotLogged(d: Dom, r: Dom, notes: seq<Note>)
    requires Explains(d, r, notes)
    ensures Explains(d, Bumped(r), notes)
  {
  }

  lemma RemovalIsLogged(d: Dom, c: Id) returns (notes: seq<Note>)
    requires Forest(d) && d.logging
    ensures Explains(d, ChildRemoved(d, c).0, notes)
  {
    hide ForestOf, Explains, Detached;
    if c in d.nodes && c != d.root {
      notes := DetachIsLogged(d, c);
      BumpIsNotLogged(d, Detached(d, c), notes);
    } else {
      notes := [];
      NothingHappened(d, d);
    }
  }

  /** Taking over a slot is a removal and an insertion at one index. */
  lemma SlotTaken(items: seq<Id>, slot: nat, id: Id)
    requires slot < |items|
    ensures InsertAt(RemoveAt(items, slot), slot, id) == items[slot := id]
  {
    var gap := RemoveAt(items, slot);
    assert gap[..slot] == items[..slot] && gap[slot..] == items[slot + 1..];
  }

  lemma RootTakesSlot(d: Dom, previous: Id, id: Id, before: Id) returns (notes: seq<Note>)
    requires d.logging && d.document in d.nodes && id !in d.nodes[d.document].children
    requires previous in d.nodes[d.document].children
    ensures Explains(d, RootPlaced(d, previous, id, before), notes)
  {
    hide RemoveAll, Explains, IndexOf, Replay;
    var items := d.nodes[d.document].children;
    RemoveAbsent(items, id);
    var slot := IndexOf(items, previous);
    var gone, come := Removed(d.document, previous, slot), Inserted(d.document, id, slot);
    var between := d.(log := d.log + [gone], nodes := WithChildren(d.nodes, d.document, RemoveAt(items, slot)));
    var r := RootPlaced(d, previous, id, before);
    assert r.log == between.log + [come];
    SlotTaken(items, slot, id);
    hide RootPlaced, InsertAt, RemoveAt;
    OneNote(d, between, gone, d.document);
    OneNote(between, r, come, d.document);
    ExplainsConcat(d, between, r, [gone], [come]);
    notes := [gone] + [come];
  }

  lemma RootPlacementIsLogged(d: Dom, previous: Id, id: Id, before: Id) returns (notes: seq<Note>)
    requires d.logging && d.document in d.nodes && id !in d.nodes[d.document].children
    ensures Explains(d, RootPlaced(d, previous, id, before), notes)
  {
    var items := d.nodes[d.document].children;
    RemoveAbsent(items, id);
    if previous in items {
      notes := RootTakesSlot(d, previous, id, before);
    } else {
      hide RemoveAll, Explains;
      var at := IndexOf(items, before);
      OneNote(d, RootPlaced(d, previous, id, before), Inserted(d.document, id, at), d.document);
      notes := [Inserted(d.document, id, at)];
    }
  }

  lemma RootSetIsLogged(d: Dom, id: Id, before: Id) returns (notes: seq<Note>)
    requires Forest(d) && d.logging && MayBeRoot(d, id)
    ensures Explains(d, RootSet(d, id, before), notes)
  {
    ForestIsSound(d);
    if id == d.document || id == d.root {
      notes := [];
      NothingHappened(d, RootSet(d, id, before));
    } else {
      hide ForestOf, Explains, Detached, RootPlaced, Parents, Closed, Grounded;
      DetachKeepsForest(d, id);
      DetachKeepsFields(d, id);
      DetachIgnoresRoot(d, id, id);
      var cut := Detached(d, id);
      TopIsInNoList(cut, id, d.document);
      var first := DetachIsLogged(d, id);
      RootIsNotLogged(d, cut, id, first);
      var second := RootPlacementIsLogged(cut.(root := id), d.root, id, before);
      var r := RootPlaced(cut.(root := id), d.root, id, before);
      ExplainsConcat(d, cut.(root := id), r, first, second);
      BumpIsNotLogged(d, r, first + second);
      notes := first + second;
    }
  }

  lemma RootIsNotLogged(d: Dom, r: Dom, root: Id, notes: seq<Note>)
    requires Explains(d, r, notes)
    ensures Explains(d, r.(root := root), notes)
  {
  }

  lemma RootRemovalIsLogged(d: Dom) returns (notes: seq<Note>)
    requires Forest(d) && d.logging
    ensures Explains(d, RootRemoved(d), notes)
  {
    if d.root == d.document {
      notes := [];
      NothingHappened(d, d);
    } else {
      assert ListAgrees(d.nodes, d.document, d.root, d.document);
      hide Grounded, ListAgrees, PointerAgrees, NoRepeats, Explains;
      RemovalReplays(d, RootRemoved(d), d.document, d.root);
      notes := [Removed(d.document, d.root, IndexOf(d.nodes[d.document].children, d.root))];
    }
  }

  lemma CreationIsNotLogged(d: Dom, node: Node)
    requires FreshNext(d)
    ensures Explains(d, Created(d, node), [])
  {
    NothingHappened(d, Created(d, node));
  }

  lemma ShadowIsNotLogged(d: Dom, host: Id)
    requires FreshNext(d)
    ensures Explains(d, ShadowAttached(d, host).0, [])
  {
    NothingHappened(d, ShadowAttached(d, host).0);
  }
}
