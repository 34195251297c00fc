/**
  The parser's form associations: a detach ends exactly those it tears apart, before
  anything is inserted again, so the two ends of every pair that is left are always in
  one tree.
 */
module DomForms {
  import opened Chains
  import opened DomStore
  import opened DomForest

  type Pair = (Id, Id)

  ghost predicate InOneTree(up: Links, pair: Pair)
    requires Grounded(up)
  {
    TopOf(up, pair.0) == TopOf(up, pair.1)
  }

  /** Both ends of every recorded pair are in one tree. */
  ghost predicate FormsTogether(d: Dom)
    requires Grounded(Parents(d.nodes))
  {
    forall pair :: pair in d.forms ==> InOneTree(Parents(d.nodes), pair)
  }

  lemma {:induction false} TogetherKeeps(forms: seq<Pair>, up: Links, pair: Pair)
    requires Grounded(up)
    ensures pair in Together(forms, up) <==> pair in forms && InOneTree(up, pair)
  {
    if forms != [] {
      TogetherKeeps(forms[1..], up, pair);
    }
  }

  /** A pair in one tree is torn apart by a cut when one end hangs below it and the other does not. */
  lemma CutTears(up: Links, c: Id, pair: Pair)
    requires Sound(up) && c in up && InOneTree(up, pair)
    ensures Sound(up[c := NONE])
    ensures InOneTree(up[c := NONE], pair) <==> (Under(up, pair.0, c) <==> Under(up, pair.1, c))
  {
    TopAfterCut(up, c, pair.0);
    TopAfterCut(up, c, pair.1);
  }

  /** `detach` keeps a pair exactly when both or neither of its ends move. */
  lemma DetachSeversExactly(d: Dom, c: Id, pair: Pair)
    requires Forest(d) && FormsTogether(d) && c in d.nodes && d.nodes[c].parent != NONE
    ensures Sound(Parents(d.nodes))
    ensures pair in Detached(d, c).forms <==>
            pair in d.forms && (Under(Parents(d.nodes), pair.0, c) <==> Under(Parents(d.nodes), pair.1, c))
  {
    ForestIsSound(d);
    var up := Parents(d.nodes);
    CutNodeParents(d.nodes, c);
    CutKeepsSound(up, c);
    TogetherKeeps(d.forms, up[c := NONE], pair);
    if pair in d.forms {
      CutTears(up, c, pair);
    }
  }

  lemma DetachKeepsTogether(d: Dom, c: Id)
    requires Forest(d) && FormsTogether(d) && c in d.nodes
    ensures Sound(Parents(d.nodes)) && Forest(Detached(d, c)) && FormsTogether(Detached(d, c))
  {
    DetachKeepsForest(d, c);
    if d.nodes[c].parent != NONE {
      var cut := Parents(CutNode(d.nodes, c));
      CutNodeParents(d.nodes, c);
      CutKeepsSound(Parents(d.nodes), c);
      forall pair | pair in Together(d.forms, cut) ensures InOneTree(cut, pair) {
        TogetherKeeps(d.forms, cut, pair);
      }
    }
  }

  lemma PlacedKeepsTogether(d: Dom, p: Id, c: Id, i: nat)
    requires Forest(d) && FormsTogether(d)
    requires p in d.nodes && c in d.nodes && i <= |d.nodes[p].children|
    requires d.nodes[c].parent == NONE && TopOf(Parents(d.nodes), p) != c
    ensures Sound(Parents(Placed(d, p, c, i).nodes)) && FormsTogether(Placed(d, p, c, i))
  {
    ForestIsSound(d);
    var up := Parents(d.nodes);
    HangNodeParents(d.nodes, p, c, i);
    HangKeepsSound(up, c, p);
    forall pair | pair in d.forms ensures InOneTree(up[c := p], pair) {
      Hang(up, c, p, pair.0);
      Hang(up, c, p, pair.1);
    }
  }

  /** Moving a node is a detach, and an insertion that joins no two ends again. */
  lemma MoveKeepsTogether(d: Dom, p: Id, c: Id, i: nat)
    requires Forest(d) && FormsTogether(d) && Refusal(d, p, c) == Done
    requires i <= |Detached(d, c).nodes[p].children|
    ensures var r := Placed(Detached(d, c), p, c, i);
            r.forms == Detached(d, c).forms && Sound(Parents(r.nodes)) && FormsTogether(r)
  {
    hide ForestOf, FreshNext, Detached, IsTooDeep, FormsTogether;
    DetachedForInsertion(d, p, c);
    DetachKeepsTogether(d, c);
    PlacedKeepsTogether(Detached(d, c), p, c, i);
  }

  /** Same pointers, same pairs: nothing is torn apart. */
  lemma SamePointersKeepTogether(d: Dom, r: Dom)
    requires Grounded(Parents(d.nodes)) && FormsTogether(d)
    requires Parents(r.nodes) == Parents(d.nodes)
    requires forall pair :: pair in r.forms ==> pair in d.forms
    ensures FormsTogether(r)
  {
  }

  /** `set_parser_form` asks nothing: the pair must be in one tree when it is recorded. */
  lemma FormSetKeepsTogetherExactly(d: Dom, element: Id, form: Id)
    requires Grounded(Parents(d.nodes)) && FormsTogether(d)
    ensures FormsTogether(FormSet(d, element, form)) <==> InOneTree(Parents(d.nodes), (element, form))
  {
    hide InOneTree;
    var r := FormSet(d, element, form);
    assert r.forms[|d.forms|] == (element, form);
    forall pair | pair in r.forms ensures pair in d.forms || pair == (element, form) {
    }
  }

  lemma AddKeepsTops(up: Links, n: Id, x: Id)
    requires Sound(up) && n !in up && n != NONE
    ensures Sound(up[n := NONE]) && TopOf(up[n := NONE], x) == TopOf(up, x)
  {
    hide Sound, ChainOf;
    AddKeepsChain(up, n, x);
  }

  lemma CreationKeepsTogether(d: Dom, node: Node)
    requires Forest(d) && FormsTogether(d)
    ensures Sound(Parents(Created(d, node).nodes)) && FormsTogether(Created(d, node))
  {
    ForestIsSound(d);
    var up := Parents(d.nodes);
    CreatedPointers(d, node);
    assert d.next !in up && d.next != NONE;
    hide Closed, Grounded, Forest, TopOf;
    forall pair | pair in d.forms ensures InOneTree(up[d.next := NONE], pair) {
      assert InOneTree(up, pair);
      AddKeepsTops(up, d.next, pair.0);
      AddKeepsTops(up, d.next, pair.1);
    }
  }

  lemma RootSetKeepsTogether(d: Dom, id: Id, before: Id)
    requires Forest(d) && FormsTogether(d) && MayBeRoot(d, id)
    ensures Sound(Parents(RootSet(d, id, before).nodes)) && FormsTogether(RootSet(d, id, before))
  {
    ForestIsSound(d);
    RootSetKeepsForestExactly(d, id, before);
    ForestIsSound(RootSet(d, id, before));
    if id == d.document || id == d.root {
      SamePointersKeepTogether(d, RootSet(d, id, before));
    } else {
      hide ForestOf, Detached, FormsTogether, Grounded, Closed;
      DetachKeepsForest(d, id);
      DetachKeepsTogether(d, id);
      DetachIgnoresRoot(d, id, id);
      DetachKeepsFields(d, id);
      RootPlacedPointers(Detached(d, id).(root := id), d.root, id, before);
      SamePointersKeepTogether(Detached(d, id), RootSet(d, id, before));
    }
  }
}
