/**
  Whole runs of document operations, of any length and in any order: the document stays
  a forest, its log replays to its child lists, form associations stay inside one tree,
  processing instructions stay in step with their data, and no node reaches the cap.
 */
module DomRuns {
  import opened Options
  import opened Utf8
  import opened Lists
  import opened Chains
  import opened DomStore
  import opened DomForest
  import opened DomLog
  import opened DomForms
  import opened DomDepth
  import opened DomCap
  import opened DomRootCap
  import opened DomContents
  import opened PseudoAttributes
  import opened DomAttributes

  datatype Op =
    | Append(parent: Id, child: Id)
    | InsertBefore(parent: Id, child: Id, before: Id)
    | RemoveChild(child: Id)
    | SetRoot(id: Id, before: Id)
    | RemoveRoot
    | Create(kind: Kind, tag: Bytes, mayHost: bool, text: Bytes)
    | AttachShadow(host: Id)
    | SetText(id: Id, value: Bytes, edit: Option<DataEdit>)
    | SetAttribute(id: Id, name: Bytes, value: Bytes)
    | RemoveAttribute(id: Id, name: Bytes)
    | SetContents(element: Id, fragment: Id)
    | SetForm(element: Id, form: Id)

  /** A new node: a processing instruction starts with the attributes its data spells. */
  function NewNode(kind: Kind, tag: Bytes, mayHost: bool, text: Bytes): Node {
    Node(kind, tag, mayHost, NONE, [], if kind == InstructionKind then AttributesFrom(text) else [], text)
  }

  ghost function Step(d: Dom, op: Op): (r: Dom)
    requires Forest(d)
  {
    match op
    case Append(p, c) => Appended(d, p, c).0
    case InsertBefore(p, c, before) => InsertedBefore(d, p, c, before).0
    case RemoveChild(c) => ChildRemoved(d, c).0
    case SetRoot(id, before) => RootSet(d, id, before)
    case RemoveRoot => RootRemoved(d)
    case Create(kind, tag, mayHost, text) => Created(d, NewNode(kind, tag, mayHost, text))
    case AttachShadow(host) => ShadowAttached(d, host).0
    case SetText(id, value, edit) => TextSet(d, id, value, edit).0
    case SetAttribute(id, name, value) => AttributeSet(d, id, name, value).0
    case RemoveAttribute(id, name) => AttributeRemoved(d, id, name).0
    case SetContents(element, fragment) => ContentsSet(d, element, fragment)
    case SetForm(element, form) => FormSet(d, element, form)
  }

  /** What a caller must see to: insertions move no root and no Document, and the root is a live element. */
  ghost predicate Allowed(d: Dom, op: Op)
    requires Forest(d)
  {
    match op
    case Append(p, c) => Refusal(d, p, c) == Done ==> MayMove(d, c)
    case InsertBefore(p, c, _) => Refusal(d, p, c) == Done ==> MayMove(d, c)
    case SetRoot(id, _) => MayBeRoot(d, id)
    case _ => true
  }

  // --- One step ---------------------------------------------------------------------

  lemma LeavesTreePointers(d: Dom, r: Dom)
    requires LeavesTree(d, r)
    ensures Parents(r.nodes) == Parents(d.nodes)
  {
    assert forall x :: x in d.nodes ==> Parents(r.nodes)[x] == Parents(d.nodes)[x];
  }

  lemma LeavesTreeKeepsForest(d: Dom, r: Dom)
    requires Forest(d) && LeavesTree(d, r)
    ensures Forest(r)
  {
    hide Closed, Grounded, OnlyWriteNotes, Parents, NoRepeats;
    LeavesTreePointers(d, r);
    forall x | x in r.nodes
      ensures ListAgrees(r.nodes, r.document, r.root, x) && PointerAgrees(r.nodes, x)
    {
      assert ListAgrees(d.nodes, d.document, d.root, x) && PointerAgrees(d.nodes, x);
      forall c | c in r.nodes[x].children ensures BelongsTo(r.nodes, r.document, r.root, x, c) {
        assert BelongsTo(d.nodes, d.document, d.root, x, c);
      }
    }
    assert RootAgrees(r.nodes, r.document, r.root);
  }

  lemma WriteSteps(d: Dom, op: Op)
    requires Forest(d) && (op.SetText? || op.SetAttribute? || op.RemoveAttribute?)
    ensures LeavesTree(d, Step(d, op))
  {
    hide LeavesTree;
    match op
    case SetText(id, value, edit) => TextSetKeepsTree(d, id, value, edit);
    case SetAttribute(id, name, value) => AttributeSetKeepsTree(d, id, name, value);
    case RemoveAttribute(id, name) => AttributeRemovedKeepsTree(d, id, name);
  }

  /** The two writes that only record a pair leave the slab and the log alone. */
  lemma LinkSteps(d: Dom, op: Op)
    requires Forest(d) && (op.SetContents? || op.SetForm?)
    ensures var r := Step(d, op);
            && r.nodes == d.nodes && r.next == d.next && r.document == d.document && r.root == d.root
            && r.log == d.log && r.logging == d.logging && (op.SetContents? ==> r.forms == d.forms)
  {
  }

  lemma SameSlabSameForest(d: Dom, r: Dom)
    requires Forest(d)
    requires r.nodes == d.nodes && r.next == d.next && r.document == d.document && r.root == d.root
    ensures Forest(r)
  {
  }

  /** A step keeps the forest exactly when it is allowed. */
  lemma StepKeepsForestExactly(d: Dom, op: Op)
    requires Forest(d)
    ensures Forest(Step(d, op)) <==> Allowed(d, op)
  {
    hide Forest, LeavesTree;
    match op
    case Append(p, c) => AppendKeepsForestExactly(d, p, c); AppendedRefused(d, p, c);
    case InsertBefore(p, c, before) => InsertKeepsForestExactly(d, p, c, before); InsertedRefused(d, p, c, before);
    case RemoveChild(c) => RemoveKeepsForest(d, c);
    case SetRoot(id, before) => RootSetKeepsForestExactly(d, id, before);
    case RemoveRoot => RootRemovedKeepsForest(d);
    case Create(kind, tag, mayHost, text) => CreatedKeepsForest(d, NewNode(kind, tag, mayHost, text));
    case AttachShadow(host) => ShadowKeepsForest(d, host);
    case SetContents(_, _) => LinkSteps(d, op); SameSlabSameForest(d, Step(d, op));
    case SetForm(_, _) => LinkSteps(d, op); SameSlabSameForest(d, Step(d, op));
    case _ => WriteSteps(d, op); LeavesTreeKeepsForest(d, Step(d, op));
  }

  lemma AppendedRefused(d: Dom, p: Id, c: Id)
    requires Forest(d)
    ensures Sound(Parents(d.nodes)) && Appended(d, p, c).1 == Refusal(d, p, c)
  {
  }

  lemma InsertedRefused(d: Dom, p: Id, c: Id, before: Id)
    requires Forest(d)
    ensures Sound(Parents(d.nodes)) && InsertedBefore(d, p, c, before).1 == Refusal(d, p, c)
  {
  }

  // --- Runs -------------------------------------------------------------------------

  ghost predicate AllowedRun(d: Dom, ops: seq<Op>)
    requires Forest(d)
    decreases |ops|
  {
    ops == [] || (Allowed(d, ops[0]) && (StepKeepsForestExactly(d, ops[0]); AllowedRun(Step(d, ops[0]), ops[1..])))
  }

  ghost function Run(d: Dom, ops: seq<Op>): (r: Dom)
    requires Forest(d) && AllowedRun(d, ops)
    ensures Forest(r)
    decreases |ops|
  {
    if ops == [] then d else StepKeepsForestExactly(d, ops[0]); Run(Step(d, ops[0]), ops[1..])
  }

  lemma {:induction false} ReplayWrites(kids: Kids, notes: seq<Note>)
    requires forall i :: 0 <= i < |notes| ==> !IsTreeNote(notes[i])
    ensures Replay(kids, notes) == Lists(kids)
    decreases |notes|
  {
    if notes != [] {
      assert !IsTreeNote(notes[0]);
      ReplayWrites(kids, notes[1..]);
    }
  }

  lemma WritesAreLogged(d: Dom, r: Dom)
    requires LeavesTree(d, r)
    ensures Explains(d, r, r.log[|d.log|..])
  {
    var notes := r.log[|d.log|..];
    forall i | 0 <= i < |notes| ensures !IsTreeNote(notes[i]) {
      assert notes[i] == r.log[|d.log| + i];
    }
    ReplayWrites(ListsOf(d.nodes), notes);
    assert ListsOf(d.nodes) == ListsOf(r.nodes);
  }

  lemma StepIsLogged(d: Dom, op: Op) returns (notes: seq<Note>)
    requires Forest(d) && d.logging && Allowed(d, op)
    ensures Explains(d, Step(d, op), notes)
  {
    hide ForestOf, Explains, LeavesTree, FreshNext;
    notes := [];
    match op
    case Append(p, c) => notes := AppendIsLogged(d, p, c);
    case InsertBefore(p, c, before) => notes := InsertBeforeIsLogged(d, p, c, before);
    case RemoveChild(c) => notes := RemovalIsLogged(d, c);
    case SetRoot(id, before) => notes := RootSetIsLogged(d, id, before);
    case RemoveRoot => notes := RootRemovalIsLogged(d);
    case Create(kind, tag, mayHost, text) => CreationIsNotLogged(d, NewNode(kind, tag, mayHost, text));
    case AttachShadow(host) => ShadowIsNotLogged(d, host);
    case SetContents(_, _) => LinkSteps(d, op); NothingHappened(d, Step(d, op));
    case SetForm(_, _) => LinkSteps(d, op); NothingHappened(d, Step(d, op));
    case _ =>
      WriteSteps(d, op);
      WritesAreLogged(d, Step(d, op));
      notes := Step(d, op).log[|d.log|..];
  }

  /** Over any run with the log on, replaying what was logged gives the child lists there are. */
  lemma {:induction false} RunIsLogged(d: Dom, ops: seq<Op>) returns (notes: seq<Note>)
    requires Forest(d) && d.logging && AllowedRun(d, ops)
    ensures Explains(d, Run(d, ops), notes)
    decreases |ops|
  {
    hide Forest, Explains, Step;
    if ops == [] {
      notes := [];
      NothingHappened(d, d);
    } else {
      StepKeepsForestExactly(d, ops[0]);
      var next := Step(d, ops[0]);
      var first := StepIsLogged(d, ops[0]);
      LoggingStays(d, next, first);
      var rest := RunIsLogged(next, ops[1..]);
      ExplainsConcat(d, next, Run(d, ops), first, rest);
      notes := first + rest;
    }
  }

  lemma LoggingStays(d: Dom, r: Dom, notes: seq<Note>)
    requires Explains(d, r, notes)
    ensures r.logging == d.logging
  {
  }

  // --- Form associations ------------------------------------------------------------

  lemma AppendKeepsTogether(d: Dom, p: Id, c: Id)
    requires Forest(d) && FormsTogether(d)
    ensures Sound(Parents(Appended(d, p, c).0.nodes)) && FormsTogether(Appended(d, p, c).0)
  {
    ForestIsSound(d);
    hide ForestOf, FreshNext, FormsTogether, Detached, Placed, Closed, Grounded;
    if Refusal(d, p, c) == Done {
      DetachedForInsertion(d, p, c);
      MoveKeepsTogether(d, p, c, |Detached(d, c).nodes[p].children|);
    }
  }

  lemma InsertKeepsTogether(d: Dom, p: Id, c: Id, before: Id)
    requires Forest(d) && FormsTogether(d)
    ensures Sound(Parents(InsertedBefore(d, p, c, before).0.nodes)) && FormsTogether(InsertedBefore(d, p, c, before).0)
  {
    ForestIsSound(d);
    hide ForestOf, FreshNext, FormsTogether, Detached, Placed, Closed, Grounded;
    if Refusal(d, p, c) == Done {
      DetachedForInsertion(d, p, c);
      var reference := ReferenceFor(d.nodes[p].children, c, before);
      MoveKeepsTogether(d, p, c, IndexOf(Detached(d, c).nodes[p].children, reference));
    }
  }

  lemma RemoveKeepsTogether(d: Dom, c: Id)
    requires Forest(d) && FormsTogether(d)
    ensures Sound(Parents(ChildRemoved(d, c).0.nodes)) && FormsTogether(ChildRemoved(d, c).0)
  {
    ForestIsSound(d);
    hide ForestOf, FreshNext, FormsTogether, Detached, Closed, Grounded;
    if c in d.nodes && c != d.root {
      DetachKeepsTogether(d, c);
      ForestIsSound(Detached(d, c));
      SamePointersKeepTogether(Detached(d, c), Bumped(Detached(d, c)));
    }
  }

  lemma ShadowKeepsTogether(d: Dom, host: Id)
    requires Forest(d) && FormsTogether(d)
    ensures Sound(Parents(ShadowAttached(d, host).0.nodes)) && FormsTogether(ShadowAttached(d, host).0)
  {
    hide ForestOf, FreshNext, FormsTogether, Closed, Grounded, CappedDepth, Created;
    ForestIsSound(d);
    if ShadowAttached(d, host).1 == Done {
      var fragment := Node(FragmentKind, [], false, NONE, [], [], []);
      CreationKeepsTogether(d, fragment);
      ShadowTree(d, host);
      SamePointersKeepTogether(Created(d, fragment), ShadowAttached(d, host).0);
    }
  }

  lemma ShadowTree(d: Dom, host: Id)
    requires ShadowAttached(d, host).1 == Done
    ensures var r := Created(d, Node(FragmentKind, [], false, NONE, [], [], []));
            ShadowAttached(d, host).0.nodes == r.nodes && ShadowAttached(d, host).0.forms == r.forms
  {
  }

  lemma WriteKeepsTogether(d: Dom, r: Dom)
    requires Forest(d) && FormsTogether(d) && LeavesTree(d, r)
    ensures Sound(Parents(r.nodes)) && FormsTogether(r)
  {
    ForestIsSound(d);
    LeavesTreePointers(d, r);
    LeavesTreeForms(d, r);
    SamePointersKeepTogether(d, r);
  }

  /** The parser records a pair while both its ends are in one tree. */
  ghost predicate PairMeets(d: Dom, op: Op)
    requires Forest(d)
  {
    ForestIsSound(d);
    op.SetForm? ==> InOneTree(Parents(d.nodes), (op.element, op.form))
  }

  lemma StepKeepsTogether(d: Dom, op: Op)
    requires Forest(d) && FormsTogether(d) && Allowed(d, op) && PairMeets(d, op)
    ensures Forest(Step(d, op)) && FormsTogether(Step(d, op))
  {
    hide Forest, LeavesTree, FormsTogether, Closed, Grounded;
    StepKeepsForestExactly(d, op);
    match op
    case Append(p, c) => AppendKeepsTogether(d, p, c);
    case InsertBefore(p, c, before) => InsertKeepsTogether(d, p, c, before);
    case RemoveChild(c) => RemoveKeepsTogether(d, c);
    case SetRoot(id, before) => RootSetKeepsTogether(d, id, before);
    case RemoveRoot =>
      ForestIsSound(d);
      RootIsLive(d);
      RootRemovedPointers(d);
      SamePointersKeepTogether(d, Step(d, op));
    case Create(kind, tag, mayHost, text) => CreationKeepsTogether(d, NewNode(kind, tag, mayHost, text));
    case AttachShadow(host) => ShadowKeepsTogether(d, host);
    case SetContents(_, _) =>
      ForestIsSound(d);
      LinkSteps(d, op);
      SamePointersKeepTogether(d, Step(d, op));
    case SetForm(element, form) =>
      ForestIsSound(d);
      FormSetKeepsTogetherExactly(d, element, form);
    case _ =>
      WriteSteps(d, op);
      WriteKeepsTogether(d, Step(d, op));
  }

  lemma LeavesTreeForms(d: Dom, r: Dom)
    requires LeavesTree(d, r)
    ensures forall pair :: pair in r.forms ==> pair in d.forms
  {
  }

  ghost predicate PairsMeetRun(d: Dom, ops: seq<Op>)
    requires Forest(d) && AllowedRun(d, ops)
    decreases |ops|
  {
    ops == [] || (PairMeets(d, ops[0])
                  && (StepKeepsForestExactly(d, ops[0]); PairsMeetRun(Step(d, ops[0]), ops[1..])))
  }

  /** Over any run, the two ends of every form association that is left are in one tree. */
  lemma {:induction false} RunKeepsTogether(d: Dom, ops: seq<Op>)
    requires Forest(d) && FormsTogether(d) && AllowedRun(d, ops) && PairsMeetRun(d, ops)
    ensures FormsTogether(Run(d, ops))
    decreases |ops|
  {
    hide ForestOf, FreshNext, Step, FormsTogether, PairMeets;
    if ops != [] {
      StepKeepsTogether(d, ops[0]);
      RunKeepsTogether(Step(d, ops[0]), ops[1..]);
    }
  }

  // --- Processing instructions --------------------------------------------------------

  /** The nodes of `r` that `d` has too spell and hold what they did. */
  ghost predicate SameContents(d: Dom, r: Dom) {
    forall x :: x in d.nodes ==>
      && x in r.nodes && r.nodes[x].kind == d.nodes[x].kind
      && r.nodes[x].text == d.nodes[x].text && r.nodes[x].attributes == d.nodes[x].attributes
  }

  lemma ContentsTwice(a: Dom, b: Dom, c: Dom)
    requires SameContents(a, b) && SameContents(b, c)
    ensures SameContents(a, c)
  {
  }

  lemma DetachKeepsContents(d: Dom, c: Id)
    requires Sound(Parents(d.nodes)) && c in d.nodes
    ensures SameContents(d, Detached(d, c)) && Detached(d, c).nodes.Keys == d.nodes.Keys
  {
    hide Grounded, RemoveAll, Together, IndexOf;
    assert d.nodes[c].parent != NONE ==> Parents(d.nodes)[c] in Parents(d.nodes);
  }

  lemma PlacedKeepsContents(d: Dom, p: Id, c: Id, i: nat)
    requires p in d.nodes && c in d.nodes && i <= |d.nodes[p].children|
    ensures SameContents(d, Placed(d, p, c, i)) && Placed(d, p, c, i).nodes.Keys == d.nodes.Keys
  {
    HangKeys(d.nodes, p, c, i);
  }

  lemma RootPlacedKeepsContents(d: Dom, previous: Id, id: Id, before: Id)
    requires d.document in d.nodes
    ensures SameContents(d, RootPlaced(d, previous, id, before))
    ensures RootPlaced(d, previous, id, before).nodes.Keys == d.nodes.Keys
  {
    hide RemoveAll, IndexOf, InsertAt;
  }

  lemma SameContentsInStep(d: Dom, r: Dom)
    requires AllInStep(d) && SameContents(d, r) && r.nodes.Keys == d.nodes.Keys
    ensures AllInStep(r)
  {
    forall x | x in r.nodes ensures InStep(r.nodes[x]) {
      assert InStep(d.nodes[x]);
    }
  }

  lemma MoveKeepsContents(d: Dom, p: Id, c: Id, i: nat)
    requires Sound(Parents(d.nodes)) && p in d.nodes && c in d.nodes
    requires p in Detached(d, c).nodes && c in Detached(d, c).nodes && i <= |Detached(d, c).nodes[p].children|
    ensures var r := Placed(Detached(d, c), p, c, i); SameContents(d, r) && r.nodes.Keys == d.nodes.Keys
  {
    hide SameContents, Detached, Placed, Closed, Grounded;
    DetachKeepsContents(d, c);
    PlacedKeepsContents(Detached(d, c), p, c, i);
    ContentsTwice(d, Detached(d, c), Placed(Detached(d, c), p, c, i));
  }

  lemma SetRootKeepsContents(d: Dom, id: Id, before: Id)
    requires Forest(d)
    ensures Sound(Parents(d.nodes)) && d.document in d.nodes
    ensures SameContents(d, RootSet(d, id, before)) && RootSet(d, id, before).nodes.Keys == d.nodes.Keys
  {
    ForestIsSound(d);
    RootIsLive(d);
    hide Forest, SameContents, Detached, RootPlaced, Closed, Grounded;
    SelfContents(d, id);
    if id != d.document && id != d.root {
      var moved := d.(root := id);
      if id in d.nodes {
        DetachIgnoresRoot(d, id, id);
        DetachKeepsFields(d, id);
        DetachKeepsContents(moved, id);
        RootPlacedKeepsContents(Detached(moved, id), d.root, id, before);
        ContentsTwice(d, moved, Detached(moved, id));
        ContentsTwice(d, Detached(moved, id), RootPlaced(Detached(moved, id), d.root, id, before));
        BumpKeepsContents(d, RootPlaced(Detached(moved, id), d.root, id, before));
      } else {
        RootPlacedKeepsContents(moved, d.root, id, before);
        ContentsTwice(d, moved, RootPlaced(moved, d.root, id, before));
        BumpKeepsContents(d, RootPlaced(moved, d.root, id, before));
      }
    }
  }

  lemma SelfContents(d: Dom, root: Id)
    ensures SameContents(d, d) && SameContents(d, d.(root := root))
  {
  }

  lemma BumpKeepsContents(d: Dom, r: Dom)
    requires SameContents(d, r)
    ensures SameContents(d, Bumped(r)) && Bumped(r).nodes == r.nodes
  {
  }

  /** The operations on the tree change no data and no attributes. */
  lemma TreeStepKeepsContents(d: Dom, op: Op)
    requires Forest(d)
    requires op.Append? || op.InsertBefore? || op.RemoveChild? || op.SetRoot? || op.RemoveRoot?
    ensures SameContents(d, Step(d, op)) && Step(d, op).nodes.Keys == d.nodes.Keys
  {
    ForestIsSound(d);
    RootIsLive(d);
    hide Forest, SameContents, Detached, Placed, Closed, Grounded, IsTooDeep, RootSet;
    SelfContents(d, d.root);
    match op
    case Append(p, c) =>
      if Refusal(d, p, c) == Done {
        DetachKeepsContents(d, c);
        MoveKeepsContents(d, p, c, |Detached(d, c).nodes[p].children|);
      }
    case InsertBefore(p, c, before) =>
      if Refusal(d, p, c) == Done {
        DetachKeepsContents(d, c);
        var reference := ReferenceFor(d.nodes[p].children, c, before);
        MoveKeepsContents(d, p, c, IndexOf(Detached(d, c).nodes[p].children, reference));
      }
    case RemoveChild(c) =>
      if c in d.nodes && c != d.root {
        DetachKeepsContents(d, c);
        BumpKeepsContents(d, Detached(d, c));
      }
    case SetRoot(id, before) => SetRootKeepsContents(d, id, before);
    case RemoveRoot => RootRemovedKeepsContents(d);
  }

  lemma RootRemovedKeepsContents(d: Dom)
    requires d.document in d.nodes
    ensures SameContents(d, RootRemoved(d)) && RootRemoved(d).nodes.Keys == d.nodes.Keys
  {
    hide RemoveAll, IndexOf;
  }

  /** Attribute writes on a processing instruction use valid names. */
  predicate NamesValid(d: Dom, op: Op) {
    op.SetAttribute? && op.id in d.nodes && d.nodes[op.id].kind == InstructionKind ==> ValidName(op.name)
  }

  lemma WriteKeepsInStep(d: Dom, op: Op)
    requires Forest(d) && AllInStep(d) && NamesValid(d, op)
    requires op.SetText? || op.SetAttribute? || op.RemoveAttribute?
    ensures AllInStep(Step(d, op))
  {
    hide Forest, InStep, Step, NamesValid, OnlyWriteNotes;
    var r := Step(d, op);
    WriteSteps(d, op);
    forall x | x in r.nodes ensures InStep(r.nodes[x]) {
      assert InStep(d.nodes[x]);
      if x != op.id {
        WriteKeepsOthers(d, op, x);
      } else {
        WrittenInStep(d, op);
      }
    }
  }

  lemma WrittenInStep(d: Dom, op: Op)
    requires Forest(d) && (op.SetText? || op.SetAttribute? || op.RemoveAttribute?)
    requires op.id in d.nodes && InStep(d.nodes[op.id]) && NamesValid(d, op)
    ensures op.id in Step(d, op).nodes && InStep(Step(d, op).nodes[op.id])
  {
    hide Forest, AttributesFrom, ValidName, TextSet, AttributeRemoved;
    match op
    case SetText(id, value, edit) => SetTextKeepsStep(d, id, value, edit);
    case SetAttribute(id, name, value) => SetAttributeInStep(d, id, name, value);
    case RemoveAttribute(id, name) => RemoveAttributeKeepsStep(d, id, name);
  }

  lemma SetAttributeInStep(d: Dom, id: Id, name: Bytes, value: Bytes)
    requires id in d.nodes && InStep(d.nodes[id])
    requires d.nodes[id].kind == InstructionKind ==> ValidName(name)
    ensures var r := AttributeSet(d, id, name, value).0; id in r.nodes && InStep(r.nodes[id])
  {
    hide AttributesFrom, Serialized, ValidName, AttributeWrittenTo;
    if d.nodes[id].kind == InstructionKind {
      SetAttributeKeepsStepExactly(d, id, name, value);
    }
  }

  lemma WriteKeepsOthers(d: Dom, op: Op, x: Id)
    requires Forest(d) && x in d.nodes
    requires op.SetText? || op.SetAttribute? || op.RemoveAttribute?
    requires x != op.id
    ensures x in Step(d, op).nodes && Step(d, op).nodes[x] == d.nodes[x]
  {
    hide Forest, DataUpdated, FormForgotten, AttributesFrom, AttributeWrittenTo, RemoveAt;
    if op.id in d.nodes && !op.SetText? {
      var n := d.nodes[op.id];
      var i := NamePlace(n.attributes, op.name);
      if op.SetAttribute? {
        var changed := n.(attributes := AttributeWrittenTo(n.attributes, op.name, op.value));
        OtherNodesStay(d, op.id, changed, op.name, AttributeWritten(op.id, op.name, i < |n.attributes|, false), x);
      } else if i < |n.attributes| {
        var changed := n.(attributes := RemoveAt(n.attributes, i));
        OtherNodesStay(d, op.id, changed, op.name, AttributeWritten(op.id, op.name, true, true), x);
      }
    }
  }

  /** A step keeps every processing instruction's attributes those its data spells. */
  lemma StepKeepsInStep(d: Dom, op: Op)
    requires Forest(d) && AllInStep(d) && NamesValid(d, op)
    ensures AllInStep(Step(d, op))
  {
    hide Forest, AllInStep, SameContents, AttributesFrom;
    match op
    case Create(kind, tag, mayHost, text) => NewNodeInStep(d, NewNode(kind, tag, mayHost, text));
    case AttachShadow(host) => ShadowInStep(d, host);
    case SetText(_, _, _) => WriteKeepsInStep(d, op);
    case SetAttribute(_, _, _) => WriteKeepsInStep(d, op);
    case RemoveAttribute(_, _) => WriteKeepsInStep(d, op);
    case SetContents(_, _) => LinkSteps(d, op); SameNodesInStep(d, Step(d, op));
    case SetForm(_, _) => LinkSteps(d, op); SameNodesInStep(d, Step(d, op));
    case _ =>
      TreeStepKeepsContents(d, op);
      SameContentsInStep(d, Step(d, op));
  }

  lemma SameNodesInStep(d: Dom, r: Dom)
    requires AllInStep(d) && r.nodes == d.nodes
    ensures AllInStep(r)
  {
  }

  lemma NewNodeInStep(d: Dom, node: Node)
    requires AllInStep(d) && InStep(node)
    ensures AllInStep(Created(d, node))
  {
  }

  lemma ShadowInStep(d: Dom, host: Id)
    requires AllInStep(d)
    ensures AllInStep(ShadowAttached(d, host).0)
  {
  }

  ghost predicate NamesValidRun(d: Dom, ops: seq<Op>)
    requires Forest(d) && AllowedRun(d, ops)
    decreases |ops|
  {
    ops == [] || (NamesValid(d, ops[0])
                  && (StepKeepsForestExactly(d, ops[0]); NamesValidRun(Step(d, ops[0]), ops[1..])))
  }

  /** Over any run with valid names, every processing instruction holds the attributes its data spells. */
  lemma {:induction false} RunKeepsInStep(d: Dom, ops: seq<Op>)
    requires Forest(d) && AllInStep(d) && AllowedRun(d, ops) && NamesValidRun(d, ops)
    ensures AllInStep(Run(d, ops))
    decreases |ops|
  {
    hide Forest, Step, AllInStep, NamesValid;
    if ops != [] {
      StepKeepsForestExactly(d, ops[0]);
      StepKeepsInStep(d, ops[0]);
      RunKeepsInStep(Step(d, ops[0]), ops[1..]);
    }
  }

  // --- The depth cap ------------------------------------------------------------------

  /**
    A caller also refuses composed cycles and hosted fragments, and looks at the height of a
    new root and of a template's new contents.
   */
  ghost predicate AllowedBelowCap(d: Dom, op: Op)
    requires Capped(d)
  {
    match op
    case Append(p, c) => Refusal(d, p, c) == Done ==> MayHang(d, p, c)
    case InsertBefore(p, c, _) => Refusal(d, p, c) == Done ==> MayHang(d, p, c)
    case SetRoot(id, _) =>
      id == d.root || (IsNewRoot(d, id) && 1 + CappedHeight(d, id, MAX_DOM_DEPTH) < MAX_DOM_DEPTH)
    case SetContents(element, fragment) => MayHold(d, element, fragment) && !IsTooDeep(d, element, fragment)
    case _ => true
  }

  lemma LeavesTreeKeepsCap(d: Dom, r: Dom)
    requires Capped(d) && LeavesTree(d, r)
    ensures Capped(r)
  {
    hide *;
    CappedParts(d);
    LeavesTreeKeepsForest(d, r);
    LeavesTreeFrame(d, r);
    LeavesTreePointers(d, r);
    LeavesTreeUps(d, r);
    LeavesTreeHosts(d, r);
    forall x | x in r.nodes ensures DepthOf(Ups(r), x) < MAX_DOM_DEPTH {
      FrameKeepsHosted(d, r, x);
      BoundAt(d, x);
    }
    MakeCapped(r);
  }

  lemma LeavesTreeFrame(d: Dom, r: Dom)
    requires LeavesTree(d, r)
    ensures SameFrame(d, r) && r.root == d.root
  {
  }

  lemma LeavesTreeUps(d: Dom, r: Dom)
    requires LeavesTree(d, r)
    ensures Ups(r) == Ups(d)
  {
    hide OnlyWriteNotes;
    forall x | x in d.nodes ensures Up(r, x) == Up(d, x) {
    }
  }

  lemma LeavesTreeHosts(d: Dom, r: Dom)
    requires Composed(d) && LeavesTree(d, r)
    ensures ShadowsAgree(r) && TemplatesAgree(r)
    ensures r.document in r.nodes && r.nodes[r.document].kind == DocumentKind
  {
    RootIsLive(d);
    HostedIsNotRoot(d);
    HostsStayAgreed(d, r);
  }

  lemma StepKeepsCap(d: Dom, op: Op)
    requires Capped(d) && AllowedBelowCap(d, op)
    ensures Forest(d) && Capped(Step(d, op))
  {
    hide Capped, Composed, Forest, LeavesTree, MayHang, IsNewRoot;
    CappedParts(d);
    match op
    case Append(p, c) => AppendedRefused(d, p, c); AppendKeepsCap(d, p, c);
    case InsertBefore(p, c, before) => InsertedRefused(d, p, c, before); InsertKeepsCap(d, p, c, before);
    case RemoveChild(c) => RemoveKeepsCap(d, c);
    case SetRoot(id, before) =>
      if id == d.root {
        SameRootChangesNothing(d, before);
      } else {
        RootSetKeepsCapExactly(d, id, before);
      }
    case RemoveRoot => RootRemovedKeepsCap(d);
    case Create(kind, tag, mayHost, text) => CreatedKeepsCap(d, NewNode(kind, tag, mayHost, text));
    case AttachShadow(host) => ShadowKeepsCap(d, host);
    case SetContents(element, fragment) => ContentsSetKeepsCapExactly(d, element, fragment);
    case SetForm(element, form) => FormsDoNotMatter(d, element, form);
    case _ => WriteSteps(d, op); LeavesTreeKeepsCap(d, Step(d, op));
  }

  lemma FormsDoNotMatter(d: Dom, element: Id, form: Id)
    requires Capped(d)
    ensures Capped(FormSet(d, element, form))
  {
    hide *;
    CappedParts(d);
    var r := FormSet(d, element, form);
    FormSetFrame(d, element, form);
    forall x | x in r.nodes ensures DepthOf(Ups(r), x) < MAX_DOM_DEPTH {
      BoundAt(d, x);
    }
    MakeCapped(r);
  }

  lemma FormSetFrame(d: Dom, element: Id, form: Id)
    requires Composed(d)
    ensures var r := FormSet(d, element, form);
            && r.nodes == d.nodes && Forest(r) && Ups(r) == Ups(d) && r.document == d.document
            && r.document in r.nodes && r.nodes[r.document].kind == DocumentKind
            && ShadowsAgree(r) && TemplatesAgree(r)
  {
    var r := FormSet(d, element, form);
    ComposedAgrees(d);
    SameSlabSameForest(d, r);
    hide Forest;
    FormSetUps(d, element, form);
    FormSetHosts(d, element, form);
  }

  lemma FormSetUps(d: Dom, element: Id, form: Id)
    ensures Ups(FormSet(d, element, form)) == Ups(d)
  {
    forall x | x in d.nodes ensures Up(FormSet(d, element, form), x) == Up(d, x) {
    }
  }

  lemma FormSetHosts(d: Dom, element: Id, form: Id)
    requires ShadowsAgree(d) && TemplatesAgree(d)
    ensures ShadowsAgree(FormSet(d, element, form)) && TemplatesAgree(FormSet(d, element, form))
  {
    var r := FormSet(d, element, form);
    assert forall x :: IsHostable(d, x) ==> IsHostable(r, x);
  }

  lemma SameRootChangesNothing(d: Dom, before: Id)
    requires Forest(d)
    ensures Sound(Parents(d.nodes)) && d.document in d.nodes && RootSet(d, d.root, before) == d
  {
  }

  ghost predicate RunAllowedBelowCap(d: Dom, ops: seq<Op>)
    requires Capped(d)
    decreases |ops|
  {
    ops == [] || (AllowedBelowCap(d, ops[0])
                  && (StepKeepsCap(d, ops[0]); RunAllowedBelowCap(Step(d, ops[0]), ops[1..])))
  }

  /** Over any run whose caller refuses composed cycles, no node reaches the cap, at any point of it. */
  lemma {:induction false} RunKeepsCap(d: Dom, ops: seq<Op>)
    requires Capped(d) && RunAllowedBelowCap(d, ops)
    ensures AllowedRun(d, ops) && Capped(Run(d, ops))
    decreases |ops|
  {
    hide Forest, Capped, Composed, Step, MayHang, DepthBound, Grounded, Sound, Allowed;
    CappedParts(d);
    if ops != [] {
      StepKeepsCap(d, ops[0]);
      CappedParts(Step(d, ops[0]));
      StepKeepsForestExactly(d, ops[0]);
      RunKeepsCap(Step(d, ops[0]), ops[1..]);
    }
  }
}
