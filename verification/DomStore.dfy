/**
  The document's state and what each operation of ctbrowser/lib/DOM/document.cpp makes
  of it. A node is an entry of the slab, addressed by its handle; the methods that
  change the slab in place are in module Document.
 */
module DomStore {
  import opened Utf8
  import opened Lists
  import opened Chains

  const MAX_DOM_DEPTH: nat := 512

  datatype Kind =
    | DocumentKind | ElementKind | TextKind | CommentKind
    | FragmentKind | DoctypeKind | InstructionKind | CDataKind

  /** An attribute in no namespace; an atom is its text. */
  datatype Attribute = Attribute(name: Bytes, value: Bytes)

  /** `mayHost` is what the shadow host test says of the element's namespace and local name. */
  datatype Node = Node(
    kind: Kind,
    tag: Bytes,
    mayHost: bool,
    parent: Id,
    children: seq<Id>,
    attributes: seq<Attribute>,
    text: Bytes)

  type Nodes = map<Id, Node>

  /** A replaced part of a node's data, in UTF-16 code units. */
  datatype DataEdit = DataEdit(offset: nat, count: nat, added: nat)

  /** One entry of the write log. */
  datatype Note =
    | Inserted(parent: Id, child: Id, index: nat)
    | Removed(parent: Id, child: Id, index: nat)
    | AttributeWritten(node: Id, name: Bytes, existed: bool, removal: bool)
    | DataWritten(node: Id, edit: DataEdit)

  datatype Dom = Dom(
    nodes: Nodes,
    next: Id,
    document: Id,
    root: Id,
    shadowRoots: map<Id, Id>,
    shadowHosts: map<Id, Id>,
    templates: seq<(Id, Id)>,
    forms: seq<(Id, Id)>,
    log: seq<Note>,
    logging: bool,
    version: nat)

  /** The error an operation gives back, or none. */
  datatype Outcome =
    | Done | NoSuchNode | NotAnElement | WouldCycle | IsRoot | InvalidShadowHost | ShadowRootExists | TooDeep

  // --- Reading the state --------------------------------------------------------

  function Parents(nodes: Nodes): (up: Links)
    ensures up.Keys == nodes.Keys
    ensures forall x :: x in nodes ==> up[x] == nodes[x].parent
  {
    map x | x in nodes :: nodes[x].parent
  }

  function ChildrenOf(nodes: Nodes, x: Id): seq<Id> { if x in nodes then nodes[x].children else [] }

  /** The first pair with this first half: its second half. */
  function SecondOf(pairs: seq<(Id, Id)>, a: Id): Id {
    if pairs == [] then NONE else if pairs[0].0 == a then pairs[0].1 else SecondOf(pairs[1..], a)
  }

  /** The first pair with this second half: its first half. */
  function FirstOf(pairs: seq<(Id, Id)>, b: Id): Id {
    if pairs == [] then NONE else if pairs[0].1 == b then pairs[0].0 else FirstOf(pairs[1..], b)
  }

  /** `template_of`. */
  function TemplateOf(d: Dom, fragment: Id): Id {
    if fragment == NONE then NONE else FirstOf(d.templates, fragment)
  }

  /** `up`: the parent, the Document for the document element, the host for a shadow root or contents. */
  function Up(d: Dom, x: Id): Id {
    if x !in d.nodes then NONE
    else if x == d.root && x != d.document then d.document
    else if d.nodes[x].parent != NONE || d.nodes[x].kind != FragmentKind then d.nodes[x].parent
    else if x in d.shadowHosts then d.shadowHosts[x]
    else TemplateOf(d, x)
  }

  function Ups(d: Dom): (up: Links)
    ensures up.Keys == d.nodes.Keys
    ensures forall x :: x in d.nodes ==> up[x] == Up(d, x)
  {
    map x | x in d.nodes :: Up(d, x)
  }

  /** `depth`: steps up, at most `most` of them. */
  function CappedDepth(d: Dom, x: Id, most: nat): (n: nat)
    ensures n <= most
    decreases most
  {
    if most == 0 || Up(d, x) == NONE then 0 else 1 + CappedDepth(d, Up(d, x), most - 1)
  }

  /** The nodes one level below: the children, then a shadow root, then template contents. */
  function Below(d: Dom, x: Id): (kids: seq<Id>) {
    if x !in d.nodes then []
    else
      var n := d.nodes[x];
      if n.kind != ElementKind then n.children
      else
        n.children
        + (if x in d.shadowRoots && d.shadowRoots[x] != NONE then [d.shadowRoots[x]] else [])
        + (if SecondOf(d.templates, x) != NONE then [SecondOf(d.templates, x)] else [])
  }

  /** `height`: the longest way down, at most `most` steps. */
  function CappedHeight(d: Dom, x: Id, most: nat): (n: nat)
    ensures n <= most
    decreases most, 0
  {
    if most == 0 then 0 else TallestOf(d, Below(d, x), most - 1)
  }

  /** One more than the tallest of some nodes, zero for none. */
  function TallestOf(d: Dom, kids: seq<Id>, most: nat): (n: nat)
    ensures n <= most + 1
    decreases most, 1, |kids|
  {
    if kids == [] then 0
    else
      var first, rest := 1 + CappedHeight(d, kids[0], most), TallestOf(d, kids[1..], most);
      if first < rest then rest else first
  }

  /** `too_deep`. */
  predicate IsTooDeep(d: Dom, parent: Id, child: Id) {
    CappedDepth(d, parent, MAX_DOM_DEPTH) + 1 + CappedHeight(d, child, MAX_DOM_DEPTH) >= MAX_DOM_DEPTH
  }

  // --- The invariant --------------------------------------------------------------

  /** Only the document element stands in a list without pointing back. */
  predicate BelongsTo(nodes: Nodes, document: Id, root: Id, p: Id, c: Id) {
    c in nodes && if c == root && root != document then p == document else nodes[c].parent == p
  }

  /** The list of `p` holds each child once, and only children of `p`. */
  ghost predicate ListAgrees(nodes: Nodes, document: Id, root: Id, p: Id)
    requires p in nodes
  {
    && NoRepeats(nodes[p].children)
    && forall c :: c in nodes[p].children ==> BelongsTo(nodes, document, root, p, c)
  }

  /** A node that points to a parent stands in its list. */
  predicate PointerAgrees(nodes: Nodes, c: Id)
    requires c in nodes
  {
    nodes[c].parent != NONE ==> nodes[c].parent in nodes && c in nodes[nodes[c].parent].children
  }

  /** The document element is a live top node, under the Document if there is one. */
  predicate RootAgrees(nodes: Nodes, document: Id, root: Id) {
    && document in nodes && nodes[document].parent == NONE
    && root in nodes && nodes[root].parent == NONE
    && (root != document ==> root in nodes[document].children)
  }

  /** Child lists and parent pointers agree, and no chain of parents is a cycle. */
  ghost predicate ForestOf(nodes: Nodes, document: Id, root: Id) {
    && NONE !in nodes
    && RootAgrees(nodes, document, root)
    && (forall p :: p in nodes ==> ListAgrees(nodes, document, root, p))
    && (forall c :: c in nodes ==> PointerAgrees(nodes, c))
    && Sound(Parents(nodes))
  }

  /** Handles are handed out in order. */
  ghost predicate FreshNext(d: Dom) { d.next != NONE && forall x :: x in d.nodes ==> x < d.next }

  ghost predicate Forest(d: Dom) {
    ForestOf(d.nodes, d.document, d.root) && FreshNext(d)
  }

  /** The parent pointers of a forest end. */
  lemma ForestIsSound(d: Dom)
    requires Forest(d)
    ensures Sound(Parents(d.nodes)) && Grounded(Parents(d.nodes)) && Closed(Parents(d.nodes))
  {
  }

  // --- Writing the state ------------------------------------------------------------

  /** A note in the log, when it is on. */
  function Noted(d: Dom, note: Note): Dom {
    if d.logging then d.(log := d.log + [note]) else d
  }

  function Bumped(d: Dom): Dom { d.(version := d.version + 1) }

  function WithChildren(nodes: Nodes, p: Id, kids: seq<Id>): (r: Nodes)
    requires p in nodes
  {
    nodes[p := nodes[p].(children := kids)]
  }

  function WithParent(nodes: Nodes, c: Id, p: Id): (r: Nodes)
    requires c in nodes
  {
    nodes[c := nodes[c].(parent := p)]
  }

  /** The child leaves its parent's list and lets go of it. */
  function CutNode(nodes: Nodes, c: Id): (r: Nodes)
    requires c in nodes && nodes[c].parent in nodes
  {
    var p := nodes[c].parent;
    WithParent(WithChildren(nodes, p, RemoveAll(nodes[p].children, c)), c, NONE)
  }

  /** The child enters a list at a place and points to its parent. */
  function HangNode(nodes: Nodes, p: Id, c: Id, i: nat): (r: Nodes)
    requires p in nodes && c in nodes && i <= |nodes[p].children|
  {
    WithParent(WithChildren(nodes, p, InsertAt(nodes[p].children, i, c)), c, p)
  }

  lemma CutNodeParents(nodes: Nodes, c: Id)
    requires c in nodes && nodes[c].parent in nodes
    ensures Parents(CutNode(nodes, c)) == Parents(nodes)[c := NONE]
  {
  }

  lemma HangNodeParents(nodes: Nodes, p: Id, c: Id, i: nat)
    requires p in nodes && c in nodes && i <= |nodes[p].children|
    ensures Parents(HangNode(nodes, p, c, i)) == Parents(nodes)[c := p]
  {
  }

  /** The pairs whose two ends are in one tree. */
  ghost function Together(forms: seq<(Id, Id)>, up: Links): (r: seq<(Id, Id)>)
    requires Grounded(up)
  {
    if forms == [] then []
    else
      var rest := Together(forms[1..], up);
      if TopOf(up, forms[0].0) == TopOf(up, forms[0].1) then [forms[0]] + rest else rest
  }

  /** `detach`. */
  ghost function Detached(d: Dom, c: Id): (r: Dom)
    requires Sound(Parents(d.nodes)) && c in d.nodes
  {
    var p := d.nodes[c].parent;
    if p == NONE then d
    else
      CutNodeParents(d.nodes, c);
      CutKeepsSound(Parents(d.nodes), c);
      var nodes := CutNode(d.nodes, c);
      Noted(d, Removed(p, c, IndexOf(d.nodes[p].children, c)))
        .(nodes := nodes, forms := Together(d.forms, Parents(nodes)))
  }

  /** What the insertions do once the child is detached: its place, its parent, the note. */
  function Placed(d: Dom, p: Id, c: Id, i: nat): (r: Dom)
    requires p in d.nodes && c in d.nodes && i <= |d.nodes[p].children|
  {
    Bumped(Noted(d, Inserted(p, c, i)).(nodes := HangNode(d.nodes, p, c, i)))
  }

  /** Why an insertion is refused, if it is. */
  ghost function Refusal(d: Dom, p: Id, c: Id): (o: Outcome)
    requires Sound(Parents(d.nodes))
  {
    if p !in d.nodes || c !in d.nodes then NoSuchNode
    else if Under(Parents(d.nodes), p, c) then WouldCycle
    else if IsTooDeep(d, p, c) then TooDeep
    else Done
  }

  /** `append_child`. */
  ghost function Appended(d: Dom, p: Id, c: Id): (r: (Dom, Outcome))
    requires Sound(Parents(d.nodes))
  {
    var o := Refusal(d, p, c);
    if o != Done then (d, o)
    else
      var cut := Detached(d, c);
      (Placed(cut, p, c, |cut.nodes[p].children|), Done)
  }

  /** The sibling after `c`, or none. */
  function NextSibling(items: seq<Id>, c: Id): Id {
    var i := IndexOf(items, c);
    if i + 1 < |items| then items[i + 1] else NONE
  }

  /** The child moved to just before a reference in the parent's list, or to its end. */
  ghost function MovedBefore(d: Dom, p: Id, c: Id, reference: Id): (r: Dom)
    requires Sound(Parents(d.nodes)) && p in d.nodes && c in d.nodes
  {
    var cut := Detached(d, c);
    Placed(cut, p, c, IndexOf(cut.nodes[p].children, reference))
  }

  /** Inserting a node before itself means before its next sibling. */
  function ReferenceFor(items: seq<Id>, c: Id, before: Id): Id {
    if before == c then NextSibling(items, c) else before
  }

  /** `insert_before`. */
  ghost function InsertedBefore(d: Dom, p: Id, c: Id, before: Id): (r: (Dom, Outcome))
    requires Sound(Parents(d.nodes))
  {
    var o := Refusal(d, p, c);
    if o != Done then (d, o)
    else (MovedBefore(d, p, c, ReferenceFor(d.nodes[p].children, c, before)), Done)
  }

  /** `remove_child`. */
  ghost function ChildRemoved(d: Dom, c: Id): (r: (Dom, Outcome))
    requires Sound(Parents(d.nodes))
  {
    if c !in d.nodes then (d, NoSuchNode)
    else if c == d.root then (d, IsRoot)
    else (Bumped(Detached(d, c)), Done)
  }

  /** The Document's list once the old element's slot, or a place before `before`, is taken by `id`. */
  function RootPlaced(d: Dom, previous: Id, id: Id, before: Id): (r: Dom)
    requires d.document in d.nodes
  {
    var items := RemoveAll(d.nodes[d.document].children, id);
    var slot := IndexOf(items, previous);
    if slot < |items| then
      Noted(Noted(d, Removed(d.document, previous, slot)), Inserted(d.document, id, slot))
        .(nodes := WithChildren(d.nodes, d.document, items[slot := id]))
    else
      var at := IndexOf(items, before);
      Noted(d, Inserted(d.document, id, at))
        .(nodes := WithChildren(d.nodes, d.document, InsertAt(items, at, id)))
  }

  /** `set_document_element`. */
  ghost function RootSet(d: Dom, id: Id, before: Id): (r: Dom)
    requires Sound(Parents(d.nodes)) && d.document in d.nodes
  {
    var moved := d.(root := id);
    if id == d.document || id == d.root then moved
    else
      var cut := if id in d.nodes then Detached(moved, id) else moved;
      Bumped(RootPlaced(cut, d.root, id, before))
  }

  /** `remove_document_element`. */
  function RootRemoved(d: Dom): (r: Dom)
    requires d.document in d.nodes
  {
    if d.root == d.document then d
    else
      var items := d.nodes[d.document].children;
      var at := IndexOf(items, d.root);
      var noted := if at < |items| then Noted(d, Removed(d.document, d.root, at)) else d;
      Bumped(noted.(nodes := WithChildren(d.nodes, d.document, RemoveAll(items, d.root)), root := d.document))
  }

  /** Where the first pair with this first half is, or the end. */
  function KeyIndex(pairs: seq<(Id, Id)>, a: Id): (i: nat)
    ensures i <= |pairs|
    ensures i < |pairs| ==> pairs[i].0 == a
    ensures forall j :: 0 <= j < i ==> pairs[j].0 != a
  {
    if pairs == [] || pairs[0].0 == a then 0 else 1 + KeyIndex(pairs[1..], a)
  }

  /** The pairs with `(a, b)` in the place of the first that starts at `a`, or behind them all. */
  function PairSet(pairs: seq<(Id, Id)>, a: Id, b: Id): (r: seq<(Id, Id)>) {
    var i := KeyIndex(pairs, a);
    if i < |pairs| then pairs[i := (a, b)] else pairs + [(a, b)]
  }

  /** `set_template_content`. */
  function ContentsSet(d: Dom, element: Id, fragment: Id): (r: Dom) {
    d.(templates := PairSet(d.templates, element, fragment))
  }

  /** `set_parser_form`. */
  function FormSet(d: Dom, element: Id, form: Id): (r: Dom) { d.(forms := d.forms + [(element, form)]) }

  /** A new node, detached: the slab never hands out a handle twice. */
  function Created(d: Dom, node: Node): (r: Dom) {
    d.(nodes := d.nodes[d.next := node.(parent := NONE, children := [])], next := d.next + 1)
  }

  /** `attach_shadow`; a refused call creates nothing. */
  function ShadowAttached(d: Dom, host: Id): (r: (Dom, Outcome)) {
    if host !in d.nodes then (d, NoSuchNode)
    else if d.nodes[host].kind != ElementKind || !d.nodes[host].mayHost then (d, InvalidShadowHost)
    else if host in d.shadowRoots && d.shadowRoots[host] != NONE then (d, ShadowRootExists)
    else if CappedDepth(d, host, MAX_DOM_DEPTH) + 1 >= MAX_DOM_DEPTH then (d, TooDeep)
    else
      var fragment := Node(FragmentKind, [], false, NONE, [], [], []);
      (Created(d, fragment).(shadowRoots := d.shadowRoots[host := d.next],
                             shadowHosts := d.shadowHosts[d.next := host]), Done)
  }
}
