/**
  The document of ctbrowser/lib/DOM/document.cpp: its fields and the methods that change
  them in place. Every method is proved to leave the state the functions of modules
  DomStore and DomAttributes give, about which modules DomForest, DomLog, DomForms,
  DomRootCap and DomRuns prove what holds over whole runs.
 */
module Document {
  import opened Options
  import opened Utf8
  import Utf16
  import opened Lists
  import opened Chains
  import opened DomStore
  import opened DomForest
  import opened DomForms
  import opened DomDepth
  import opened DomCap
  import opened DomContents
  import opened DomEffects
  import opened DomWalks
  import opened PseudoAttributes
  import opened DomAttributes
  import opened DomRuns

  class Document {
    var nodes: Nodes
    var next: Id
    const documentNode: Id
    var root: Id
    var shadowRoots: map<Id, Id>
    var shadowHosts: map<Id, Id>
    var templates: seq<(Id, Id)>
    var parserForms: seq<(Id, Id)>
    var writesLog: seq<Note>
    var logWrites: bool
    var version: nat

    /** The state as a value. */
    ghost function View(): Dom
      reads this
    {
      Dom(nodes, next, documentNode, root, shadowRoots, shadowHosts, templates, parserForms,
          writesLog, logWrites, version)
    }

    ghost predicate Valid()
      reads this
    {
      Forest(View())
    }

    /** An empty document: the Document node, which is its own root. */
    constructor ()
      ensures Valid() && fresh(this)
      ensures root == documentNode && nodes.Keys == {documentNode} && nodes[documentNode].kind == DocumentKind
      ensures writesLog == [] && parserForms == [] && !logWrites
      ensures Capped(View()) && AllInStep(View())
      ensures Sound(Parents(nodes)) && FormsTogether(View())
    {
      hide Forest, Capped, AllInStep, FormsTogether, Sound, Grounded, Closed, IsChain;
      documentNode := 1;
      nodes := map[1 := Node(DocumentKind, [], false, NONE, [], [], [])];
      next := 2;
      root := 1;
      shadowRoots, shadowHosts, templates := map[], map[], [];
      parserForms, writesLog, logWrites, version := [], [], false, 1;
      new;
      EmptyIsCapped(View());
    }

    /** What every run starts from. */
    static lemma EmptyIsCapped(d: Dom)
      requires d.nodes == map[1 := Node(DocumentKind, [], false, NONE, [], [], [])]
      requires d.next == 2 && d.document == 1 && d.root == 1
      requires d.shadowRoots == map[] && d.shadowHosts == map[] && d.templates == [] && d.forms == []
      ensures Forest(d) && Capped(d) && AllInStep(d) && Sound(Parents(d.nodes)) && FormsTogether(d)
    {
      hide Forest, IsChain, Capped, ChainOf, Closed, Grounded, AttributesFrom;
      EmptyIsForest(d);
      ForestIsSound(d);
      EmptyLinks(d);
      TopAlone(Ups(d), 1);
      MakeCapped(d);
    }

    static lemma EmptyLinks(d: Dom)
      requires d.nodes == map[1 := Node(DocumentKind, [], false, NONE, [], [], [])] && d.root == 1 && d.document == 1
      ensures Ups(d) == Parents(d.nodes) && Next(Ups(d), 1) == NONE
    {
    }

    static lemma EmptyIsForest(d: Dom)
      requires d.nodes == map[1 := Node(DocumentKind, [], false, NONE, [], [], [])]
      requires d.next == 2 && d.document == 1 && d.root == 1
      ensures Forest(d)
    {
      assert IsChainFrom(Parents(d.nodes), 1, [1]);
    }

    // --- Notes --------------------------------------------------------------------

    /** `log_writes`. */
    method LogWrites(on: bool)
      requires Valid()
      modifies this`logWrites, this`writesLog
      ensures Valid() && logWrites == on && writesLog == if on then old(writesLog) else []
    {
      logWrites := on;
      if !on {
        writesLog := [];
      }
    }

    /** `take_writes`. */
    method TakeWrites() returns (notes: seq<Note>)
      requires Valid()
      modifies this`writesLog
      ensures Valid() && notes == old(writesLog) && writesLog == []
    {
      notes := writesLog;
      writesLog := [];
    }

    /** `note_edit` and `note_write`. */
    method AddNote(note: Note)
      modifies this`writesLog
      ensures View() == Noted(old(View()), note)
    {
      if logWrites {
        writesLog := writesLog + [note];
      }
    }

    // --- Walks --------------------------------------------------------------------

    /** `template_content`. */
    method TemplateContent(element: Id) returns (fragment: Id)
      ensures fragment == SecondOf(templates, element)
    {
      var i := 0;
      while i < |templates|
        invariant i <= |templates|
        invariant SecondOf(templates[i..], element) == SecondOf(templates, element)
      {
        if templates[i].0 == element {
          return templates[i].1;
        }
        assert templates[i..][1..] == templates[i + 1..];
        i := i + 1;
      }
      return NONE;
    }

    /** `template_of`. */
    method TemplateOfFragment(fragment: Id) returns (element: Id)
      ensures element == TemplateOf(View(), fragment)
    {
      if fragment == NONE {
        return NONE;
      }
      var i := 0;
      while i < |templates|
        invariant i <= |templates|
        invariant FirstOf(templates[i..], fragment) == FirstOf(templates, fragment)
      {
        if templates[i].1 == fragment {
          return templates[i].0;
        }
        assert templates[i..][1..] == templates[i + 1..];
        i := i + 1;
      }
      return NONE;
    }

    /** `up`. */
    method UpFrom(id: Id) returns (above: Id)
      ensures above == Up(View(), id)
    {
      if id !in nodes {
        return NONE;
      }
      if id == root && id != documentNode {
        return documentNode;
      }
      if nodes[id].parent != NONE || nodes[id].kind != FragmentKind {
        return nodes[id].parent;
      }
      if id in shadowHosts {
        return shadowHosts[id];
      }
      above := TemplateOfFragment(id);
    }

    /** `depth`. */
    method Depth(id: Id) returns (levels: nat)
      ensures levels == CappedDepth(View(), id, MAX_DOM_DEPTH)
    {
      levels := 0;
      ghost var last := id;
      var at := UpFrom(id);
      while at != NONE && levels < MAX_DOM_DEPTH
        invariant levels <= MAX_DOM_DEPTH && at == Up(View(), last)
        invariant levels + CappedDepth(View(), last, MAX_DOM_DEPTH - levels)
               == CappedDepth(View(), id, MAX_DOM_DEPTH)
        decreases MAX_DOM_DEPTH - levels
      {
        last := at;
        levels := levels + 1;
        at := UpFrom(at);
      }
    }

    /** The nodes `height` walks down to from one node. */
    method NodesBelow(at: Id) returns (kids: seq<Id>)
      ensures kids == Below(View(), at)
    {
      if at !in nodes {
        return [];
      }
      kids := nodes[at].children;
      if nodes[at].kind != ElementKind {
        return;
      }
      if at in shadowRoots && shadowRoots[at] != NONE {
        kids := kids + [shadowRoots[at]];
      }
      var contents := TemplateContent(at);
      if contents != NONE {
        kids := kids + [contents];
      }
    }

    /** The entries for the nodes below one, pushed one by one. */
    static method PushAll(todo: Todo, kids: seq<Id>, below: nat) returns (longer: Todo)
      ensures longer == todo + Entries(kids, below)
    {
      longer := todo;
      var i := 0;
      while i < |kids|
        invariant i <= |kids|
        invariant longer == todo + Entries(kids, below)[..i]
      {
        longer := longer + [(kids[i], below)];
        i := i + 1;
      }
      assert Entries(kids, below)[..|kids|] == Entries(kids, below);
    }

    /** `height`: the worklist. */
    method Height(id: Id) returns (tallest: nat)
      ensures tallest == CappedHeight(View(), id, MAX_DOM_DEPTH)
    {
      hide CappedHeight, TallestOf, Below, Best, Work, Entries;
      ghost var d := View();
      ghost var h := CappedHeight(d, id, MAX_DOM_DEPTH);
      tallest := 0;
      var todo: Todo := [(id, 0)];
      WholeWalk(d, id);
      NothingLeft(d);
      while todo != [] && tallest < MAX_DOM_DEPTH
        invariant tallest < MAX_DOM_DEPTH ==> InRange(todo) && DomWalks.Max(tallest, Best(d, todo)) == h
        invariant tallest >= MAX_DOM_DEPTH ==> tallest == h
        decreases if tallest < MAX_DOM_DEPTH && InRange(todo) then 1 + Work(d, todo) else 0
      {
        var (at, below) := todo[|todo| - 1];
        var rest := todo[..|todo| - 1];
        assert todo == rest + [(at, below)] && InRange(rest);
        if below < MAX_DOM_DEPTH {
          StepKeepsBest(d, rest, at, below, tallest);
          StepShrinksWork(d, rest, at, below);
        } else {
          AtTheCap(d, rest, at);
        }
        tallest := DomWalks.Max(tallest, below);
        var kids := NodesBelow(at);
        todo := PushAll(rest, kids, below + 1);
      }
    }

    static lemma NothingLeft(d: Dom)
      ensures Best(d, []) == 0
    {
    }

    /** `too_deep`. */
    method TooDeepFor(parent: Id, child: Id) returns (deep: bool)
      ensures deep == IsTooDeep(View(), parent, child)
    {
      var above := Depth(parent);
      var below := Height(child);
      deep := above + 1 + below >= MAX_DOM_DEPTH;
    }

    /** The walk up from a parent that looks for the child. */
    method Hangs(parent: Id, child: Id) returns (found: bool)
      requires Sound(Parents(nodes)) && parent in nodes
      ensures found == Under(Parents(nodes), parent, child)
    {
      hide Grounded;
      ghost var up := Parents(nodes);
      ghost var path := ChainOf(up, parent);
      ghost var i := 0;
      var at := parent;
      while at != NONE
        invariant i <= |path| && (at == NONE ==> i == |path|)
        invariant at != NONE ==> i < |path| && path[i] == at
        invariant forall k :: 0 <= k < i ==> path[k] != child
        decreases |path| - i
      {
        if at == child {
          return true;
        }
        ChainInMap(up, path, i);
        assert i + 1 < |path| ==> path[i + 1] == Next(up, path[i]) && path[i + 1] != NONE;
        assert i + 1 == |path| ==> Next(up, path[i]) == NONE;
        at := nodes[at].parent;
        i := i + 1;
      }
      return false;
    }

    /** The walk up to the top of a tree. */
    method Top(from: Id) returns (at: Id)
      requires Sound(Parents(nodes))
      ensures at == TopOf(Parents(nodes), from)
    {
      hide Grounded;
      ghost var up := Parents(nodes);
      ghost var path := ChainOf(up, from);
      ghost var i := 0;
      at := from;
      while at in nodes && nodes[at].parent != NONE
        invariant i < |path| && path[i] == at
        decreases |path| - i
      {
        assert i + 1 < |path| ==> path[i + 1] == Next(up, path[i]);
        assert i + 1 == |path| ==> Next(up, path[i]) == NONE;
        at := nodes[at].parent;
        i := i + 1;
      }
      TopIsLast(up, path, i);
    }

    static lemma TopIsLast(up: Links, path: seq<Id>, i: nat)
      requires IsChain(up, path) && i < |path|
      ensures Next(up, path[i]) == NONE ==> i == |path| - 1
    {
      if i + 1 < |path| {
        assert path[i + 1] == Next(up, path[i]) && path[i + 1] != NONE;
      }
    }

    // --- Detaching -----------------------------------------------------------------

    /** `sever_parser_forms`. */
    method SeverParserForms()
      requires Sound(Parents(nodes))
      modifies this`parserForms
      ensures parserForms == Together(old(parserForms), Parents(nodes))
    {
      hide Grounded, Closed, TopOf, ChainOf;
      ghost var up := Parents(nodes);
      var kept: seq<(Id, Id)> := [];
      var i := 0;
      while i < |parserForms|
        invariant i <= |parserForms| && parserForms == old(parserForms)
        invariant kept + Together(parserForms[i..], up) == Together(parserForms, up)
      {
        var pair := parserForms[i];
        var a := Top(pair.0);
        var b := Top(pair.1);
        assert parserForms[i..][1..] == parserForms[i + 1..];
        if a == b {
          kept := kept + [pair];
        }
        i := i + 1;
      }
      assert parserForms[i..] == [];
      parserForms := kept;
    }

    /** `detach`. */
    method Detach(child: Id)
      requires Sound(Parents(nodes)) && child in nodes
      modifies this
      ensures View() == Detached(old(View()), child)
    {
      var oldParent := nodes[child].parent;
      if oldParent == NONE {
        return;
      }
      assert Parents(nodes)[child] in Parents(nodes);
      CutNodeParents(nodes, child);
      CutKeepsSound(Parents(nodes), child);
      AddNote(Removed(oldParent, child, IndexOf(nodes[oldParent].children, child)));
      nodes := WithChildren(nodes, oldParent, RemoveAll(nodes[oldParent].children, child));
      nodes := WithParent(nodes, child, NONE);
      if parserForms != [] {
        SeverParserForms();
      }
    }

    /** `bump_version`. */
    method BumpVersion()
      modifies this`version
      ensures View() == Bumped(old(View()))
    {
      version := version + 1;
    }

    // --- Structural writes ----------------------------------------------------------

    /** Why an insertion is refused, if it is. */
    method RefusalOf(parent: Id, child: Id) returns (o: Outcome)
      requires Sound(Parents(nodes))
      ensures o == Refusal(View(), parent, child)
    {
      hide Grounded, Closed, IsTooDeep;
      if parent !in nodes || child !in nodes {
        return NoSuchNode;
      }
      var cycle := Hangs(parent, child);
      if cycle {
        return WouldCycle;
      }
      var deep := TooDeepFor(parent, child);
      if deep {
        return TooDeep;
      }
      return Done;
    }

    /** `append_child`. */
    method AppendChild(parent: Id, child: Id) returns (o: Outcome)
      requires Valid()
      modifies this
      ensures Sound(Parents(old(View()).nodes)) && (View(), o) == Appended(old(View()), parent, child)
      ensures o == Done ==>
                && parent in old(nodes)
                && (MayMove(old(View()), child) ==>
                      IsMoved(old(View()), View(), parent, child,
                              RemoveAll(old(nodes)[parent].children, child) + [child]))
      ensures Valid() <==> o != Done || MayMove(old(View()), child)
    {
      hide IsMoved, RemoveAll, Grounded, Closed, ForestOf, FreshNext, Detached, Refusal, Placed;
      ForestIsSound(View());
      AppendKeepsForestExactly(View(), parent, child);
      if MayMove(View(), child) {
        AppendPlacesLast(View(), parent, child);
      }
      o := RefusalOf(parent, child);
      if o != Done {
        return;
      }
      DetachedForInsertion(View(), parent, child);
      RefusalIsDone(View(), parent, child);
      hide MayMove;
      Detach(child);
      Place(parent, child, |nodes[parent].children|);
    }

    /** The end of both insertions: the list, the pointer, the note, the version. */
    method Place(parent: Id, child: Id, i: nat)
      requires parent in nodes && child in nodes && i <= |nodes[parent].children|
      modifies this`nodes, this`writesLog, this`version
      ensures View() == Placed(old(View()), parent, child, i) && nodes.Keys == old(nodes).Keys
    {
      nodes := WithChildren(nodes, parent, InsertAt(nodes[parent].children, i, child));
      nodes := WithParent(nodes, child, parent);
      AddNote(Inserted(parent, child, i));
      BumpVersion();
    }

    static lemma RefusalIsDone(d: Dom, p: Id, c: Id)
      requires Sound(Parents(d.nodes)) && Refusal(d, p, c) == Done
      ensures p in d.nodes && c in d.nodes
    {
    }

    /** The next sibling of a child that is to be inserted before itself. */
    static method ReferenceAmong(items: seq<Id>, child: Id, before: Id) returns (reference: Id)
      ensures reference == ReferenceFor(items, child, before)
    {
      reference := before;
      if before == child {
        var self := IndexOf(items, child);
        reference := if self == |items| || self + 1 == |items| then NONE else items[self + 1];
      }
    }

    /** `insert_before`. */
    method InsertChildBefore(parent: Id, child: Id, before: Id) returns (o: Outcome)
      requires Valid()
      modifies this
      ensures Sound(Parents(old(View()).nodes)) && (View(), o) == InsertedBefore(old(View()), parent, child, before)
      ensures o == Done ==>
                && parent in old(nodes) && parent in nodes
                && (MayMove(old(View()), child) ==>
                      && IsMoved(old(View()), View(), parent, child, nodes[parent].children)
                      && PlacedAsStandard(old(nodes)[parent].children, child, before, nodes[parent].children))
      ensures Valid() <==> o != Done || MayMove(old(View()), child)
    {
      hide IsMoved, PlacedAsStandard, Grounded, Closed, ForestOf, FreshNext, Detached, Refusal, Placed;
      ForestIsSound(View());
      InsertKeepsForestExactly(View(), parent, child, before);
      if MayMove(View(), child) {
        InsertPlacesBefore(View(), parent, child, before);
      }
      o := RefusalOf(parent, child);
      if o != Done {
        return;
      }
      DetachedForInsertion(View(), parent, child);
      RefusalIsDone(View(), parent, child);
      hide MayMove, ReferenceFor, IndexOf, InsertAt;
      var reference := ReferenceAmong(nodes[parent].children, child, before);
      Detach(child);
      Place(parent, child, IndexOf(nodes[parent].children, reference));
    }

    /** `remove_child`. */
    method RemoveChild(child: Id) returns (o: Outcome)
      requires Valid()
      modifies this
      ensures Sound(Parents(old(View()).nodes)) && (View(), o) == ChildRemoved(old(View()), child)
      ensures o == if child !in old(nodes) then NoSuchNode else if child == old(root) then IsRoot else Done
      ensures o == Done ==> IsGone(old(View()), View(), child) && version == old(version) + 1
      ensures Valid()
    {
      ForestIsSound(View());
      RemoveKeepsForest(View(), child);
      RemoveTakesOut(View(), child);
      hide IsGone, ForestOf, FreshNext, Detached, Grounded, Closed, Sound;
      if child !in nodes {
        return NoSuchNode;
      }
      if child == root {
        return IsRoot;
      }
      Detach(child);
      BumpVersion();
      return Done;
    }

    /** `set_document_element`. */
    method SetDocumentElement(id: Id, before: Id)
      requires Valid()
      modifies this
      ensures Sound(Parents(old(View()).nodes)) && documentNode in old(nodes)
      ensures View() == RootSet(old(View()), id, before)
      ensures MayBeRoot(old(View()), id) && id != old(root) ==> IsRooted(old(View()), View(), id, before)
      ensures Valid() <==> MayBeRoot(old(View()), id)
    {
      hide IsRooted, Grounded, Closed, ForestOf, FreshNext, Detached, RootPlaced;
      if MayBeRoot(View(), id) {
        RootSetPlaces(View(), id, before);
      }
      ForestIsSound(View());
      DocumentIsLive(View());
      RootSetKeepsForestExactly(View(), id, before);
      var previous := root;
      root := id;
      if id == documentNode || id == previous {
        return;
      }
      if id in nodes {
        DetachKeepsNodes(View(), id);
        Detach(id);
      }
      hide MayBeRoot, RootPlaced;
      PlaceRoot(previous, id, before);
      BumpVersion();
    }

    /** The old element's slot in the Document's list, or a place ahead of `before`. */
    method PlaceRoot(previous: Id, id: Id, before: Id)
      requires documentNode in nodes
      modifies this`nodes, this`writesLog
      ensures View() == RootPlaced(old(View()), previous, id, before)
    {
      var items := RemoveAll(nodes[documentNode].children, id);
      var slot := IndexOf(items, previous);
      if slot < |items| {
        nodes := WithChildren(nodes, documentNode, items[slot := id]);
        AddNote(Removed(documentNode, previous, slot));
        AddNote(Inserted(documentNode, id, slot));
      } else {
        var at := IndexOf(items, before);
        nodes := WithChildren(nodes, documentNode, InsertAt(items, at, id));
        AddNote(Inserted(documentNode, id, at));
      }
    }

    static lemma DocumentIsLive(d: Dom)
      requires Forest(d)
      ensures d.document in d.nodes
    {
    }

    static lemma DetachKeepsNodes(d: Dom, c: Id)
      requires Sound(Parents(d.nodes)) && c in d.nodes
      ensures forall x :: x in d.nodes ==> x in Detached(d, c).nodes
    {
    }

    /** `remove_document_element`. */
    method RemoveDocumentElement()
      requires Valid()
      modifies this
      ensures documentNode in old(nodes) && View() == RootRemoved(old(View()))
      ensures root == documentNode && nodes.Keys == old(nodes).Keys && documentNode in nodes
      ensures old(root) != documentNode ==>
                nodes[documentNode].children == RemoveAll(old(nodes)[documentNode].children, old(root))
      ensures Valid()
    {
      hide ForestOf, FreshNext, IndexOf, RemoveAll;
      DocumentIsLive(View());
      RootRemovedKeepsForest(View());
      if root == documentNode {
        return;
      }
      var items := nodes[documentNode].children;
      var at := IndexOf(items, root);
      if at < |items| {
        AddNote(Removed(documentNode, root, at));
      }
      nodes := WithChildren(nodes, documentNode, RemoveAll(items, root));
      root := documentNode;
      BumpVersion();
    }

    // --- Creation ---------------------------------------------------------------------

    /** The `create_` calls: a new detached node, a processing instruction's attributes read from its data. */
    method Create(kind: Kind, tag: Bytes, mayHost: bool, text: Bytes) returns (id: Id)
      requires Valid()
      modifies this`nodes, this`next
      ensures Valid() && id == old(next) && id !in old(nodes)
      ensures View() == Created(old(View()), NewNode(kind, tag, mayHost, text))
      ensures IsCreated(old(View()), View(), kind, tag, mayHost, text)
    {
      CreatedHolds(View(), kind, tag, mayHost, text);
      hide IsCreated;
      CreatedKeepsForest(View(), NewNode(kind, tag, mayHost, text));
      assert next !in nodes;
      hide ForestOf, FreshNext;
      var attributes: seq<Attribute> := [];
      if kind == InstructionKind {
        var parsed := ParsePseudoAttributes(text);
        if parsed.Some? {
          attributes := parsed.value;
        }
      }
      id := Allocate(Node(kind, tag, mayHost, NONE, [], attributes, text));
    }

    /** A new slot of the slab. */
    method Allocate(node: Node) returns (id: Id)
      requires node.parent == NONE && node.children == []
      modifies this`nodes, this`next
      ensures View() == Created(old(View()), node) && id == old(next)
    {
      id := next;
      nodes := nodes[id := node];
      next := next + 1;
    }

    static lemma NewFragment()
      ensures NewNode(FragmentKind, [], false, []) == Node(FragmentKind, [], false, NONE, [], [], [])
    {
    }

    /** `attach_shadow`. */
    method AttachShadow(host: Id) returns (o: Outcome, shadow: Id)
      requires Valid()
      modifies this
      ensures (View(), o) == ShadowAttached(old(View()), host)
      ensures Valid() && shadow == if o == Done then old(next) else NONE
    {
      ShadowKeepsForest(View(), host);
      NewFragment();
      hide *;
      if host !in nodes {
        return NoSuchNode, NONE;
      }
      if nodes[host].kind != ElementKind || !nodes[host].mayHost {
        return InvalidShadowHost, NONE;
      }
      if host in shadowRoots && shadowRoots[host] != NONE {
        return ShadowRootExists, NONE;
      }
      var levels := Depth(host);
      if levels + 1 >= MAX_DOM_DEPTH {
        return TooDeep, NONE;
      }
      shadow := Create(FragmentKind, [], false, []);
      LinkShadow(host, shadow);
      o := Done;
    }

    /** The two maps between a host and its shadow root. */
    method LinkShadow(host: Id, shadow: Id)
      modifies this`shadowRoots, this`shadowHosts
      ensures View() == old(View()).(shadowRoots := old(shadowRoots)[host := shadow],
                                     shadowHosts := old(shadowHosts)[shadow := host])
    {
      shadowRoots := shadowRoots[host := shadow];
      shadowHosts := shadowHosts[shadow := host];
    }

    // --- Pairs ------------------------------------------------------------------------

    /** `set_template_content`. */
    method SetTemplateContent(element: Id, fragment: Id)
      requires Valid()
      modifies this`templates
      ensures Valid() && View() == ContentsSet(old(View()), element, fragment)
    {
      hide Forest, KeyIndex;
      ContentsKeepForest(View(), element, fragment);
      var i := 0;
      while i < |templates|
        invariant i <= |templates| && templates == old(templates)
        invariant forall j :: 0 <= j < i ==> templates[j].0 != element
      {
        if templates[i].0 == element {
          KeyIs(templates, element, i);
          templates := templates[i := (element, fragment)];
          return;
        }
        i := i + 1;
      }
      KeyIs(templates, element, i);
      templates := templates + [(element, fragment)];
    }

    /** `set_parser_form`. */
    method SetParserForm(element: Id, form: Id)
      requires Valid()
      modifies this`parserForms
      ensures Valid() && View() == FormSet(old(View()), element, form)
    {
      parserForms := parserForms + [(element, form)];
    }

    // --- Data and attributes --------------------------------------------------------

    static lemma TextSetKeepsForest(d: Dom, id: Id, value: Bytes, edit: Option<DataEdit>)
      requires Forest(d)
      ensures Forest(TextSet(d, id, value, edit).0)
    {
      hide Forest;
      StepKeepsForestExactly(d, DomRuns.SetText(id, value, edit));
    }

    static lemma AttributeSetKeepsForest(d: Dom, id: Id, name: Bytes, value: Bytes)
      requires Forest(d)
      ensures Forest(AttributeSet(d, id, name, value).0)
    {
      hide Forest;
      StepKeepsForestExactly(d, DomRuns.SetAttribute(id, name, value));
    }

    static lemma AttributeRemovedKeepsForest(d: Dom, id: Id, name: Bytes)
      requires Forest(d)
      ensures Forest(AttributeRemoved(d, id, name).0)
    {
      hide Forest;
      StepKeepsForestExactly(d, DomRuns.RemoveAttribute(id, name));
    }

    /** `set_text`. */
    method SetText(id: Id, value: Bytes, edit: Option<DataEdit>) returns (o: Outcome)
      requires Valid()
      modifies this
      ensures (View(), o) == TextSet(old(View()), id, value, edit)
      ensures o == Done ==> HoldsText(old(View()), View(), id, value, edit)
      ensures Valid()
    {
      hide Forest, HoldsText;
      TextSetKeepsForest(View(), id, value, edit);
      TextSetHolds(View(), id, value, edit);
      if id !in nodes {
        return NoSuchNode;
      }
      var n := nodes[id];
      var oldLength := Utf16.UnitsLength(n.text);
      var newLength := Utf16.UnitsLength(value);
      var note := DataWritten(id, if edit.Some? then edit.value else DataEdit(0, oldLength, newLength));
      n := n.(text := value);
      if n.kind == InstructionKind {
        var parsed := ParsePseudoAttributes(value);
        n := n.(attributes := if parsed.Some? then parsed.value else []);
      }
      nodes := nodes[id := n];
      BumpVersion();
      AddNote(note);
      return Done;
    }

    /** `update_pi_data`. */
    method UpdateData(id: Id)
      requires id in nodes
      modifies this`nodes, this`writesLog
      ensures id in nodes && View() == DataUpdated(old(View()), id)
    {
      if nodes[id].kind != InstructionKind {
        return;
      }
      var data := SerializePseudoAttributes(nodes[id].attributes);
      nodes := nodes[id := nodes[id].(text := data)];
      AddNote(DataWritten(id, DataEdit(0, 0, 0)));
    }

    /** `forget_parser_form`. */
    method ForgetParserForm(id: Id, name: Bytes)
      modifies this`parserForms
      ensures View() == FormForgotten(old(View()), id, name)
    {
      if parserForms == [] || name != FORM || id !in nodes || nodes[id].tag == IMG {
        return;
      }
      var kept: seq<(Id, Id)> := [];
      var i := 0;
      while i < |parserForms|
        invariant i <= |parserForms| && parserForms == old(parserForms)
        invariant kept + Without(parserForms[i..], id) == Without(parserForms, id)
      {
        assert parserForms[i..][1..] == parserForms[i + 1..];
        if parserForms[i].0 != id {
          kept := kept + [parserForms[i]];
        }
        i := i + 1;
      }
      parserForms := kept;
    }

    /** `set_attribute`. */
    method SetAttribute(id: Id, name: Bytes, value: Bytes) returns (o: Outcome)
      requires Valid()
      modifies this
      ensures (View(), o) == AttributeSet(old(View()), id, name, value)
      ensures o == Done ==> HoldsValue(old(View()), View(), id, name, value)
      ensures Valid()
    {
      hide Forest, DataUpdated, FormForgotten, HoldsValue;
      AttributeSetKeepsForest(View(), id, name, value);
      AttributeSetHolds(View(), id, name, value);
      if id !in nodes {
        return NoSuchNode;
      }
      var n := nodes[id];
      if n.kind != ElementKind && n.kind != InstructionKind {
        return NotAnElement;
      }
      var at := NamePlace(n.attributes, name);
      var existed := at < |n.attributes|;
      if existed {
        nodes := nodes[id := n.(attributes := n.attributes[at := Attribute(name, value)])];
      } else {
        nodes := nodes[id := n.(attributes := n.attributes + [Attribute(name, value)])];
      }
      UpdateData(id);
      ForgetParserForm(id, name);
      BumpVersion();
      AddNote(AttributeWritten(id, name, existed, false));
      return Done;
    }

    /** `remove_attribute`. */
    method RemoveAttribute(id: Id, name: Bytes) returns (o: Outcome)
      requires Valid()
      modifies this
      ensures (View(), o) == AttributeRemoved(old(View()), id, name)
      ensures id in old(nodes) && HasName(old(nodes)[id].attributes, name) ==> LacksFirst(old(View()), View(), id, name)
      ensures Valid()
    {
      hide Forest, DataUpdated, FormForgotten, LacksFirst, HasName;
      AttributeRemovedKeepsForest(View(), id, name);
      AttributeRemovedHolds(View(), id, name);
      if id !in nodes {
        return NoSuchNode;
      }
      var n := nodes[id];
      var at := NamePlace(n.attributes, name);
      if at == |n.attributes| {
        return Done;
      }
      nodes := nodes[id := n.(attributes := RemoveAt(n.attributes, at))];
      UpdateData(id);
      ForgetParserForm(id, name);
      BumpVersion();
      AddNote(AttributeWritten(id, name, true, true));
      return Done;
    }
  }
}
