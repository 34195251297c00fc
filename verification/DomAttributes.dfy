/**
  Data and attribute writes of ctbrowser/lib/DOM/document.cpp, and the bond between a
  processing instruction's data and its attributes: each is rewritten from the other,
  and they agree after every write whose attribute name is a valid one.
 */
module DomAttributes {
  import opened Options
  import opened Utf8
  import opened Utf16
  import opened Lists
  import opened Chains
  import opened DomStore
  import opened PseudoAttributes

  /** Where the first attribute of a name is, or the end. */
  function NamePlace(attributes: seq<Attribute>, name: Bytes): (i: nat)
    ensures i <= |attributes|
    ensures i < |attributes| ==> attributes[i].name == name
    ensures forall j :: 0 <= j < i ==> attributes[j].name != name
  {
    if attributes == [] || attributes[0].name == name then 0 else 1 + NamePlace(attributes[1..], name)
  }

  /** "Update attributes from data": refused data leaves none. */
  function AttributesFrom(data: Bytes): seq<Attribute> {
    match Parsed(data)
    case None => []
    case Some(attributes) => attributes
  }

  /** `units_length`. */
  function DataLength(text: Bytes): nat { |ToUnits(text)| % 0x1_0000_0000 }

  function WithNode(d: Dom, id: Id, node: Node): Dom { d.(nodes := d.nodes[id := node]) }

  /** `set_text`. */
  function TextSet(d: Dom, id: Id, value: Bytes, edit: Option<DataEdit>): (r: (Dom, Outcome)) {
    if id !in d.nodes then (d, NoSuchNode)
    else
      var n := d.nodes[id];
      var attributes := if n.kind == InstructionKind then AttributesFrom(value) else n.attributes;
      var whole := DataEdit(0, DataLength(n.text), DataLength(value));
      var note := DataWritten(id, if edit.Some? then edit.value else whole);
      (Noted(Bumped(WithNode(d, id, n.(text := value, attributes := attributes))), note), Done)
  }

  /** "Update data from attributes", for a processing instruction. */
  function DataUpdated(d: Dom, id: Id): Dom {
    if id !in d.nodes || d.nodes[id].kind != InstructionKind then d
    else
      Noted(WithNode(d, id, d.nodes[id].(text := Serialized(d.nodes[id].attributes))),
            DataWritten(id, DataEdit(0, 0, 0)))
  }

  const FORM: Bytes := [0x66, 0x6F, 0x72, 0x6D]
  const IMG: Bytes := [0x69, 0x6D, 0x67]

  /** The pairs that do not start at `id`. */
  function Without(forms: seq<(Id, Id)>, id: Id): (r: seq<(Id, Id)>)
    ensures forall pair :: pair in r <==> pair in forms && pair.0 != id
  {
    if forms == [] then []
    else if forms[0].0 == id then Without(forms[1..], id)
    else [forms[0]] + Without(forms[1..], id)
  }

  /** `forget_parser_form`. */
  function FormForgotten(d: Dom, id: Id, name: Bytes): Dom {
    if d.forms == [] || name != FORM || id !in d.nodes || d.nodes[id].tag == IMG then d
    else d.(forms := Without(d.forms, id))
  }

  /** The list with the first attribute of the name changed, or a new one at the end. */
  function AttributeWrittenTo(attributes: seq<Attribute>, name: Bytes, value: Bytes): seq<Attribute> {
    var i := NamePlace(attributes, name);
    if i < |attributes| then attributes[i := Attribute(name, value)] else attributes + [Attribute(name, value)]
  }

  /** `set_attribute`. */
  function AttributeSet(d: Dom, id: Id, name: Bytes, value: Bytes): (r: (Dom, Outcome)) {
    if id !in d.nodes then (d, NoSuchNode)
    else if d.nodes[id].kind != ElementKind && d.nodes[id].kind != InstructionKind then (d, NotAnElement)
    else
      var n := d.nodes[id];
      var existed := NamePlace(n.attributes, name) < |n.attributes|;
      var written := DataUpdated(WithNode(d, id, n.(attributes := AttributeWrittenTo(n.attributes, name, value))), id);
      (Noted(Bumped(FormForgotten(written, id, name)), AttributeWritten(id, name, existed, false)), Done)
  }

  /** `remove_attribute`: nothing at all when there is none of the name. */
  function AttributeRemoved(d: Dom, id: Id, name: Bytes): (r: (Dom, Outcome)) {
    if id !in d.nodes then (d, NoSuchNode)
    else
      var n := d.nodes[id];
      var i := NamePlace(n.attributes, name);
      if i == |n.attributes| then (d, Done)
      else
        var written := DataUpdated(WithNode(d, id, n.(attributes := RemoveAt(n.attributes, i))), id);
        (Noted(Bumped(FormForgotten(written, id, name)), AttributeWritten(id, name, true, true)), Done)
  }

  // --- Data and attributes in step ---------------------------------------------------

  /** A processing instruction's attributes are those its data spells. */
  predicate InStep(n: Node) { n.kind == InstructionKind ==> n.attributes == AttributesFrom(n.text) }

  ghost predicate AllInStep(d: Dom) { forall x :: x in d.nodes ==> InStep(d.nodes[x]) }

  lemma FromDataIsWellNamed(data: Bytes)
    ensures WellNamed(AttributesFrom(data))
  {
    ReadIsWellNamed(data, []);
  }

  lemma WritingKeepsNames(attributes: seq<Attribute>, name: Bytes, value: Bytes)
    requires WellNamed(attributes)
    ensures WellNamed(AttributeWrittenTo(attributes, name, value)) <==> ValidName(name)
    ensures AttributeWrittenTo(attributes, name, value) != []
  {
    var i, r := NamePlace(attributes, name), AttributeWrittenTo(attributes, name, value);
    hide ValidName;
    if i < |attributes| {
      assert ValidName(attributes[i].name);
    } else {
      assert r[|attributes|].name == name;
    }
  }

  lemma RemovingKeepsNames(attributes: seq<Attribute>, i: nat)
    requires WellNamed(attributes) && i < |attributes|
    ensures WellNamed(RemoveAt(attributes, i))
  {
    hide ValidName;
    var r := RemoveAt(attributes, i);
    assert forall k :: 0 <= k < |r| ==> r[k] == attributes[if k < i then k else k + 1];
  }

  /** An attribute list is what its own serialisation spells exactly when it is well named. */
  lemma SpelledExactly(attributes: seq<Attribute>)
    ensures attributes == AttributesFrom(Serialized(attributes)) <==> WellNamed(attributes)
  {
    hide Parsed, Serialized, WellNamed;
    SerializedRoundTripExactly(attributes);
    NothingIsWellNamed();
  }

  /** A write to an attribute keeps a processing instruction in step exactly when the name is valid. */
  lemma SetAttributeKeepsStepExactly(d: Dom, id: Id, name: Bytes, value: Bytes)
    requires id in d.nodes && d.nodes[id].kind == InstructionKind && InStep(d.nodes[id])
    ensures var r := AttributeSet(d, id, name, value).0;
            id in r.nodes && (InStep(r.nodes[id]) <==> ValidName(name))
  {
    var n := d.nodes[id];
    FromDataIsWellNamed(n.text);
    WritingKeepsNames(n.attributes, name, value);
    SpelledExactly(AttributeWrittenTo(n.attributes, name, value));
  }

  lemma RemoveAttributeKeepsStep(d: Dom, id: Id, name: Bytes)
    requires id in d.nodes && InStep(d.nodes[id])
    ensures var r := AttributeRemoved(d, id, name).0; id in r.nodes && InStep(r.nodes[id])
  {
    var n := d.nodes[id];
    var i := NamePlace(n.attributes, name);
    if i < |n.attributes| && n.kind == InstructionKind {
      FromDataIsWellNamed(n.text);
      RemovingKeepsNames(n.attributes, i);
      SpelledExactly(RemoveAt(n.attributes, i));
    }
  }

  lemma SetTextKeepsStep(d: Dom, id: Id, value: Bytes, edit: Option<DataEdit>)
    requires id in d.nodes && InStep(d.nodes[id])
    ensures var r := TextSet(d, id, value, edit).0; id in r.nodes && InStep(r.nodes[id])
  {
  }

  // --- These writes leave the tree alone ---------------------------------------------

  /** Same tree: the same lists, pointers and kinds, and no pair that was not there. */
  ghost predicate SameTree(d: Dom, r: Dom) {
    && r.nodes.Keys == d.nodes.Keys && r.next == d.next && r.document == d.document && r.root == d.root
    && r.shadowRoots == d.shadowRoots && r.shadowHosts == d.shadowHosts && r.templates == d.templates
    && r.logging == d.logging
    && (forall x :: x in d.nodes ==>
          && r.nodes[x].parent == d.nodes[x].parent && r.nodes[x].children == d.nodes[x].children
          && r.nodes[x].kind == d.nodes[x].kind)
    && (forall pair :: pair in r.forms ==> pair in d.forms)
  }

  predicate IsTreeNote(note: Note) { note.Inserted? || note.Removed? }

  /** Only notes about data and attributes were added. */
  ghost predicate OnlyWriteNotes(d: Dom, r: Dom) {
    d.log <= r.log && forall i :: |d.log| <= i < |r.log| ==> !IsTreeNote(r.log[i])
  }

  ghost predicate LeavesTree(d: Dom, r: Dom) { SameTree(d, r) && OnlyWriteNotes(d, r) }

  lemma LeavesTreeTwice(a: Dom, b: Dom, c: Dom)
    requires LeavesTree(a, b) && LeavesTree(b, c)
    ensures LeavesTree(a, c)
  {
    forall i | |a.log| <= i < |c.log| ensures !IsTreeNote(c.log[i]) {
      if i < |b.log| {
        assert c.log[i] == b.log[i];
      }
    }
  }

  lemma WithNodeLeavesTree(d: Dom, id: Id, node: Node)
    requires id in d.nodes && node.parent == d.nodes[id].parent && node.children == d.nodes[id].children
    requires node.kind == d.nodes[id].kind
    ensures LeavesTree(d, WithNode(d, id, node))
  {
  }

  lemma NoteLeavesTree(d: Dom, note: Note)
    requires !IsTreeNote(note)
    ensures LeavesTree(d, Noted(Bumped(d), note)) && LeavesTree(d, Noted(d, note))
  {
  }

  lemma DataUpdateLeavesTree(d: Dom, id: Id)
    ensures LeavesTree(d, DataUpdated(d, id))
  {
    hide Serialized;
    if id in d.nodes && d.nodes[id].kind == InstructionKind {
      var written := WithNode(d, id, d.nodes[id].(text := Serialized(d.nodes[id].attributes)));
      WithNodeLeavesTree(d, id, written.nodes[id]);
      NoteLeavesTree(written, DataWritten(id, DataEdit(0, 0, 0)));
      LeavesTreeTwice(d, written, DataUpdated(d, id));
    } else {
      assert DataUpdated(d, id) == d;
    }
  }

  lemma ForgettingLeavesTree(d: Dom, id: Id, name: Bytes)
    ensures LeavesTree(d, FormForgotten(d, id, name))
  {
  }

  /** New attributes, the data updated, the form forgotten, the note made. */
  lemma WriteLeavesTree(d: Dom, id: Id, attributes: seq<Attribute>, name: Bytes, note: Note)
    requires id in d.nodes && !IsTreeNote(note)
    ensures var written := DataUpdated(WithNode(d, id, d.nodes[id].(attributes := attributes)), id);
            LeavesTree(d, Noted(Bumped(FormForgotten(written, id, name)), note))
  {
    hide LeavesTree, DataUpdated, FormForgotten;
    var changed := WithNode(d, id, d.nodes[id].(attributes := attributes));
    var written := DataUpdated(changed, id);
    var forgotten := FormForgotten(written, id, name);
    WithNodeLeavesTree(d, id, changed.nodes[id]);
    DataUpdateLeavesTree(changed, id);
    ForgettingLeavesTree(written, id, name);
    NoteLeavesTree(forgotten, note);
    LeavesTreeTwice(d, changed, written);
    LeavesTreeTwice(d, written, forgotten);
    LeavesTreeTwice(d, forgotten, Noted(Bumped(forgotten), note));
  }

  lemma NothingLeavesTree(d: Dom)
    ensures LeavesTree(d, d)
  {
  }

  lemma TextSetKeepsTree(d: Dom, id: Id, value: Bytes, edit: Option<DataEdit>)
    ensures LeavesTree(d, TextSet(d, id, value, edit).0)
  {
    if id in d.nodes {
      var n := d.nodes[id];
      var attributes := if n.kind == InstructionKind then AttributesFrom(value) else n.attributes;
      var written := WithNode(d, id, n.(text := value, attributes := attributes));
      WithNodeLeavesTree(d, id, written.nodes[id]);
      var whole := DataEdit(0, DataLength(n.text), DataLength(value));
      var note := DataWritten(id, if edit.Some? then edit.value else whole);
      NoteLeavesTree(written, note);
      LeavesTreeTwice(d, written, Noted(Bumped(written), note));
    } else {
      NothingLeavesTree(d);
    }
  }

  lemma AttributeSetKeepsTree(d: Dom, id: Id, name: Bytes, value: Bytes)
    ensures LeavesTree(d, AttributeSet(d, id, name, value).0)
  {
    hide LeavesTree, DataUpdated, FormForgotten, WithNode, AttributeWrittenTo;
    if AttributeSet(d, id, name, value).1 == Done {
      var attributes := d.nodes[id].attributes;
      var existed := NamePlace(attributes, name) < |attributes|;
      WriteLeavesTree(d, id, AttributeWrittenTo(attributes, name, value), name,
                      AttributeWritten(id, name, existed, false));
    } else {
      NothingLeavesTree(d);
    }
  }

  lemma AttributeRemovedKeepsTree(d: Dom, id: Id, name: Bytes)
    ensures LeavesTree(d, AttributeRemoved(d, id, name).0)
  {
    hide LeavesTree, DataUpdated, FormForgotten, WithNode, RemoveAt;
    if id in d.nodes && NamePlace(d.nodes[id].attributes, name) < |d.nodes[id].attributes| {
      var attributes := d.nodes[id].attributes;
      WriteLeavesTree(d, id, RemoveAt(attributes, NamePlace(attributes, name)), name,
                      AttributeWritten(id, name, true, true));
    } else {
      NothingLeavesTree(d);
    }
  }

  /** A write changes no other node. */
  lemma OtherNodesStay(d: Dom, id: Id, node: Node, name: Bytes, note: Note, x: Id)
    requires x in d.nodes && x != id
    ensures var r := Noted(Bumped(FormForgotten(DataUpdated(WithNode(d, id, node), id), id, name)), note);
            x in r.nodes && r.nodes[x] == d.nodes[x]
  {
  }

  /** The name "1", which the parser refuses, written to an empty instruction leaves data it does not read. */
  lemma BadNameBreaksStep(value: Bytes)
    ensures var n := Node(InstructionKind, [], false, NONE, [], [], []);
            var d := Dom(map[1 := n], 2, 1, 1, map[], map[], [], [], [], false, 1);
            var r := AttributeSet(d, 1, [0x31], value);
            InStep(n) && r.1 == Done && 1 in r.0.nodes && !InStep(r.0.nodes[1])
  {
    var n := Node(InstructionKind, [], false, NONE, [], [], []);
    var d := Dom(map[1 := n], 2, 1, 1, map[], map[], [], [], [], false, 1);
    NothingRead();
    SetAttributeKeepsStepExactly(d, 1, [0x31], value);
    assert !IsNameStart([0x31][0]);
  }
}
