/**
  Template contents. `set_template_content`, like `set_document_element`, asks nothing
  about depth: proved here is exactly when it keeps the composed cap, and that giving a
  template its contents when they are first asked for does break it.
 */
module DomContents {
  import opened Chains
  import opened DomStore
  import opened DomForest
  import opened DomDepth
  import opened DomCap
  import opened DomRootCap

  /** An element, and a fragment that nothing hosts and that the element does not hang below. */
  ghost predicate MayHold(d: Dom, element: Id, fragment: Id)
    requires Sound(Ups(d))
  {
    && element in d.nodes && d.nodes[element].kind == ElementKind
    && IsHostable(d, fragment) && !IsHosted(d, fragment)
    && !Under(Ups(d), element, fragment)
  }

  // --- The list of pairs --------------------------------------------------------------

  lemma {:induction false} SecondAtKey(pairs: seq<(Id, Id)>, a: Id)
    ensures SecondOf(pairs, a) == if KeyIndex(pairs, a) < |pairs| then pairs[KeyIndex(pairs, a)].1 else NONE
  {
    if pairs != [] && pairs[0].0 != a {
      SecondAtKey(pairs[1..], a);
    }
  }

  /** `template_content` answers what was set, and for every other element what it did. */
  lemma ContentsAreFound(d: Dom, element: Id, fragment: Id, x: Id)
    ensures SecondOf(ContentsSet(d, element, fragment).templates, x) ==
            if x == element then fragment else SecondOf(d.templates, x)
  {
    var was, now := d.templates, PairSet(d.templates, element, fragment);
    var i := KeyIndex(was, element);
    SecondAtKey(was, x);
    SecondAtKey(now, x);
    if x == element {
      KeyIs(now, x, i);
    } else if KeyIndex(was, x) < |was| {
      KeyIs(now, x, KeyIndex(was, x));
    } else {
      assert forall j :: 0 <= j < |now| ==> now[j].0 != x;
      KeyIs(now, x, |now|);
    }
  }

  /** `parser_form` answers what was set for an element that had none. */
  lemma FormIsFound(d: Dom, element: Id, form: Id, x: Id)
    requires KeyIndex(d.forms, element) == |d.forms|
    ensures SecondOf(FormSet(d, element, form).forms, x) == if x == element then form else SecondOf(d.forms, x)
  {
    var was, now := d.forms, d.forms + [(element, form)];
    SecondAtKey(was, x);
    SecondAtKey(now, x);
    if x == element {
      KeyIs(now, x, |was|);
    } else if KeyIndex(was, x) < |was| {
      KeyIs(now, x, KeyIndex(was, x));
    } else {
      KeyIs(now, x, |now|);
    }
  }

  lemma KeyIs(pairs: seq<(Id, Id)>, a: Id, i: nat)
    requires i <= |pairs| && (i < |pairs| ==> pairs[i].0 == a) && forall j :: 0 <= j < i ==> pairs[j].0 != a
    ensures KeyIndex(pairs, a) == i
  {
  }

  lemma {:induction false} FirstInLonger(pairs: seq<(Id, Id)>, last: (Id, Id), x: Id)
    requires x != last.1
    ensures FirstOf(pairs + [last], x) == FirstOf(pairs, x)
  {
    if pairs != [] {
      assert (pairs + [last])[1..] == pairs[1..] + [last];
      FirstInLonger(pairs[1..], last, x);
    }
  }

  lemma {:induction false} FirstInChanged(pairs: seq<(Id, Id)>, i: nat, pair: (Id, Id), x: Id)
    requires i < |pairs| && x != pair.1 && x != pairs[i].1
    ensures FirstOf(pairs[i := pair], x) == FirstOf(pairs, x)
  {
    if i > 0 {
      assert pairs[i := pair][1..] == pairs[1..][i - 1 := pair];
      FirstInChanged(pairs[1..], i - 1, pair, x);
    }
  }

  lemma {:induction false} FirstOfAbsent(pairs: seq<(Id, Id)>, x: Id)
    requires forall i :: 0 <= i < |pairs| ==> pairs[i].1 != x
    ensures FirstOf(pairs, x) == NONE
  {
    if pairs != [] {
      assert forall i :: 0 <= i < |pairs[1..]| ==> pairs[1..][i] == pairs[i + 1];
      FirstOfAbsent(pairs[1..], x);
    }
  }

  /** All first halves differ, and all second halves. */
  predicate OneToOne(pairs: seq<(Id, Id)>) {
    forall i, j :: 0 <= i < j < |pairs| ==> pairs[i].0 != pairs[j].0 && pairs[i].1 != pairs[j].1
  }

  lemma PairSetIsOneToOne(pairs: seq<(Id, Id)>, a: Id, b: Id)
    requires OneToOne(pairs) && forall i :: 0 <= i < |pairs| ==> pairs[i].1 != b
    ensures OneToOne(PairSet(pairs, a, b))
  {
  }

  /** Which element holds a fragment, once `a` holds `b` in place of what it held. */
  lemma HolderAfter(pairs: seq<(Id, Id)>, a: Id, b: Id, x: Id)
    requires OneToOne(pairs) && forall i :: 0 <= i < |pairs| ==> pairs[i].1 != b
    requires x != NONE
    ensures FirstOf(PairSet(pairs, a, b), x) ==
            if x == b then a else if x == SecondOf(pairs, a) then NONE else FirstOf(pairs, x)
  {
    hide OneToOne;
    SecondAtKey(pairs, a);
    var i := KeyIndex(pairs, a);
    var r := PairSet(pairs, a, b);
    PairSetIsOneToOne(pairs, a, b);
    if x == b {
      HolderOf(r, i);
    } else if i == |pairs| {
      FirstInLonger(pairs, (a, b), x);
    } else if x != pairs[i].1 {
      FirstInChanged(pairs, i, (a, b), x);
    } else {
      OthersHoldOther(pairs, i, (a, b));
      FirstOfAbsent(r, x);
    }
  }

  lemma HolderOf(pairs: seq<(Id, Id)>, i: nat)
    requires OneToOne(pairs) && i < |pairs|
    ensures FirstOf(pairs, pairs[i].1) == pairs[i].0
  {
    SecondIs(pairs, i);
  }

  lemma OthersHoldOther(pairs: seq<(Id, Id)>, i: nat, pair: (Id, Id))
    requires OneToOne(pairs) && i < |pairs| && pair.1 != pairs[i].1
    ensures var r := pairs[i := pair]; forall k :: 0 <= k < |r| ==> r[k].1 != pairs[i].1
  {
  }

  // --- Composed pointers ----------------------------------------------------------------

  /** The composed pointers once `element` holds `fragment`: what it held is let go. */
  function HeldLinks(d: Dom, element: Id, fragment: Id): Links {
    var previous := SecondOf(d.templates, element);
    if previous == NONE then Ups(d)[fragment := element] else Ups(d)[previous := NONE][fragment := element]
  }

  lemma TemplatesParts(d: Dom)
    requires TemplatesAgree(d)
    ensures OneToOne(d.templates)
    ensures forall i :: 0 <= i < |d.templates| ==>
              IsHostable(d, d.templates[i].1) && d.templates[i].1 !in d.shadowHosts
  {
  }

  lemma ContentsHolder(d: Dom, element: Id, fragment: Id, x: Id)
    requires TemplatesAgree(d) && !IsContents(d, fragment)
    ensures TemplateOf(ContentsSet(d, element, fragment), x) ==
            if x == NONE then NONE
            else if x == fragment then element
            else if x == SecondOf(d.templates, element) then NONE
            else TemplateOf(d, x)
  {
    hide TemplatesAgree, OneToOne, PairSet, FirstOf, SecondOf;
    TemplatesParts(d);
    if x != NONE {
      HolderAfter(d.templates, element, fragment, x);
    }
  }

  lemma PreviousIsHostable(d: Dom, element: Id)
    requires TemplatesAgree(d) && SecondOf(d.templates, element) != NONE
    ensures var previous := SecondOf(d.templates, element);
            IsHostable(d, previous) && previous !in d.shadowHosts && TemplateOf(d, previous) == element
  {
    hide TemplatesAgree, OneToOne, IsHostable;
    TemplatesParts(d);
    SecondAtKey(d.templates, element);
    HolderOf(d.templates, KeyIndex(d.templates, element));
  }

  lemma ContentsUp(d: Dom, element: Id, fragment: Id, x: Id)
    requires TemplatesAgree(d) && x in d.nodes && x != NONE && element in d.nodes
    requires IsHostable(d, fragment) && !IsHosted(d, fragment)
    ensures Up(ContentsSet(d, element, fragment), x) ==
            if x == fragment then element
            else if x == SecondOf(d.templates, element) then NONE
            else Up(d, x)
  {
    hide TemplatesAgree, IsContents, TemplateOf, PairSet, SecondOf;
    ContentsHolder(d, element, fragment, x);
    if SecondOf(d.templates, element) != NONE {
      PreviousIsHostable(d, element);
    }
  }

  lemma ContentsUps(d: Dom, element: Id, fragment: Id)
    requires Composed(d) && element in d.nodes && IsHostable(d, fragment) && !IsHosted(d, fragment)
    ensures Ups(ContentsSet(d, element, fragment)) == HeldLinks(d, element, fragment)
  {
    hide *;
    ComposedAgrees(d);
    var previous := SecondOf(d.templates, element);
    if previous != NONE {
      PreviousIsHostable(d, element);
      HostableIsLive(d, previous);
    }
    HostableIsLive(d, fragment);
    ContentsFrame(d, element, fragment);
    forall x | x in d.nodes
      ensures Up(ContentsSet(d, element, fragment), x) ==
              if x == fragment then element else if x == previous then NONE else Up(d, x)
    {
      ContentsUp(d, element, fragment, x);
    }
    HeldLinksFrom(d, ContentsSet(d, element, fragment), element, fragment);
  }

  lemma HeldLinksFrom(d: Dom, r: Dom, element: Id, fragment: Id)
    requires r.nodes == d.nodes && fragment in d.nodes
    requires SecondOf(d.templates, element) in d.nodes + map[NONE := d.nodes[fragment]]
    requires forall x :: x in d.nodes ==>
               Up(r, x) == if x == fragment then element
                           else if x == SecondOf(d.templates, element) then NONE else Up(d, x)
    requires NONE !in d.nodes
    ensures Ups(r) == HeldLinks(d, element, fragment)
  {
    hide Up, SecondOf;
  }

  lemma ComposedAgrees(d: Dom)
    requires Composed(d)
    ensures Forest(d) && ShadowsAgree(d) && TemplatesAgree(d) && NONE !in d.nodes
    ensures d.document in d.nodes && d.nodes[d.document].kind == DocumentKind
  {
    RootIsLive(d);
  }

  lemma HostableIsLive(d: Dom, x: Id)
    requires IsHostable(d, x)
    ensures x in d.nodes
  {
  }

  /** An unhosted fragment is on top of its composed tree. */
  lemma FragmentIsTop(d: Dom, fragment: Id)
    requires IsHostable(d, fragment) && !IsHosted(d, fragment)
    ensures Next(Ups(d), fragment) == NONE
  {
    NoContents(d, fragment);
  }

  // --- Depths ---------------------------------------------------------------------------------

  /** The top of the tree of `x` is the one node without a pointer on its chain. */
  lemma TopWithoutPointer(up: Links, x: Id, c: Id)
    requires Grounded(up) && Next(up, c) == NONE
    ensures Under(up, x, c) <==> TopOf(up, x) == c
  {
    TopAlone(up, c);
    if Under(up, x, c) {
      var i := UnderSplits(up, x, c);
    }
  }

  lemma TopHasDepthZero(up: Links, c: Id)
    requires Grounded(up) && Next(up, c) == NONE
    ensures DepthOf(up, c) == 0
  {
    TopAlone(up, c);
  }

  /** A node does not hang below what hangs from it. */
  lemma NotUnderBelow(up: Links, g: Id, e: Id)
    requires Grounded(up) && Next(up, g) == e && e != NONE
    ensures !Under(up, e, g)
  {
    ParentChain(up, g);
    if Under(up, e, g) {
      var i := UnderSplits(up, e, g);
    }
  }

  lemma TopAfterNext(up: Links, g: Id, e: Id)
    requires Grounded(up) && Next(up, g) == e && e != NONE
    ensures TopOf(up, g) == TopOf(up, e)
  {
    ParentChain(up, g);
  }

  /** What was held sinks no deeper; what is held now hangs one below the element. */
  lemma HeldDepths(up: Links, g: Id, f: Id, e: Id, x: Id)
    requires Sound(up) && e in up && f in up && e != NONE && Next(up, f) == NONE && !Under(up, e, f)
    requires g != NONE ==> g in up && g != f && Next(up, g) == e
    ensures var held := if g == NONE then up[f := e] else up[g := NONE][f := e];
            && Sound(held)
            && (Under(up, x, f) ==> DepthOf(held, x) == DepthOf(up, x) + 1 + DepthOf(up, e))
            && (!Under(up, x, f) ==> DepthOf(held, x) <= DepthOf(up, x))
  {
    hide ChainOf, Closed, Grounded, IsChain, Under, TopOf, DepthOf;
    SoundIsGrounded(up);
    TopWithoutPointer(up, e, f);
    TopWithoutPointer(up, x, f);
    if g == NONE {
      Hang(up, f, e, x);
    } else {
      var two := up[g := NONE];
      NotUnderBelow(up, g, e);
      TopAfterNext(up, g, e);
      CutKeepsSound(up, g);
      SoundIsGrounded(two);
      LetGo(up, g, e);
      LetGo(up, g, x);
      assert Next(two, f) == NONE;
      TopWithoutPointer(two, x, f);
      Hang(two, f, e, x);
    }
  }

  /** Cutting one pointer: nothing gets deeper, and only what hung below it gets another top. */
  lemma LetGo(up: Links, g: Id, x: Id)
    requires Sound(up) && g in up
    ensures Sound(up[g := NONE])
    ensures DepthOf(up[g := NONE], x) <= DepthOf(up, x)
    ensures !Under(up, x, g) ==>
              TopOf(up[g := NONE], x) == TopOf(up, x) && DepthOf(up[g := NONE], x) == DepthOf(up, x)
    ensures Under(up, x, g) ==> TopOf(up[g := NONE], x) == g && TopOf(up, x) == TopOf(up, g)
  {
    Cut(up, g, x);
    if Under(up, x, g) {
      var i := UnderSplits(up, x, g);
    }
  }

  // --- The cap ------------------------------------------------------------------------------------

  lemma ContentsHosts(d: Dom, element: Id, fragment: Id)
    requires ShadowsAgree(d) && TemplatesAgree(d)
    requires element in d.nodes && d.nodes[element].kind == ElementKind
    requires IsHostable(d, fragment) && !IsHosted(d, fragment)
    ensures var r := ContentsSet(d, element, fragment); ShadowsAgree(r) && TemplatesAgree(r)
  {
    hide KeyIndex;
    var r := ContentsSet(d, element, fragment);
    PairSetIsOneToOne(d.templates, element, fragment);
    forall i | 0 <= i < |r.templates|
      ensures r.templates[i].0 in r.nodes && r.nodes[r.templates[i].0].kind == ElementKind
      ensures IsHostable(r, r.templates[i].1) && r.templates[i].1 !in r.shadowHosts
    {
      assert r.templates[i] == (element, fragment) || r.templates[i] == d.templates[i];
      assert i < |d.templates| ==> IsHostable(d, d.templates[i].1);
    }
    forall x | x in r.shadowHosts ensures IsHostable(r, x) {
      assert IsHostable(d, x);
    }
  }

  lemma ContentsKeepForest(d: Dom, element: Id, fragment: Id)
    requires Forest(d)
    ensures Forest(ContentsSet(d, element, fragment))
  {
  }

  lemma MayHoldParts(d: Dom, element: Id, fragment: Id)
    requires Sound(Ups(d)) && MayHold(d, element, fragment)
    ensures element in d.nodes && d.nodes[element].kind == ElementKind && fragment in d.nodes
    ensures IsHostable(d, fragment) && !IsHosted(d, fragment) && !Under(Ups(d), element, fragment)
  {
  }

  /** Every depth once the element holds the fragment. */
  lemma ContentsDepths(d: Dom, element: Id, fragment: Id, x: Id)
    requires Composed(d) && MayHold(d, element, fragment)
    ensures var r := ContentsSet(d, element, fragment);
            && Sound(Ups(r))
            && (Under(Ups(d), x, fragment) ==>
                  DepthOf(Ups(r), x) == DepthOf(Ups(d), x) + 1 + DepthOf(Ups(d), element))
            && (!Under(Ups(d), x, fragment) ==> DepthOf(Ups(r), x) <= DepthOf(Ups(d), x))
  {
    hide *;
    ComposedIsSound(d);
    ComposedAgrees(d);
    MayHoldParts(d, element, fragment);
    ContentsUps(d, element, fragment);
    FragmentIsTop(d, fragment);
    UpsKeys(d);
    PreviousLink(d, element, fragment);
    HeldLinksAre(d, element, fragment);
    HeldDepths(Ups(d), SecondOf(d.templates, element), fragment, element, x);
  }

  lemma HeldLinksAre(d: Dom, element: Id, fragment: Id)
    ensures var g := SecondOf(d.templates, element);
            HeldLinks(d, element, fragment) ==
              if g == NONE then Ups(d)[fragment := element] else Ups(d)[g := NONE][fragment := element]
  {
  }

  lemma PreviousLink(d: Dom, element: Id, fragment: Id)
    requires TemplatesAgree(d) && !IsHosted(d, fragment)
    ensures var g := SecondOf(d.templates, element);
            g != NONE ==> g in Ups(d) && g != fragment && Next(Ups(d), g) == element
  {
    if SecondOf(d.templates, element) != NONE {
      hide TemplatesAgree;
      PreviousIsHostable(d, element);
      FirstFound(d.templates, element);
    }
  }

  /** `set_template_content` keeps the cap exactly when the fragment's tree has room below the element. */
  lemma ContentsSetKeepsCapExactly(d: Dom, element: Id, fragment: Id)
    requires Capped(d) && MayHold(d, element, fragment)
    ensures Capped(ContentsSet(d, element, fragment)) <==>
            CappedDepth(d, element, MAX_DOM_DEPTH) + 1 + CappedHeight(d, fragment, MAX_DOM_DEPTH) < MAX_DOM_DEPTH
  {
    hide *;
    CappedParts(d);
    ComposedIsSound(d);
    ComposedAgrees(d);
    MayHoldParts(d, element, fragment);
    ContentsKeepForest(d, element, fragment);
    ContentsHosts(d, element, fragment);
    var r := ContentsSet(d, element, fragment);
    ContentsFrame(d, element, fragment);
    DepthIsCapped(d, element, MAX_DOM_DEPTH);
    BoundAt(d, element);
    TopHasDepthZero(Ups(d), fragment) by { FragmentIsTop(d, fragment); }
    var y := HeightReached(d, fragment, MAX_DOM_DEPTH);
    ContentsDepths(d, element, fragment, y);
    if Capped(r) {
      CappedParts(r);
      BoundAt(r, y);
    }
    if CappedDepth(d, element, MAX_DOM_DEPTH) + 1 + CappedHeight(d, fragment, MAX_DOM_DEPTH) < MAX_DOM_DEPTH {
      SoundIsGrounded(Ups(r));
      forall x | x in r.nodes ensures DepthOf(Ups(r), x) < MAX_DOM_DEPTH {
        ContentsDepths(d, element, fragment, x);
        BoundAt(d, x);
        if Under(Ups(d), x, fragment) {
          HeightCovers(d, fragment, x, MAX_DOM_DEPTH);
        }
      }
      MakeCapped(r);
    }
  }

  lemma ContentsFrame(d: Dom, element: Id, fragment: Id)
    ensures var r := ContentsSet(d, element, fragment); r.nodes == d.nodes && r.document == d.document
  {
  }

  // --- The cap can be broken ------------------------------------------------------------------

  /** A template at the last depth allowed, and the fragment made for it when its contents are first asked for. */
  function LazyDom(): Dom { Created(ChainDom(MAX_DOM_DEPTH), Node(FragmentKind, [], false, NONE, [], [], [])) }

  lemma LazyDomParts()
    ensures var d := LazyDom();
            && 513 in d.nodes && d.nodes[513].kind == ElementKind && ChainDom(MAX_DOM_DEPTH).next == 514
            && IsHostable(d, 514) && !IsHosted(d, 514)
  {
  }

  lemma LazyDomLinks()
    ensures Capped(LazyDom()) && Sound(Ups(LazyDom()))
    ensures DepthOf(Ups(LazyDom()), 513) == 511 && !Under(Ups(LazyDom()), 513, 514)
  {
    hide *;
    CapIs512();
    var d := ChainDom(MAX_DOM_DEPTH);
    var fragment := Node(FragmentKind, [], false, NONE, [], [], []);
    LazyDomIs();
    ChainDomIsCapped(MAX_DOM_DEPTH);
    CappedParts(d);
    CreatedKeepsCap(d, fragment);
    CappedParts(LazyDom());
    NextIsUnknown(d);
    CreatedUps(d, fragment);
    ChainDomDepth(MAX_DOM_DEPTH, 513);
    UpsKeys(d);
    LazyDomParts();
    AddedNotUnder(Ups(d), 514, 513);
  }

  lemma LazyDomIs()
    ensures LazyDom() == Created(ChainDom(MAX_DOM_DEPTH), Node(FragmentKind, [], false, NONE, [], [], []))
  {
  }

  lemma AddedNotUnder(up: Links, n: Id, x: Id)
    requires Sound(up) && n !in up && n != NONE && x in up
    ensures Sound(up[n := NONE]) && DepthOf(up[n := NONE], x) == DepthOf(up, x) && !Under(up[n := NONE], x, n)
  {
    hide Grounded, IsChain, ChainOf;
    AddKeepsSound(up, n);
    var path := ChainOf(up, x);
    if n in path {
      var i :| 0 <= i < |path| && path[i] == n;
      ChainInMap(up, path, i);
    }
  }

  /** The template's own first `content` breaks the cap: the fragment stands at depth 512. */
  lemma LazyContentsBreakCap()
    ensures var d := LazyDom();
            Capped(d) && Sound(Ups(d)) && MayHold(d, 513, 514) && !Capped(ContentsSet(d, 513, 514))
  {
    hide *;
    CapIs512();
    var d := LazyDom();
    LazyDomLinks();
    LazyDomParts();
    MakeMayHold(d, 513, 514);
    CappedParts(d);
    DepthIsCapped(d, 513, MAX_DOM_DEPTH);
    ContentsSetKeepsCapExactly(d, 513, 514);
  }

  lemma MakeMayHold(d: Dom, element: Id, fragment: Id)
    requires Sound(Ups(d)) && element in d.nodes && d.nodes[element].kind == ElementKind
    requires IsHostable(d, fragment) && !IsHosted(d, fragment) && !Under(Ups(d), element, fragment)
    ensures MayHold(d, element, fragment)
  {
  }
}
