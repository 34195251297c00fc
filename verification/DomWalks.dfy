/** What the worklist of `height` has left to find, and how much work it is. */
module DomWalks {
  import opened Chains
  import opened DomStore

  /** A node still to be looked at, and its distance from the start. */
  type Todo = seq<(Id, nat)>

  /** The greatest distance an entry can lead to. */
  function Reach(d: Dom, entry: (Id, nat)): (n: nat)
    requires entry.1 <= MAX_DOM_DEPTH
    ensures entry.1 <= n <= MAX_DOM_DEPTH
  {
    entry.1 + CappedHeight(d, entry.0, MAX_DOM_DEPTH - entry.1)
  }

  predicate InRange(todo: Todo) { forall i :: 0 <= i < |todo| ==> todo[i].1 <= MAX_DOM_DEPTH }

  function Max(a: nat, b: nat): nat { if a < b then b else a }

  function Best(d: Dom, todo: Todo): (n: nat)
    requires InRange(todo)
    ensures n <= MAX_DOM_DEPTH
  {
    if todo == [] then 0 else Max(Reach(d, todo[0]), Best(d, todo[1..]))
  }

  /** The entries of some nodes at one distance. */
  function Entries(kids: seq<Id>, below: nat): (todo: Todo)
    ensures |todo| == |kids|
    ensures forall i :: 0 <= i < |kids| ==> todo[i] == (kids[i], below)
  {
    if kids == [] then [] else [(kids[0], below)] + Entries(kids[1..], below)
  }

  lemma {:induction false} BestOfConcat(d: Dom, a: Todo, b: Todo)
    requires InRange(a) && InRange(b)
    ensures InRange(a + b) && Best(d, a + b) == Max(Best(d, a), Best(d, b))
  {
    if a == [] {
      assert a + b == b;
    } else {
      assert (a + b)[1..] == a[1..] + b;
      BestOfConcat(d, a[1..], b);
    }
  }

  lemma {:induction false} BestOfEntries(d: Dom, kids: seq<Id>, below: nat)
    requires below < MAX_DOM_DEPTH
    ensures InRange(Entries(kids, below + 1))
    ensures kids == [] ==> Best(d, Entries(kids, below + 1)) == 0
    ensures kids != [] ==>
              Best(d, Entries(kids, below + 1)) == below + TallestOf(d, kids, MAX_DOM_DEPTH - below - 1)
  {
    if kids != [] {
      BestOfEntries(d, kids[1..], below);
      assert Entries(kids, below + 1)[1..] == Entries(kids[1..], below + 1);
    }
  }

  lemma BestOfOne(d: Dom, at: Id, below: nat)
    requires below < MAX_DOM_DEPTH
    ensures InRange([(at, below)])
    ensures Best(d, [(at, below)]) == below + TallestOf(d, Below(d, at), MAX_DOM_DEPTH - below - 1)
  {
    assert [(at, below)][1..] == [];
    assert CappedHeight(d, at, MAX_DOM_DEPTH - below) == TallestOf(d, Below(d, at), MAX_DOM_DEPTH - below - 1);
  }

  /** Looking at a node and listing the nodes below it loses nothing. */
  lemma StepKeepsBest(d: Dom, rest: Todo, at: Id, below: nat, tallest: nat)
    requires InRange(rest) && below < MAX_DOM_DEPTH
    ensures InRange(rest + [(at, below)]) && InRange(rest + Entries(Below(d, at), below + 1))
    ensures Max(Max(tallest, below), Best(d, rest + Entries(Below(d, at), below + 1)))
         == Max(tallest, Best(d, rest + [(at, below)]))
  {
    hide Best, Entries, Below, CappedHeight;
    var kids := Below(d, at);
    BestOfOne(d, at, below);
    BestOfEntries(d, kids, below);
    BestOfConcat(d, rest, [(at, below)]);
    BestOfConcat(d, rest, Entries(kids, below + 1));
  }

  // --- Work -----------------------------------------------------------------------

  /** How many ways down there are from a node, in at most `most` steps. */
  function Paths(d: Dom, x: Id, most: nat): (n: nat)
    ensures n >= 1
    decreases most, 0
  {
    if most == 0 then 1 else 1 + PathsOf(d, Below(d, x), most - 1)
  }

  function PathsOf(d: Dom, kids: seq<Id>, most: nat): nat
    decreases most, 1, |kids|
  {
    if kids == [] then 0 else Paths(d, kids[0], most) + PathsOf(d, kids[1..], most)
  }

  function Work(d: Dom, todo: Todo): nat
    requires InRange(todo)
  {
    if todo == [] then 0 else Paths(d, todo[0].0, MAX_DOM_DEPTH - todo[0].1) + Work(d, todo[1..])
  }

  lemma {:induction false} WorkOfConcat(d: Dom, a: Todo, b: Todo)
    requires InRange(a) && InRange(b)
    ensures InRange(a + b) && Work(d, a + b) == Work(d, a) + Work(d, b)
  {
    if a == [] {
      assert a + b == b;
    } else {
      assert (a + b)[1..] == a[1..] + b;
      WorkOfConcat(d, a[1..], b);
    }
  }

  lemma {:induction false} WorkOfEntries(d: Dom, kids: seq<Id>, below: nat)
    requires below < MAX_DOM_DEPTH
    ensures InRange(Entries(kids, below + 1))
    ensures Work(d, Entries(kids, below + 1)) == PathsOf(d, kids, MAX_DOM_DEPTH - below - 1)
  {
    if kids != [] {
      WorkOfEntries(d, kids[1..], below);
      assert Entries(kids, below + 1)[1..] == Entries(kids[1..], below + 1);
    }
  }

  lemma WorkOfOne(d: Dom, at: Id, below: nat)
    requires below < MAX_DOM_DEPTH
    ensures InRange([(at, below)])
    ensures Work(d, [(at, below)]) == 1 + PathsOf(d, Below(d, at), MAX_DOM_DEPTH - below - 1)
  {
    assert [(at, below)][1..] == [];
  }

  /** Replacing a node by the nodes below it leaves less to do. */
  lemma StepShrinksWork(d: Dom, rest: Todo, at: Id, below: nat)
    requires InRange(rest) && below < MAX_DOM_DEPTH
    ensures InRange(rest + [(at, below)]) && InRange(rest + Entries(Below(d, at), below + 1))
    ensures Work(d, rest + Entries(Below(d, at), below + 1)) < Work(d, rest + [(at, below)])
  {
    hide Work, Entries, Below, Paths, PathsOf;
    WorkOfOne(d, at, below);
    WorkOfEntries(d, Below(d, at), below);
    WorkOfConcat(d, rest, [(at, below)]);
    WorkOfConcat(d, rest, Entries(Below(d, at), below + 1));
  }

  /** An entry at the cap is as far as anything gets. */
  lemma AtTheCap(d: Dom, rest: Todo, at: Id)
    requires InRange(rest)
    ensures InRange(rest + [(at, MAX_DOM_DEPTH)]) && Best(d, rest + [(at, MAX_DOM_DEPTH)]) == MAX_DOM_DEPTH
  {
    hide CappedHeight;
    BestOfConcat(d, rest, [(at, MAX_DOM_DEPTH)]);
    assert Best(d, [(at, MAX_DOM_DEPTH)]) >= MAX_DOM_DEPTH;
  }

  lemma WholeWalk(d: Dom, id: Id)
    ensures InRange([(id, 0)]) && Best(d, [(id, 0)]) == CappedHeight(d, id, MAX_DOM_DEPTH)
  {
    hide CappedHeight;
    assert [(id, 0)][1..] == [];
  }
}
