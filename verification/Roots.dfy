/**
  `roots_of` of tools/check/root-reasons.py: which reasons a node's refusal goes back to,
  by a memoised depth-first search over a graph that may be cyclic.
 */
module Roots {
  import opened Lists

  type Node = nat

  /** Each node's dependencies; one that is no node itself is ignored. */
  type Graph = map<Node, set<Node>>

  function Deps(g: Graph, node: Node): (r: set<Node>)
    requires node in g
  {
    set d | d in g[node] && d in g
  }

  // --- The search without its memo ---------------------------------------------------

  /** The nodes a search from here comes back with, and whether it ran into its own stack. */
  ghost function Search(g: Graph, node: Node, stack: set<Node>): (r: (set<Node>, bool))
    requires node in g && stack <= g.Keys
    decreases |g.Keys - stack|, 1
  {
    if node in stack then ({}, true)
    else
      Smaller(g, stack, node);
      var found := Gathered(g, Deps(g, node), stack + {node});
      (if found == {} then {node} else found, AnyHit(g, Deps(g, node), stack + {node}))
  }

  ghost function Gathered(g: Graph, deps: set<Node>, stack: set<Node>): (r: set<Node>)
    requires deps <= g.Keys && stack <= g.Keys
    decreases |g.Keys - stack|, 2
  {
    set d, x | d in deps && x in g && x in Search(g, d, stack).0 :: x
  }

  ghost predicate AnyHit(g: Graph, deps: set<Node>, stack: set<Node>)
    requires deps <= g.Keys && stack <= g.Keys
    decreases |g.Keys - stack|, 2
  {
    exists d :: d in deps && Search(g, d, stack).1
  }

  lemma Smaller(g: Graph, stack: set<Node>, node: Node)
    requires node in g && stack <= g.Keys && node !in stack
    ensures |g.Keys - (stack + {node})| < |g.Keys - stack|
  {
    assert g.Keys - (stack + {node}) == (g.Keys - stack) - {node};
  }

  // --- What it finds --------------------------------------------------------------------

  /** A way from one node to the next dependency, and so on. */
  predicate IsPath(g: Graph, path: seq<Node>)
    decreases |path|
  {
    && path != [] && path[0] in g
    && (|path| > 1 ==> path[1] in Deps(g, path[0]) && IsPath(g, path[1..]))
  }

  function Last(path: seq<Node>): Node
    requires path != []
  {
    path[|path| - 1]
  }

  predicate Avoids(path: seq<Node>, stack: set<Node>) { forall x :: x in path ==> x !in stack }

  /** A way that visits nothing twice and can go nowhere new. */
  predicate IsDeadEnd(g: Graph, path: seq<Node>, stack: set<Node>) {
    && IsPath(g, path) && NoRepeats(path) && Avoids(path, stack)
    && Last(path) in g && forall d :: d in Deps(g, Last(path)) ==> d in stack || d in path
  }

  /** A way that comes back to where it has been. */
  predicate ComesBack(g: Graph, path: seq<Node>, stack: set<Node>) {
    IsPath(g, path) && (Last(path) in stack || Last(path) in path[..|path| - 1])
  }

  ghost predicate HasCycleAhead(g: Graph, node: Node, stack: set<Node>) {
    exists path :: ComesBack(g, path, stack) && path[0] == node
  }

  ghost predicate Reaches(g: Graph, from: Node, to: Node) {
    exists path :: IsPath(g, path) && path[0] == from && Last(path) == to
  }

  /** The nodes ahead that depend on no node. */
  ghost function SinksAhead(g: Graph, node: Node): (r: set<Node>) {
    set x | x in g && Deps(g, x) == {} && Reaches(g, node, x)
  }

  lemma {:induction false} PathStaysInside(g: Graph, path: seq<Node>)
    requires IsPath(g, path)
    ensures forall x :: x in path ==> x in g
    decreases |path|
  {
    if |path| > 1 {
      PathStaysInside(g, path[1..]);
      assert path == [path[0]] + path[1..];
    }
  }

  lemma PathGrows(g: Graph, node: Node, path: seq<Node>)
    requires node in g && IsPath(g, path) && path[0] in Deps(g, node)
    ensures IsPath(g, [node] + path) && Last([node] + path) == Last(path)
  {
    assert ([node] + path)[1..] == path;
  }

  /** The way ahead of a node: what is left once it is on the stack. */
  lemma DeadEndGrows(g: Graph, node: Node, path: seq<Node>, stack: set<Node>)
    requires node in g && node !in stack && IsDeadEnd(g, path, stack + {node}) && path[0] in Deps(g, node)
    ensures IsDeadEnd(g, [node] + path, stack) && Last([node] + path) == Last(path)
  {
    PathGrows(g, node, path);
    var longer := [node] + path;
    assert node !in path;
    forall i, j | 0 <= i < j < |longer| ensures longer[i] != longer[j] {
      assert longer[j] == path[j - 1];
      if i > 0 {
        assert longer[i] == path[i - 1];
      }
    }
  }

  lemma DeadEndShrinks(g: Graph, path: seq<Node>, stack: set<Node>)
    requires IsDeadEnd(g, path, stack) && |path| > 1
    ensures IsDeadEnd(g, path[1..], stack + {path[0]}) && Last(path[1..]) == Last(path)
    ensures path[1] in Deps(g, path[0]) && path[0] !in stack
  {
    assert path == [path[0]] + path[1..];
  }

  lemma DeadEndAvoidsStack(g: Graph, path: seq<Node>, stack: set<Node>)
    requires IsDeadEnd(g, path, stack)
    ensures path[0] !in stack && path[0] in g
  {
  }

  /**
    The search finds exactly the ends of the ways that visit nothing twice and can go
    nowhere new, in any graph: the roots of a node under a stack.
   */
  lemma {:induction false} FoundAreDeadEnds(g: Graph, node: Node, stack: set<Node>, x: Node)
    requires node in g && stack <= g.Keys
    ensures x in Search(g, node, stack).0 <==>
            exists path :: IsDeadEnd(g, path, stack) && path[0] == node && Last(path) == x
    decreases |g.Keys - stack|
  {
    if path :| IsDeadEnd(g, path, stack) && path[0] == node && Last(path) == x {
      DeadEndIsFound(g, path, stack);
    }
    if x in Search(g, node, stack).0 {
      var path := FoundHasDeadEnd(g, node, stack, x);
    }
  }

  lemma {:induction false} DeadEndIsFound(g: Graph, path: seq<Node>, stack: set<Node>)
    requires IsDeadEnd(g, path, stack) && stack <= g.Keys
    ensures path[0] in g && Last(path) in Search(g, path[0], stack).0
    decreases |path|
  {
    hide NoRepeats, Avoids;
    DeadEndAvoidsStack(g, path, stack);
    var node := path[0];
    var on := stack + {node};
    Smaller(g, stack, node);
    if |path| == 1 {
      forall d | d in Deps(g, node) ensures Search(g, d, on).0 == {} {
        assert d in on;
      }
      assert Gathered(g, Deps(g, node), on) == {};
    } else {
      DeadEndShrinks(g, path, stack);
      PathStaysInside(g, path);
      DeadEndIsFound(g, path[1..], on);
      assert Last(path) in Gathered(g, Deps(g, node), on);
    }
  }

  lemma {:induction false} FoundHasDeadEnd(g: Graph, node: Node, stack: set<Node>, x: Node) returns (path: seq<Node>)
    requires node in g && stack <= g.Keys && x in Search(g, node, stack).0
    ensures IsDeadEnd(g, path, stack) && path[0] == node && Last(path) == x
    decreases |g.Keys - stack|
  {
    var on := stack + {node};
    Smaller(g, stack, node);
    var found := Gathered(g, Deps(g, node), on);
    if found == {} {
      path := [node];
      forall d | d in Deps(g, node) ensures d in on {
        OpenSearchFinds(g, d, on);
        assert forall y :: y in Search(g, d, on).0 && y in g ==> y in found;
      }
    } else {
      var d :| d in Deps(g, node) && x in Search(g, d, on).0;
      var rest := FoundHasDeadEnd(g, d, on, x);
      DeadEndGrows(g, node, rest, stack);
      path := [node] + rest;
    }
  }

  /** A search that starts off the stack comes back with something, all of it nodes. */
  lemma OpenSearchFinds(g: Graph, node: Node, stack: set<Node>)
    requires node in g && stack <= g.Keys
    ensures node !in stack ==> exists y :: y in g && y in Search(g, node, stack).0
    ensures Search(g, node, stack).0 <= g.Keys
  {
    if node !in stack {
      Smaller(g, stack, node);
      var found := Gathered(g, Deps(g, node), stack + {node});
      assert found <= g.Keys;
      if found != {} {
        var y :| y in found;
        assert y in Search(g, node, stack).0;
      } else {
        assert node in Search(g, node, stack).0;
      }
    }
  }

  /** The search reports a hit exactly when some way ahead comes back to itself or the stack. */
  lemma {:induction false} HitIsCycle(g: Graph, node: Node, stack: set<Node>)
    requires node in g && stack <= g.Keys
    ensures Search(g, node, stack).1 <==> HasCycleAhead(g, node, stack)
    decreases |g.Keys - stack|
  {
    if node in stack {
      assert ComesBack(g, [node], stack);
    } else {
      var on := stack + {node};
      Smaller(g, stack, node);
      forall d | d in Deps(g, node)
        ensures Search(g, d, on).1 <==> HasCycleAhead(g, d, on)
      {
        HitIsCycle(g, d, on);
      }
      if d :| d in Deps(g, node) && HasCycleAhead(g, d, on) {
        var path :| ComesBack(g, path, on) && path[0] == d;
        CycleGrows(g, node, path, stack);
      }
      if HasCycleAhead(g, node, stack) {
        var path :| ComesBack(g, path, stack) && path[0] == node;
        CycleShrinks(g, path, stack);
        assert path[1] in Deps(g, node) && HasCycleAhead(g, path[1], on);
      }
    }
  }

  lemma CycleGrows(g: Graph, node: Node, path: seq<Node>, stack: set<Node>)
    requires node in g && ComesBack(g, path, stack + {node}) && path[0] in Deps(g, node)
    ensures ComesBack(g, [node] + path, stack)
  {
    PathGrows(g, node, path);
    var longer := [node] + path;
    assert longer[..|longer| - 1] == [node] + path[..|path| - 1];
  }

  lemma CycleShrinks(g: Graph, path: seq<Node>, stack: set<Node>)
    requires ComesBack(g, path, stack) && path[0] !in stack
    ensures |path| > 1 && path[1] in Deps(g, path[0]) && ComesBack(g, path[1..], stack + {path[0]})
  {
    assert |path| > 1;
    assert path[..|path| - 1] == [path[0]] + path[1..][..|path| - 2];
  }

  // --- Without a cycle ahead ---------------------------------------------------------------

  /** Whatever a way reaches on its first step, a sink ahead of it is a sink ahead of here. */
  lemma SinksGather(g: Graph, node: Node, x: Node)
    requires node in g && Deps(g, node) != {}
    ensures x in SinksAhead(g, node) <==> exists d :: d in Deps(g, node) && x in SinksAhead(g, d)
  {
    if x in SinksAhead(g, node) {
      var path :| IsPath(g, path) && path[0] == node && Last(path) == x;
      assert |path| > 1;
      assert IsPath(g, path[1..]) && path[1..][0] == path[1] && Last(path[1..]) == x;
      assert x in SinksAhead(g, path[1]);
    }
    if d :| d in Deps(g, node) && x in SinksAhead(g, d) {
      var path :| IsPath(g, path) && path[0] == d && Last(path) == x;
      PathGrows(g, node, path);
    }
  }

  lemma SinkIsItself(g: Graph, node: Node)
    requires node in g && Deps(g, node) == {}
    ensures SinksAhead(g, node) == {node}
  {
    assert IsPath(g, [node]) && Last([node]) == node;
    forall x | x in SinksAhead(g, node) ensures x == node {
      var path :| IsPath(g, path) && path[0] == node && Last(path) == x;
      assert |path| == 1;
    }
  }

  /** Where no way ahead comes back, the search finds exactly the sinks ahead. */
  lemma {:induction false} AcyclicFindsSinks(g: Graph, node: Node, stack: set<Node>)
    requires node in g && stack <= g.Keys && !Search(g, node, stack).1
    ensures Search(g, node, stack).0 == SinksAhead(g, node)
    decreases |g.Keys - stack|
  {
    var on := stack + {node};
    Smaller(g, stack, node);
    var deps := Deps(g, node);
    forall d | d in deps ensures Search(g, d, on).0 == SinksAhead(g, d) {
      assert !Search(g, d, on).1;
      AcyclicFindsSinks(g, d, on);
    }
    var found := Gathered(g, deps, on);
    if deps == {} {
      SinkIsItself(g, node);
    } else {
      forall x ensures x in found <==> x in SinksAhead(g, node) {
        SinksGather(g, node, x);
      }
      var d :| d in deps;
      OpenSearchFinds(g, d, on);
      assert d !in on;
    }
  }

  // --- The memo ------------------------------------------------------------------------------

  /** Every node on the stack leads here. */
  ghost predicate LeadsHere(g: Graph, stack: set<Node>, node: Node) {
    forall s :: s in stack ==> exists path :: IsPath(g, path) && |path| > 1 && path[0] == s && Last(path) == node
  }

  lemma {:induction false} PathsJoin(g: Graph, p: seq<Node>, q: seq<Node>)
    requires IsPath(g, p) && IsPath(g, q) && Last(p) == q[0]
    ensures IsPath(g, p + q[1..]) && Last(p + q[1..]) == Last(q) && (p + q[1..])[0] == p[0]
    decreases |p|
  {
    if |p| == 1 {
      assert p + q[1..] == q;
    } else {
      PathsJoin(g, p[1..], q);
      assert (p + q[1..])[1..] == p[1..] + q[1..];
    }
  }

  lemma LeadsOn(g: Graph, stack: set<Node>, node: Node, d: Node)
    requires LeadsHere(g, stack, node) && node in g && d in Deps(g, node)
    ensures LeadsHere(g, stack + {node}, d)
  {
    assert IsPath(g, [node, d]);
    forall s | s in stack + {node}
      ensures exists path :: IsPath(g, path) && |path| > 1 && path[0] == s && Last(path) == d
    {
      if s in stack {
        var path :| IsPath(g, path) && |path| > 1 && path[0] == s && Last(path) == node;
        PathsJoin(g, path, [node, d]);
        assert IsPath(g, path + [node, d][1..]);
      }
    }
  }

  /** A way that comes back to a node that leads here comes back to here. */
  lemma StackChangesNothing(g: Graph, stack: set<Node>, node: Node)
    requires node in g && LeadsHere(g, stack, node) && HasCycleAhead(g, node, stack)
    ensures HasCycleAhead(g, node, {})
  {
    var p :| ComesBack(g, p, stack) && p[0] == node;
    if Last(p) in stack {
      var q :| IsPath(g, q) && |q| > 1 && q[0] == Last(p) && Last(q) == node;
      PathsJoin(g, p, q);
      var round := p + q[1..];
      assert round[..|round| - 1][0] == node;
      assert ComesBack(g, round, {});
    } else {
      assert ComesBack(g, p, {});
    }
  }

  /** A memo only of nodes with no cycle ahead, each with its sinks. */
  ghost predicate MemoAgrees(g: Graph, memo: map<Node, set<Node>>) {
    forall n :: n in memo ==> n in g && !HasCycleAhead(g, n, {}) && memo[n] == SinksAhead(g, n)
  }

  /** An answer from the memo is the search's own, whatever is on the stack. */
  lemma MemoAnswers(g: Graph, memo: map<Node, set<Node>>, stack: set<Node>, node: Node)
    requires MemoAgrees(g, memo) && node in memo && stack <= g.Keys && LeadsHere(g, stack, node)
    ensures node in g && Search(g, node, stack) == (memo[node], false)
  {
    hide *;
    MemoParts(g, memo, node);
    if HasCycleAhead(g, node, stack) {
      StackChangesNothing(g, stack, node);
    }
    HitIsCycle(g, node, stack);
    AcyclicFindsSinks(g, node, stack);
  }

  lemma MemoParts(g: Graph, memo: map<Node, set<Node>>, node: Node)
    requires MemoAgrees(g, memo) && node in memo
    ensures node in g && !HasCycleAhead(g, node, {}) && memo[node] == SinksAhead(g, node)
  {
  }

  /** What a search without a hit found may be kept. */
  lemma MemoMayKeep(g: Graph, memo: map<Node, set<Node>>, stack: set<Node>, node: Node)
    requires MemoAgrees(g, memo) && node in g && stack <= g.Keys && !Search(g, node, stack).1
    ensures MemoAgrees(g, memo[node := Search(g, node, stack).0])
  {
    HitIsCycle(g, node, stack);
    AcyclicFindsSinks(g, node, stack);
    forall path | ComesBack(g, path, {}) ensures ComesBack(g, path, stack) {
    }
  }

  lemma SearchUnfolds(g: Graph, node: Node, stack: set<Node>)
    requires node in g && stack <= g.Keys
    ensures node in stack ==> Search(g, node, stack) == ({}, true)
    ensures node !in stack ==>
      var found := Gathered(g, Deps(g, node), stack + {node});
      Search(g, node, stack) == (if found == {} then {node} else found, AnyHit(g, Deps(g, node), stack + {node}))
  {
  }

  lemma DepsMean(g: Graph, node: Node)
    requires node in g
    ensures forall d :: d in Deps(g, node) <==> d in g[node] && d in g
  {
  }

  lemma NothingGathered(g: Graph, stack: set<Node>)
    requires stack <= g.Keys
    ensures Gathered(g, {}, stack) == {} && !AnyHit(g, {}, stack)
  {
  }

  lemma GatherOneMore(g: Graph, seen: set<Node>, dep: Node, stack: set<Node>)
    requires seen <= g.Keys && dep in g && stack <= g.Keys
    ensures Gathered(g, seen + {dep}, stack) == Gathered(g, seen, stack) + Search(g, dep, stack).0
    ensures AnyHit(g, seen + {dep}, stack) == (AnyHit(g, seen, stack) || Search(g, dep, stack).1)
  {
    OpenSearchFinds(g, dep, stack);
  }

  class Finder {
    const nodes: Graph
    var memo: map<Node, set<Node>>
    var stack: set<Node>

    constructor (nodes: Graph)
      ensures this.nodes == nodes && memo == map[] && stack == {}
    {
      this.nodes := nodes;
      memo, stack := map[], {};
    }

    ghost predicate Valid()
      reads this
    {
      MemoAgrees(nodes, memo) && stack <= nodes.Keys
    }

    /** `visit`. */
    method Visit(node: Node) returns (found: set<Node>, cyclic: bool)
      requires Valid() && node in nodes && LeadsHere(nodes, stack, node)
      modifies this
      ensures Valid() && stack == old(stack)
      ensures (found, cyclic) == Search(nodes, node, stack)
      decreases |nodes.Keys - stack|
    {
      hide LeadsHere, MemoAgrees, Search, Gathered, AnyHit, Deps;
      if node in memo {
        MemoAnswers(nodes, memo, stack, node);
        return memo[node], false;
      }
      SearchUnfolds(nodes, node, stack);
      DepsMean(nodes, node);
      if node in stack {
        return {}, true;
      }
      ghost var before := stack;
      Smaller(nodes, stack, node);
      stack := stack + {node};
      found, cyclic := {}, false;
      NothingGathered(nodes, stack);
      assert Deps(nodes, node) - nodes[node] == {};
      var rest := nodes[node];
      while rest != {}
        invariant Valid() && stack == before + {node} && rest <= nodes[node]
        invariant found == Gathered(nodes, Deps(nodes, node) - rest, stack)
        invariant cyclic == AnyHit(nodes, Deps(nodes, node) - rest, stack)
        decreases |rest|
      {
        var dep :| dep in rest;
        ghost var seen := Deps(nodes, node) - rest;
        rest := rest - {dep};
        if dep in nodes {
          LeadsOn(nodes, before, node, dep);
          var more, hit := Visit(dep);
          GatherOneMore(nodes, seen, dep, stack);
          assert Deps(nodes, node) - rest == seen + {dep};
          found := found + more;
          cyclic := cyclic || hit;
        } else {
          assert Deps(nodes, node) - rest == seen;
        }
      }
      assert Deps(nodes, node) - rest == Deps(nodes, node);
      stack := stack - {node};
      assert stack == before;
      if found == {} {
        found := {node};
      }
      if !cyclic {
        MemoMayKeep(nodes, memo, stack, node);
        memo := memo[node := found];
      }
    }

    /** Every node from its own start, in any order, with one memo. */
    method RootsOf() returns (roots: map<Node, set<Node>>)
      requires Valid() && stack == {}
      modifies this
      ensures Valid() && stack == {}
      ensures roots.Keys == nodes.Keys
      ensures forall n :: n in nodes ==> roots[n] == Search(nodes, n, {}).0
    {
      roots := map[];
      var rest := nodes.Keys;
      while rest != {}
        invariant Valid() && stack == {} && rest <= nodes.Keys && roots.Keys == nodes.Keys - rest
        invariant forall n :: n in roots ==> roots[n] == Search(nodes, n, {}).0
        decreases |rest|
      {
        var node :| node in rest;
        rest := rest - {node};
        var found, cyclic := Visit(node);
        roots := roots[node := found];
      }
    }
  }

  // --- What the results mean -----------------------------------------------------------------

  lemma {:induction false} PathPrefix(g: Graph, path: seq<Node>, n: nat)
    requires IsPath(g, path) && 0 < n <= |path|
    ensures IsPath(g, path[..n])
    decreases n
  {
    if n > 1 {
      PathPrefix(g, path[1..], n - 1);
      assert path[..n][1..] == path[1..][..n - 1];
    }
  }

  lemma {:induction false} PathSuffix(g: Graph, path: seq<Node>, n: nat)
    requires IsPath(g, path) && n < |path|
    ensures IsPath(g, path[n..])
    decreases n
  {
    if n > 0 {
      PathSuffix(g, path[1..], n - 1);
      assert path[n..] == path[1..][n - 1..];
    }
  }

  /** A way with a round in it can leave the round out. */
  lemma {:induction false} SimplePath(g: Graph, path: seq<Node>) returns (short: seq<Node>)
    requires IsPath(g, path)
    ensures IsPath(g, short) && NoRepeats(short) && short[0] == path[0] && Last(short) == Last(path)
    decreases |path|
  {
    if NoRepeats(path) {
      return path;
    }
    var i, j :| 0 <= i < j < |path| && path[i] == path[j];
    PathPrefix(g, path, i + 1);
    PathSuffix(g, path, j);
    PathsJoin(g, path[..i + 1], path[j..]);
    short := SimplePath(g, path[..i + 1] + path[j..][1..]);
  }

  lemma SinkIsFound(g: Graph, node: Node, x: Node)
    requires node in g && x in SinksAhead(g, node)
    ensures x in Search(g, node, {}).0
  {
    var path :| IsPath(g, path) && path[0] == node && Last(path) == x;
    var short := SimplePath(g, path);
    assert IsDeadEnd(g, short, {});
    DeadEndIsFound(g, short, {});
  }

  /**
    A node's roots are never none, all ahead of it, and hold every sink ahead; with no
    cycle ahead they are those sinks and no more.
   */
  lemma RootsMean(g: Graph, node: Node)
    requires node in g
    ensures var roots := Search(g, node, {}).0;
            && roots != {} && SinksAhead(g, node) <= roots
            && (forall x :: x in roots ==> x in g && Reaches(g, node, x))
            && (!HasCycleAhead(g, node, {}) ==> roots == SinksAhead(g, node))
  {
    hide Search, SinksAhead, HasCycleAhead;
    OpenSearchFinds(g, node, {});
    HitIsCycle(g, node, {});
    if !HasCycleAhead(g, node, {}) {
      AcyclicFindsSinks(g, node, {});
    }
    forall x | x in SinksAhead(g, node) ensures x in Search(g, node, {}).0 {
      SinkIsFound(g, node, x);
    }
    forall x | x in Search(g, node, {}).0 ensures Reaches(g, node, x) {
      var path := FoundHasDeadEnd(g, node, {}, x);
    }
  }
}
