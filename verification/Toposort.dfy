/** Topological sorting of the gates of an and-inverter graph by depth-first search. */
module Toposort {
  import opened Collections

  type Lit = nat

  /** The inputs of the gates. Gate i defines the variable `first + i`; smaller
      variables are constants, inputs and latches. */
  datatype Graph = Graph(gates: seq<(Lit, Lit)>, first: nat) {
    /** The variables that a gate refers to exist. */
    predicate GateDefined(i: nat) {
      i < |gates| && gates[i].0 / 2 < first + |gates| && gates[i].1 / 2 < first + |gates|
    }

    predicate Defined() {
      forall i :: 0 <= i < |gates| ==> GateDefined(i)
    }

    /** Gate `j` is an input of gate `i`. */
    predicate Edge(i: nat, j: nat) {
      i < |gates| && j < |gates| && (gates[i].0 / 2 == first + j || gates[i].1 / 2 == first + j)
    }

    /** A walk along inputs. */
    predicate Walk(p: seq<nat>) {
      forall k :: 0 <= k < |p| - 1 ==> Edge(p[k], p[k + 1])
    }

    ghost predicate Cyclic() {
      exists p: seq<nat> :: |p| > 1 && Walk(p) && p[0] == p[|p| - 1]
    }

    /** The gates can be ranked such that inputs come before the gates that use them. */
    ghost predicate Acyclic() {
      exists rank: seq<nat> :: |rank| == |gates| && Ranked(rank)
    }

    predicate Ranked(rank: seq<nat>)
      requires |rank| == |gates|
    {
      forall i, j :: 0 <= i < |gates| && 0 <= j < |gates| && Edge(i, j) ==> rank[j] < rank[i]
    }

    /** Along a walk the rank decreases. */
    lemma {:induction false} WalkDescends(rank: seq<nat>, p: seq<nat>, k: nat)
      requires |rank| == |gates| && Ranked(rank) && Walk(p) && 0 < k < |p|
      ensures p[0] < |gates| && p[k] < |gates| && rank[p[k]] < rank[p[0]]
    {
      assert Edge(p[k - 1], p[k]);
      if k > 1 {
        WalkDescends(rank, p, k - 1);
      }
    }

    lemma CyclicNotAcyclic()
      ensures Cyclic() ==> !Acyclic()
    {
      if Cyclic() && Acyclic() {
        var p: seq<nat> :| |p| > 1 && Walk(p) && p[0] == p[|p| - 1];
        var rank: seq<nat> :| |rank| == |gates| && Ranked(rank);
        WalkDescends(rank, p, |p| - 1);
      }
    }
  }

  // Two bits per gate: discovered and finished.

  predicate Seen(visited: seq<bool>, i: nat) {
    2 * i < |visited| && visited[2 * i]
  }

  predicate Finished(visited: seq<bool>, i: nat) {
    2 * i + 1 < |visited| && visited[2 * i + 1]
  }

  /** The new variable of gate `i`. */
  function Var(g: Graph, num: seq<nat>, i: nat): nat
    requires g.first + i < |num|
  {
    num[g.first + i]
  }

  ghost function AllFinished(g: Graph, visited: seq<bool>): set<nat> {
    set i | 0 <= i < |g.gates| && Finished(visited, i)
  }

  ghost function Undiscovered(g: Graph, visited: seq<bool>): set<nat> {
    set i | 0 <= i < |g.gates| && !Seen(visited, i)
  }

  /** The numbers of the finished gates: `first..target`, each once, after their inputs. */
  ghost predicate Numbered(g: Graph, visited: seq<bool>, num: seq<nat>, target: nat) {
    && |visited| == 2 * |g.gates| && g.first + |g.gates| <= |num|
    && (forall i :: 0 <= i < |g.gates| && Finished(visited, i) ==> g.GateDefined(i))
    && (forall i, j :: 0 <= i < |g.gates| && Finished(visited, i) && g.Edge(i, j) ==>
          Finished(visited, j) && Var(g, num, j) < Var(g, num, i))
    && (forall i :: 0 <= i < |g.gates| && Finished(visited, i) ==> g.first <= Var(g, num, i) < target)
    && (forall i, j :: 0 <= i < |g.gates| && 0 <= j < |g.gates| && i != j ==>
          Finished(visited, i) && Finished(visited, j) ==> Var(g, num, i) != Var(g, num, j))
    && target == g.first + |AllFinished(g, visited)|
  }

  /** The discovered but unfinished gates are those on the path. */
  ghost predicate OnPath(g: Graph, visited: seq<bool>, path: seq<nat>) {
    && |visited| == 2 * |g.gates|
    && (forall i :: 0 <= i < |g.gates| && Finished(visited, i) ==> Seen(visited, i))
    && (forall i :: 0 <= i < |g.gates| ==> (Seen(visited, i) && !Finished(visited, i) <==> i in path))
    && (forall k :: 0 <= k < |path| ==> path[k] < |g.gates|)
  }

  /** Finished gates keep their numbers, discovered gates stay discovered, and nothing
      outside the gates is renumbered. */
  ghost predicate Grows(g: Graph, visited: seq<bool>, num: seq<nat>, visited': seq<bool>, num': seq<nat>) {
    && |visited| == 2 * |g.gates| == |visited'| && g.first + |g.gates| <= |num| == |num'|
    && (forall i :: 0 <= i < |g.gates| && Seen(visited, i) ==> Seen(visited', i))
    && (forall i :: 0 <= i < |g.gates| && Finished(visited, i) ==>
          Finished(visited', i) && Var(g, num', i) == Var(g, num, i))
    && (forall i :: 0 <= i < |num| && !(g.first <= i < g.first + |g.gates|) ==> num'[i] == num[i])
  }

  lemma GrowsTrans(g: Graph, v0: seq<bool>, n0: seq<nat>, v1: seq<bool>, n1: seq<nat>, v2: seq<bool>, n2: seq<nat>)
    requires Grows(g, v0, n0, v1, n1) && Grows(g, v1, n1, v2, n2)
    ensures Grows(g, v0, n0, v2, n2)
  {
  }

  lemma SeenStays(g: Graph, v: seq<bool>, num: seq<nat>, v': seq<bool>, num': seq<nat>)
    requires Grows(g, v, num, v', num')
    ensures |Undiscovered(g, v')| <= |Undiscovered(g, v)|
  {
    SubsetSize(Undiscovered(g, v'), Undiscovered(g, v));
  }

  /** Discovering a gate puts it on the path. */
  lemma Discover(g: Graph, v: seq<bool>, num: seq<nat>, target: nat, path: seq<nat>, i: nat)
    requires Numbered(g, v, num, target) && OnPath(g, v, path) && i < |g.gates| && !Seen(v, i)
    ensures var v' := v[2 * i := true];
            && Numbered(g, v', num, target) && OnPath(g, v', path + [i]) && Grows(g, v, num, v', num)
            && |Undiscovered(g, v')| < |Undiscovered(g, v)|
  {
    var v' := v[2 * i := true];
    assert forall j :: 0 <= j < |g.gates| ==> Finished(v', j) == Finished(v, j);
    assert forall j :: 0 <= j < |g.gates| && j != i ==> Seen(v', j) == Seen(v, j);
    assert AllFinished(g, v') == AllFinished(g, v);
    assert Undiscovered(g, v') == Undiscovered(g, v) - {i};
    assert i in Undiscovered(g, v);
    assert forall j :: j in path + [i] <==> j in path || j == i;
  }

  lemma FinishPath(g: Graph, v: seq<bool>, path: seq<nat>, i: nat)
    requires OnPath(g, v, path + [i]) && i < |g.gates| && i !in path
    ensures Seen(v, i) && !Finished(v, i) && OnPath(g, v[2 * i + 1 := true], path)
  {
    var v', p := v[2 * i + 1 := true], path + [i];
    assert i in p;
    assert forall j :: 0 <= j < |g.gates| ==>
             Seen(v', j) == Seen(v, j) && (j != i ==> Finished(v', j) == Finished(v, j));
    assert forall j :: j in p <==> j in path || j == i;
    assert forall k :: 0 <= k < |path| ==> path[k] == p[k];
  }

  /** What setting the finished bit and the number of gate `i` changes. */
  lemma FinishBits(g: Graph, v: seq<bool>, num: seq<nat>, target: nat, i: nat)
    requires |v| == 2 * |g.gates| && g.first + |g.gates| <= |num| && i < |g.gates| && !Finished(v, i)
    ensures var v', num' := v[2 * i + 1 := true], num[g.first + i := target];
            && (forall j :: 0 <= j < |g.gates| ==> Seen(v', j) == Seen(v, j))
            && (forall j :: 0 <= j < |g.gates| && j != i ==>
                  Finished(v', j) == Finished(v, j) && Var(g, num', j) == Var(g, num, j))
            && Finished(v', i) && Var(g, num', i) == target
            && i !in AllFinished(g, v) && AllFinished(g, v') == AllFinished(g, v) + {i}
  {
    var v' := v[2 * i + 1 := true];
    assert forall j :: 0 <= j < |g.gates| && j != i ==> Finished(v', j) == Finished(v, j);
  }

  /** Finishing the last gate of the path gives it the next number. */
  lemma Finish(g: Graph, v: seq<bool>, num: seq<nat>, target: nat, i: nat)
    requires Numbered(g, v, num, target) && i < |g.gates| && Seen(v, i) && !Finished(v, i) && g.GateDefined(i)
    requires forall j :: g.Edge(i, j) ==> Finished(v, j)
    ensures var v', num' := v[2 * i + 1 := true], num[g.first + i := target];
            Numbered(g, v', num', target + 1) && Grows(g, v, num, v', num') && Finished(v', i)
  {
    hide Graph.Edge, Graph.GateDefined, Finished, Seen, Var, AllFinished;
    var v', num' := v[2 * i + 1 := true], num[g.first + i := target];
    FinishBits(g, v, num, target, i);
    forall a: nat, b: nat | a < |g.gates| && Finished(v', a) && g.Edge(a, b)
      ensures b < |g.gates| && Finished(v', b) && Var(g, num', b) < Var(g, num', a)
    {
      EdgeBounds(g, a, b);
      assert a != i ==> Finished(v, a);
      assert Finished(v, b) && b != i;
    }
  }

  lemma EdgeBounds(g: Graph, i: nat, j: nat)
    requires g.Edge(i, j)
    ensures i < |g.gates| && j < |g.gates|
  {
  }

  lemma GrowsRefl(g: Graph, v: seq<bool>, num: seq<nat>)
    requires |v| == 2 * |g.gates| && g.first + |g.gates| <= |num|
    ensures Grows(g, v, num, v, num)
  {
  }

  /** Running into a gate on the path closes a cycle. */
  lemma ClosesCycle(g: Graph, path: seq<nat>, i: nat)
    requires g.Walk(path + [i]) && i in path
    ensures g.Cyclic()
  {
    var k :| 0 <= k < |path| && path[k] == i;
    var p := path[k..] + [i];
    var w := path + [i];
    assert forall m :: 0 <= m < |p| ==> p[m] == w[k + m];
    forall m | 0 <= m < |p| - 1
      ensures g.Edge(p[m], p[m + 1])
    {
      assert g.Edge(w[k + m], w[k + m + 1]);
    }
  }

  /** What a visit comes to: the gate is finished, or a cycle has been found, or a reference to
      a gate that does not exist (the access to its bits is out of range). */
  datatype Outcome = Done | Cycle | OutOfRange

  /** Visit gate `i`. */
  method Visit(g: Graph, i: nat, visited: array<bool>, num: array<nat>, target: nat, ghost path: seq<nat>)
    returns (r: Outcome, target': nat)
    requires i < |g.gates| ==> g.Walk(path + [i])
    requires i >= |g.gates| ==> !g.Defined()
    requires visited.Length == 2 * |g.gates| && g.first + |g.gates| <= num.Length
    requires Numbered(g, visited[..], num[..], target) && OnPath(g, visited[..], path)
    modifies visited, num
    ensures r == Done ==> i < |g.gates| && Numbered(g, visited[..], num[..], target')
    ensures r == Done ==> OnPath(g, visited[..], path) && Finished(visited[..], i)
    ensures r == Done ==> Grows(g, old(visited[..]), old(num[..]), visited[..], num[..])
    ensures r == Cycle ==> g.Cyclic()
    ensures r == OutOfRange ==> !g.Defined()
    decreases |Undiscovered(g, visited[..])|
  {
    hide Numbered, OnPath, Grows, Undiscovered, Graph.Walk;
    if 2 * i + 1 >= visited.Length {
      return OutOfRange, target;
    }
    if visited[2 * i + 1] {
      GrowsRefl(g, visited[..], num[..]);
      return Done, target;
    }
    if visited[2 * i] {
      SeenOnPath(g, visited[..], path, i);
      ClosesCycle(g, path, i);
      return Cycle, target;
    }
    Discover(g, visited[..], num[..], target, path, i);
    ghost var v0, n0 := visited[..], num[..];
    visited[2 * i] := true;
    assert visited[..] == v0[2 * i := true];
    ghost var v1 := visited[..];

    var x1, x2 := g.gates[i].0 / 2, g.gates[i].1 / 2;
    target' := target;
    if x2 >= g.first {
      ExtendWalk(g, path, i, x2 - g.first);
      r, target' := Visit(g, x2 - g.first, visited, num, target', path + [i]);
      if r != Done {
        return;
      }
      GrowsTrans(g, v0, n0, v1, n0, visited[..], num[..]);
      SeenStays(g, v1, n0, visited[..], num[..]);
    }
    ghost var v2, n2 := visited[..], num[..];
    if x1 >= g.first {
      ExtendWalk(g, path, i, x1 - g.first);
      r, target' := Visit(g, x1 - g.first, visited, num, target', path + [i]);
      if r != Done {
        return;
      }
      KeepsFinished(g, v2, n2, visited[..], num[..]);
      GrowsTrans(g, v0, n0, v2, n2, visited[..], num[..]);
    }
    ghost var v3, n3 := visited[..], num[..];
    NotOnPath(g, v0, path, i);
    FinishPath(g, v3, path, i);
    Finish(g, v3, n3, target', i);
    num[g.first + i] := target';
    visited[2 * i + 1] := true;
    assert visited[..] == v3[2 * i + 1 := true] && num[..] == n3[g.first + i := target'];
    target' := target' + 1;
    GrowsTrans(g, v0, n0, v3, n3, visited[..], num[..]);
    r := Done;
  }

  /** An input that is a gate extends the walk; an input beyond the gates is undefined. */
  lemma ExtendWalk(g: Graph, path: seq<nat>, i: nat, j: nat)
    requires g.Walk(path + [i]) && i < |g.gates|
    requires g.gates[i].0 / 2 == g.first + j || g.gates[i].1 / 2 == g.first + j
    ensures j < |g.gates| ==> g.Walk(path + [i] + [j])
    ensures j >= |g.gates| ==> !g.Defined()
  {
    if j >= |g.gates| {
      assert !g.GateDefined(i);
      return;
    }
    assert g.Edge(i, j);
    var p, w := path + [i], path + [i] + [j];
    forall k | 0 <= k < |w| - 1
      ensures g.Edge(w[k], w[k + 1])
    {
      if k < |p| - 1 {
        assert g.Edge(p[k], p[k + 1]);
      }
    }
  }

  lemma SeenOnPath(g: Graph, v: seq<bool>, path: seq<nat>, i: nat)
    requires OnPath(g, v, path) && i < |g.gates| && Seen(v, i) && !Finished(v, i)
    ensures i in path
  {
  }

  lemma KeepsFinished(g: Graph, v: seq<bool>, num: seq<nat>, v': seq<bool>, num': seq<nat>)
    requires Grows(g, v, num, v', num')
    ensures forall i :: 0 <= i < |g.gates| && Finished(v, i) ==> Finished(v', i)
  {
  }

  lemma NotOnPath(g: Graph, v: seq<bool>, path: seq<nat>, i: nat)
    requires OnPath(g, v, path) && i < |g.gates| && !Seen(v, i)
    ensures i !in path
  {
  }

  // --- Sorting all gates -----------------------------------------------------

  /** The numbers are a permutation of the gate variables that puts inputs first. */
  ghost predicate Sorted(g: Graph, num: seq<nat>) {
    && g.first + |g.gates| <= |num|
    && (forall i :: 0 <= i < |g.gates| ==> g.first <= Var(g, num, i) < g.first + |g.gates|)
    && (forall i, j :: 0 <= i < |g.gates| && 0 <= j < |g.gates| && i != j ==> Var(g, num, i) != Var(g, num, j))
    && (forall i, j :: g.Edge(i, j) ==> Var(g, num, j) < Var(g, num, i))
  }

  lemma SortedAcyclic(g: Graph, num: seq<nat>)
    requires Sorted(g, num)
    ensures g.Acyclic()
  {
    var rank := seq(|g.gates|, i requires 0 <= i < |g.gates| => Var(g, num, i));
    assert g.Ranked(rank);
  }

  lemma AllFinishedSize(g: Graph, v: seq<bool>)
    requires forall i :: 0 <= i < |g.gates| ==> Finished(v, i)
    ensures |AllFinished(g, v)| == |g.gates|
  {
    assert AllFinished(g, v) == Range(0, |g.gates|);
  }

  /** Number all gates such that inputs come first. This succeeds exactly if all references
      are defined and the graph has no cycle. */
  method Sort(g: Graph, num: array<nat>) returns (r: Outcome)
    requires g.first + |g.gates| <= num.Length
    modifies num
    ensures r == Done <==> g.Acyclic() && g.Defined()
    ensures r == Cycle ==> !g.Acyclic()
    ensures r == OutOfRange ==> !g.Defined()
    ensures r == Done ==> Sorted(g, num[..])
    ensures r == Done ==>
              forall i :: 0 <= i < num.Length && !(g.first <= i < g.first + |g.gates|) ==> num[i] == old(num[i])
  {
    hide Numbered, OnPath, Grows, Graph.Acyclic, Graph.Defined, Sorted;
    var visited := new bool[2 * |g.gates|](_ => false);
    var target := g.first;
    ghost var v0, n0 := visited[..], num[..];
    Start(g, v0, n0);
    for i := 0 to |g.gates|
      invariant Numbered(g, visited[..], num[..], target) && OnPath(g, visited[..], [])
      invariant Grows(g, v0, n0, visited[..], num[..])
      invariant forall j :: 0 <= j < i ==> Finished(visited[..], j)
    {
      ghost var v1, n1 := visited[..], num[..];
      r, target := Visit(g, i, visited, num, target, []);
      if r != Done {
        g.CyclicNotAcyclic();
        return;
      }
      KeepsFinished(g, v1, n1, visited[..], num[..]);
      GrowsTrans(g, v0, n0, v1, n1, visited[..], num[..]);
    }
    Finishes(g, visited[..], num[..], target);
    SortedAcyclic(g, num[..]);
    Unchanged(g, v0, n0, visited[..], num[..]);
    r := Done;
  }

  lemma Start(g: Graph, v: seq<bool>, num: seq<nat>)
    requires |v| == 2 * |g.gates| && g.first + |g.gates| <= |num| && forall k :: 0 <= k < |v| ==> !v[k]
    ensures Numbered(g, v, num, g.first) && OnPath(g, v, []) && Grows(g, v, num, v, num)
  {
    assert AllFinished(g, v) == {};
  }

  lemma Finishes(g: Graph, v: seq<bool>, num: seq<nat>, target: nat)
    requires Numbered(g, v, num, target) && forall i :: 0 <= i < |g.gates| ==> Finished(v, i)
    ensures Sorted(g, num) && g.Defined()
  {
    AllFinishedSize(g, v);
    forall i, j | g.Edge(i, j)
      ensures Var(g, num, j) < Var(g, num, i)
    {
      EdgeBounds(g, i, j);
    }
  }

  lemma Unchanged(g: Graph, v: seq<bool>, num: seq<nat>, v': seq<bool>, num': seq<nat>)
    requires Grows(g, v, num, v', num')
    ensures |num'| == |num| && forall i :: 0 <= i < |num| && !(g.first <= i < g.first + |g.gates|) ==> num'[i] == num[i]
  {
  }

  /** Every gate variable is the number of some gate. */
  lemma SortedOnto(g: Graph, num: seq<nat>, k: nat) returns (i: nat)
    requires Sorted(g, num) && g.first <= k < g.first + |g.gates|
    ensures i < |g.gates| && Var(g, num, i) == k
  {
    if forall j :: 0 <= j < |g.gates| ==> Var(g, num, j) != k {
      var image := Image(g, num, |g.gates|);
      var range := Range(g.first, g.first + |g.gates|);
      assert image <= range - {k};
      SubsetSize(image, range - {k});
      assert false;
    }
    i :| 0 <= i < |g.gates| && Var(g, num, i) == k;
  }

  lemma {:induction false} Image(g: Graph, num: seq<nat>, n: nat) returns (image: set<nat>)
    requires Sorted(g, num) && n <= |g.gates|
    ensures |image| == n && forall k :: k in image ==> exists i :: 0 <= i < n && Var(g, num, i) == k
  {
    if n == 0 {
      image := {};
    } else {
      var rest := Image(g, num, n - 1);
      image := rest + {Var(g, num, n - 1)};
    }
  }
}
