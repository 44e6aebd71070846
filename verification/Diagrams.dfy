/** Shared, ordered, reduced binary diagrams over a node store, and the function
    an edge of such a store denotes. */
module Diagrams {
  import opened Numbers

  type Level = nat
  type NodeId = nat

  /** Level number of terminals (`LevelNo::MAX`); inner nodes lie strictly above it. */
  const TERMINAL_LEVEL: nat := 0xFFFF_FFFF

  /** Terminals are hash-consed by the terminal manager, so a terminal edge is its value. */
  datatype Edge = Terminal(value: Int64) | Inner(id: NodeId)

  datatype Node = Node(level: Level, t: Edge, e: Edge)

  type Store = map<NodeId, Node>

  /** The variables (given by their levels) that are true. */
  type Valuation = set<Level>

  predicate Valid(s: Store, x: Edge) {
    x.Inner? ==> x.id in s
  }

  function LevelOf(s: Store, x: Edge): Level
    requires Valid(s, x)
  {
    if x.Inner? then s[x.id].level else TERMINAL_LEVEL
  }

  /** `x` is stored and lies strictly below level `l`. */
  predicate Below(s: Store, x: Edge, l: Level) {
    Valid(s, x) && l < LevelOf(s, x)
  }

  predicate NodeOrdered(s: Store, n: Node) {
    n.level < TERMINAL_LEVEL && Below(s, n.t, n.level) && Below(s, n.e, n.level)
  }

  ghost predicate Ordered(s: Store) {
    forall i :: i in s ==> NodeOrdered(s, s[i])
  }

  ghost predicate Reduced(s: Store) {
    forall i :: i in s ==> s[i].t != s[i].e
  }

  ghost predicate Unique(s: Store) {
    forall i, j :: i in s && j in s && s[i] == s[j] ==> i == j
  }

  /** What every operation on a store keeps, even where it duplicates a node. */
  ghost predicate Regular(s: Store) {
    Ordered(s) && Reduced(s)
  }

  ghost predicate Canonical(s: Store) {
    Regular(s) && Unique(s)
  }

  /** The value of the function denoted by `x` at `v`. */
  ghost function Eval(s: Store, x: Edge, v: Valuation): Int64
    requires Ordered(s) && Valid(s, x)
    decreases TERMINAL_LEVEL - LevelOf(s, x)
  {
    match x
    case Terminal(c) => c
    case Inner(i) => if s[i].level in v then Eval(s, s[i].t, v) else Eval(s, s[i].e, v)
  }

  /** The cofactors of `x` with respect to the variable at level `l`. */
  function Cofactors(s: Store, x: Edge, l: Level): (c: (Edge, Edge))
    requires Valid(s, x)
  {
    if x.Inner? && s[x.id].level == l then (s[x.id].t, s[x.id].e) else (x, x)
  }

  lemma CofactorsDescend(s: Store, x: Edge, l: Level)
    requires Ordered(s) && Valid(s, x) && l <= LevelOf(s, x) && l < TERMINAL_LEVEL
    ensures var c := Cofactors(s, x, l); Below(s, c.0, l) && Below(s, c.1, l)
    ensures forall v :: Eval(s, x, v) == Eval(s, if l in v then Cofactors(s, x, l).0 else Cofactors(s, x, l).1, v)
  {
  }

  /** The variable at a level above `x` does not matter. */
  lemma {:induction false} EvalIgnores(s: Store, x: Edge, l: Level, v: Valuation)
    requires Ordered(s) && Below(s, x, l)
    ensures Eval(s, x, v + {l}) == Eval(s, x, v) == Eval(s, x, v - {l})
    decreases TERMINAL_LEVEL - LevelOf(s, x)
  {
    if x.Inner? {
      EvalIgnores(s, s[x.id].t, l, v);
      EvalIgnores(s, s[x.id].e, l, v);
    }
  }

  /** Different edges of a canonical store are told apart by some valuation. */
  lemma {:induction false} Distinguish(s: Store, x: Edge, y: Edge) returns (v: Valuation)
    requires Canonical(s) && Valid(s, x) && Valid(s, y) && x != y
    ensures Eval(s, x, v) != Eval(s, y, v)
    decreases TERMINAL_LEVEL - LevelOf(s, x) + TERMINAL_LEVEL - LevelOf(s, y)
  {
    if x.Terminal? && y.Terminal? {
      v := {};
    } else {
      var l := if LevelOf(s, x) <= LevelOf(s, y) then LevelOf(s, x) else LevelOf(s, y);
      CofactorsDescend(s, x, l);
      CofactorsDescend(s, y, l);
      var (xt, xe) := Cofactors(s, x, l);
      var (yt, ye) := Cofactors(s, y, l);
      if xt != yt {
        var w := Distinguish(s, xt, yt);
        EvalIgnores(s, xt, l, w);
        EvalIgnores(s, yt, l, w);
        v := w + {l};
      } else {
        assert xe != ye;  // otherwise x and y agree in both children, or one of them is redundant
        var w := Distinguish(s, xe, ye);
        EvalIgnores(s, xe, l, w);
        EvalIgnores(s, ye, l, w);
        v := w - {l};
      }
    }
  }

  ghost predicate Equivalent(s: Store, x: Edge, y: Edge)
    requires Ordered(s) && Valid(s, x) && Valid(s, y)
  {
    forall v :: Eval(s, x, v) == Eval(s, y, v)
  }

  /** Strong canonicity: two edges denote the same function exactly when they are equal. */
  lemma Canonicity(s: Store, x: Edge, y: Edge)
    requires Canonical(s) && Valid(s, x) && Valid(s, y)
    ensures Equivalent(s, x, y) <==> x == y
  {
    if x != y {
      var v := Distinguish(s, x, y);
    }
  }

  /** Strong canonicity holds exactly if no node is stored twice. */
  lemma CanonicityExact(s: Store)
    requires Regular(s)
    ensures Unique(s) <==> forall x, y :: Valid(s, x) && Valid(s, y) ==> (Equivalent(s, x, y) <==> x == y)
  {
    if Unique(s) {
      forall x, y | Valid(s, x) && Valid(s, y)
        ensures Equivalent(s, x, y) <==> x == y
      {
        Canonicity(s, x, y);
      }
    } else {
      var i, j :| i in s && j in s && s[i] == s[j] && i != j;
      assert Equivalent(s, Inner(i), Inner(j));
    }
  }

  /** `r` keeps every node of `s`. */
  ghost predicate Extends(s: Store, r: Store) {
    forall i :: i in s ==> i in r && r[i] == s[i]
  }

  /** Adding nodes, or removing nodes nobody of `s` refers to, leaves meanings alone. */
  lemma {:induction false} EvalFrame(s: Store, r: Store, x: Edge, v: Valuation)
    requires Ordered(s) && Ordered(r) && Extends(s, r) && Valid(s, x)
    ensures Eval(r, x, v) == Eval(s, x, v)
    decreases TERMINAL_LEVEL - LevelOf(s, x)
  {
    if x.Inner? {
      EvalFrame(s, r, s[x.id].t, v);
      EvalFrame(s, r, s[x.id].e, v);
    }
  }

  /** A new node below which everything is stored keeps the store ordered. */
  lemma InsertKeepsOrdered(s: Store, id: NodeId, n: Node)
    requires Ordered(s) && id !in s
    requires NodeOrdered(s, n)
    ensures Ordered(s[id := n]) && Extends(s, s[id := n])
  {
  }

  /** A new node with different children keeps the store regular, and keeps its nodes
      unique exactly if it was not stored. */
  lemma InsertKeepsRegular(s: Store, id: NodeId, n: Node)
    requires Regular(s) && id !in s
    requires NodeOrdered(s, n) && n.t != n.e
    ensures Regular(s[id := n]) && Extends(s, s[id := n])
    ensures Unique(s[id := n]) <==> Unique(s) && forall i :: i in s ==> s[i] != n
  {
    InsertKeepsOrdered(s, id, n);
    var r := s[id := n];
    if Unique(r) {
      assert forall i, j :: i in s && j in s && s[i] == s[j] ==> r[i] == r[j];
      assert forall i :: i in s ==> r[i] == s[i] && r[id] == n && i != id;
    }
  }

  predicate HasChild(n: Node, id: NodeId) {
    n.t == Inner(id) || n.e == Inner(id)
  }

  /** Removing a node without parents keeps the store regular and its nodes unique. */
  lemma RemoveKeepsRegular(s: Store, id: NodeId)
    requires Regular(s) && id in s
    requires forall p :: p in s ==> !HasChild(s[p], id)
    ensures Regular(s - {id}) && Extends(s - {id}, s)
    ensures Unique(s) ==> Unique(s - {id})
  {
    var r := s - {id};
    forall i | i in r
      ensures NodeOrdered(r, r[i])
    {
      assert s[i] == r[i] && !HasChild(s[i], id);
    }
  }
}
