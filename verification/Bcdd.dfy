/** Binary diagrams with complemented edges and a single terminal. */
module Bcdd {
  import opened Options

  type Level = nat

  const TERMINAL_LEVEL: nat := 0xFFFF_FFFF

  datatype Ref = One | Ref(id: nat)

  /** A complemented edge denotes the negation of its target. */
  datatype Edge = Edge(neg: bool, to: Ref)

  datatype Node = Node(level: Level, t: Edge, e: Edge)

  type Store = map<nat, Node>

  const TRUE := Edge(false, One)

  function Not(x: Edge): Edge {
    x.(neg := !x.neg)
  }

  predicate Valid(s: Store, r: Ref) {
    r.Ref? ==> r.id in s
  }

  function LevelOf(s: Store, r: Ref): Level
    requires Valid(s, r)
  {
    if r.Ref? then s[r.id].level else TERMINAL_LEVEL
  }

  predicate Below(s: Store, r: Ref, l: Level) {
    Valid(s, r) && l < LevelOf(s, r)
  }

  predicate NodeOrdered(s: Store, n: Node) {
    n.level < TERMINAL_LEVEL && Below(s, n.t.to, n.level) && Below(s, n.e.to, n.level)
  }

  ghost predicate Ordered(s: Store) {
    forall i :: i in s ==> NodeOrdered(s, s[i])
  }

  /** The then-edge is never complemented and the children differ. */
  predicate NodeReduced(n: Node) {
    !n.t.neg && n.t != n.e
  }

  ghost predicate Canonical(s: Store) {
    && Ordered(s)
    && (forall i :: i in s ==> NodeReduced(s[i]))
    && (forall i, j :: i in s && j in s && s[i] == s[j] ==> i == j)
  }

  /** The value of the function of a node at the valuation `v` (the levels of the true variables). */
  ghost function Value(s: Store, r: Ref, v: set<Level>): bool
    requires Ordered(s) && Valid(s, r)
    decreases TERMINAL_LEVEL - LevelOf(s, r)
  {
    match r
    case One => true
    case Ref(i) =>
      if s[i].level in v then s[i].t.neg != Value(s, s[i].t.to, v)
      else s[i].e.neg != Value(s, s[i].e.to, v)
  }

  ghost function Eval(s: Store, x: Edge, v: set<Level>): bool
    requires Ordered(s) && Valid(s, x.to)
  {
    x.neg != Value(s, x.to, v)
  }

  ghost predicate Extends(s: Store, r: Store) {
    forall i :: i in s ==> i in r && r[i] == s[i]
  }

  lemma {:induction false} ValueFrame(s: Store, r: Store, x: Ref, v: set<Level>)
    requires Ordered(s) && Ordered(r) && Extends(s, r) && Valid(s, x)
    ensures Value(r, x, v) == Value(s, x, v)
    decreases TERMINAL_LEVEL - LevelOf(s, x)
  {
    if x.Ref? {
      ValueFrame(s, r, s[x.id].t.to, v);
      ValueFrame(s, r, s[x.id].e.to, v);
    }
  }

  // --- Canonicity ------------------------------------------------------------

  /** The variable at a level above a node does not matter. */
  lemma {:induction false} ValueIgnores(s: Store, r: Ref, l: Level, v: set<Level>)
    requires Ordered(s) && Below(s, r, l)
    ensures Value(s, r, v + {l}) == Value(s, r, v) == Value(s, r, v - {l})
    decreases TERMINAL_LEVEL - LevelOf(s, r)
  {
    if r.Ref? {
      ValueIgnores(s, s[r.id].t.to, l, v);
      ValueIgnores(s, s[r.id].e.to, l, v);
    }
  }

  /** Then-edges are not complemented, so every node is true where all variables are. */
  lemma {:induction false} TrueEverywhere(s: Store, r: Ref, v: set<Level>)
    requires Canonical(s) && Valid(s, r) && forall i :: i in s ==> s[i].level in v
    ensures Value(s, r, v)
    decreases TERMINAL_LEVEL - LevelOf(s, r)
  {
    if r.Ref? {
      assert NodeOrdered(s, s[r.id]) && NodeReduced(s[r.id]);
      TrueEverywhere(s, s[r.id].t.to, v);
    }
  }

  /** The cofactors of a node with respect to the variable at level `l`, as edges. */
  function Cofactors(s: Store, r: Ref, l: Level): (Edge, Edge)
    requires Valid(s, r)
  {
    if r.Ref? && s[r.id].level == l then (s[r.id].t, s[r.id].e) else (Edge(false, r), Edge(false, r))
  }

  lemma CofactorsDescend(s: Store, r: Ref, l: Level)
    requires Ordered(s) && Valid(s, r) && l <= LevelOf(s, r) && l < TERMINAL_LEVEL
    ensures var (t, e) := Cofactors(s, r, l);
            && Below(s, t.to, l) && Below(s, e.to, l)
            && forall v :: Value(s, r, v) == Eval(s, if l in v then t else e, v)
  {
    if r.Ref? {
      assert NodeOrdered(s, s[r.id]);
    }
  }

  /** Different edges of a canonical store are told apart by some valuation. */
  lemma {:induction false} Distinguish(s: Store, x: Edge, y: Edge) returns (v: set<Level>)
    requires Canonical(s) && Valid(s, x.to) && Valid(s, y.to) && x != y
    ensures Eval(s, x, v) != Eval(s, y, v)
    decreases TERMINAL_LEVEL - LevelOf(s, x.to) + TERMINAL_LEVEL - LevelOf(s, y.to), 1
  {
    CanonicalOrdered(s);
    if x.neg != y.neg {
      v := set i | i in s :: s[i].level;
      TrueEverywhere(s, x.to, v);
      TrueEverywhere(s, y.to, v);
    } else {
      v := DistinguishNodes(s, x.to, y.to);
    }
  }

  lemma {:induction false} DistinguishNodes(s: Store, x: Ref, y: Ref) returns (v: set<Level>)
    requires Canonical(s) && Ordered(s) && Valid(s, x) && Valid(s, y) && x != y
    ensures Value(s, x, v) != Value(s, y, v)
    decreases TERMINAL_LEVEL - LevelOf(s, x) + TERMINAL_LEVEL - LevelOf(s, y), 0
  {
    var l := if LevelOf(s, x) <= LevelOf(s, y) then LevelOf(s, x) else LevelOf(s, y);
    assert l < TERMINAL_LEVEL by {
      assert x.Ref? ==> NodeOrdered(s, s[x.id]);
      assert y.Ref? ==> NodeOrdered(s, s[y.id]);
    }
    CofactorsDescend(s, x, l);
    CofactorsDescend(s, y, l);
    CofactorsDiffer(s, x, y, l);
    var (xt, xe) := Cofactors(s, x, l);
    var (yt, ye) := Cofactors(s, y, l);
    if xt != yt {
      var w := Distinguish(s, xt, yt);
      ValueIgnores(s, xt.to, l, w);
      ValueIgnores(s, yt.to, l, w);
      v := w + {l};
    } else {
      var w := Distinguish(s, xe, ye);
      ValueIgnores(s, xe.to, l, w);
      ValueIgnores(s, ye.to, l, w);
      v := w - {l};
    }
  }

  /** Nodes with the same cofactors are the same, and no node has equal children. */
  lemma CofactorsDiffer(s: Store, x: Ref, y: Ref, l: Level)
    requires Canonical(s) && Valid(s, x) && Valid(s, y) && x != y && l < TERMINAL_LEVEL
    requires l <= LevelOf(s, x) && l <= LevelOf(s, y) && (l == LevelOf(s, x) || l == LevelOf(s, y))
    ensures Cofactors(s, x, l) != Cofactors(s, y, l)
  {
    assert x.Ref? ==> NodeReduced(s[x.id]);
    assert y.Ref? ==> NodeReduced(s[y.id]);
  }

  /** Strong canonicity: two edges denote the same function exactly when they are equal. */
  lemma Canonicity(s: Store, x: Edge, y: Edge)
    requires Canonical(s) && Ordered(s) && Valid(s, x.to) && Valid(s, y.to)
    ensures (forall v :: Eval(s, x, v) == Eval(s, y, v)) <==> x == y
  {
    if x != y {
      var v := Distinguish(s, x, y);
    }
  }

  // --- Reduction -------------------------------------------------------------

  /** The index of a stored node, if there is one. */
  method Lookup(s: Store, n: Node) returns (found: bool, id: nat)
    ensures found ==> id in s && s[id] == n
    ensures !found ==> forall i :: i in s ==> s[i] != n
  {
    var todo := s.Keys;
    id := 0;
    while todo != {}
      invariant todo <= s.Keys && forall i :: i in s && i !in todo ==> s[i] != n
      decreases |todo|
    {
      var i :| i in todo;
      if s[i] == n {
        return true, i;
      }
      todo := todo - {i};
    }
    found := false;
  }

  /** A vacant id. */
  method Fresh(s: Store) returns (id: nat)
    ensures id !in s
  {
    id := 0;
    var todo := s.Keys;
    while todo != {}
      invariant todo <= s.Keys && forall i :: i in s && i !in todo ==> i < id
      decreases |todo|
    {
      var i :| i in todo;
      id := if i < id then id else i + 1;
      todo := todo - {i};
    }
  }

  lemma InsertKeepsCanonical(s: Store, id: nat, n: Node)
    requires Canonical(s) && id !in s && NodeOrdered(s, n) && NodeReduced(n)
    requires forall i :: i in s ==> s[i] != n
    ensures Canonical(s[id := n]) && Extends(s, s[id := n])
  {
    var r := s[id := n];
    hide NodeReduced;
    forall i | i in r
      ensures NodeOrdered(r, r[i])
    {
      assert i in s ==> NodeOrdered(s, s[i]);
    }
  }

  lemma CanonicalOrdered(s: Store)
    requires Canonical(s)
    ensures Ordered(s)
  {
  }

  /** An edge to a stored node denotes the choice between the node's children. */
  lemma ChoiceValue(s: Store, x: Edge, level: Level, t: Edge, e: Edge)
    requires Ordered(s) && x.to.Ref? && x.to.id in s && Valid(s, t.to) && Valid(s, e.to)
    requires s[x.to.id] == if x.neg then Node(level, Not(t), Not(e)) else Node(level, t, e)
    ensures forall v :: Eval(s, x, v) == Eval(s, if level in v then t else e, v)
  {
  }

  /** The reduction rules with hash-consing: equal children need no node, and a
      complement on the then-edge moves to the incoming edge. `None` means that a node had to
      be added but there was no slot: the store has `limit` of them. */
  method Reduce(s: Store, level: Level, t: Edge, e: Edge, limit: nat) returns (r: Store, x: Option<Edge>)
    requires Canonical(s) && level < TERMINAL_LEVEL && Below(s, t.to, level) && Below(s, e.to, level)
    ensures Canonical(r) && Extends(s, r) && |r| <= |s| + 1
    ensures x.None? ==> r == s && |s| >= limit
    ensures forall i :: i in r && i !in s ==> r[i].level == level
    ensures x.Some? ==> Valid(r, x.value.to)
    ensures x.Some? ==> forall v :: Eval(r, x.value, v) == Eval(r, if level in v then t else e, v)
    ensures t == e ==> r == s && x == Some(t)
    ensures t != e && x.Some? ==> x.value.to.Ref? && LevelOf(r, x.value.to) == level
    ensures t != e && !t.neg && x.Some? ==>
              !x.value.neg && x.value.to.Ref? && r[x.value.to.id] == Node(level, t, e)
  {
    if t == e {
      return s, Some(t);
    }
    hide Canonical, Ordered, Value;
    var n := if t.neg then Node(level, Not(t), Not(e)) else Node(level, t, e);
    var found, id := Lookup(s, n);
    if found {
      r := s;
    } else if |s| >= limit {
      return s, None;
    } else {
      id := Fresh(s);
      InsertKeepsCanonical(s, id, n);
      r := s[id := n];
    }
    x := Some(Edge(t.neg, Ref(id)));
    CanonicalOrdered(r);
    ChoiceValue(r, x.value, level, t, e);
  }
}
