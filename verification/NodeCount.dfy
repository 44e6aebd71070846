/** Counting the nodes of a function: a recursive traversal that marks node ids in a
    growing bit vector. */
module NodeCount {
  import opened Collections
  import opened Diagrams

  /** A set of node ids, kept as a bit vector with a cardinality. */
  class NodeSet {
    var len: nat
    var data: seq<bool>

    ghost function Members(): set<nat>
      reads this
    {
      set i | 0 <= i < |data| && data[i]
    }

    ghost predicate Valid()
      reads this
    {
      len == |Members()|
    }

    constructor ()
      ensures Valid() && Members() == {}
    {
      len, data := 0, [];
    }

    /** Returns whether the id is new. */
    method Insert(index: nat) returns (isNew: bool)
      requires Valid()
      modifies this
      ensures Valid() && Members() == old(Members()) + {index}
      ensures isNew <==> index !in old(Members())
    {
      if index < |data| {
        if data[index] {
          assert Members() == old(Members()) + {index};
          return false;
        }
      } else {
        var size := NextPow2(index + 1, 1);
        data := data + seq(size - |data|, _ => false);
        assert Members() == old(Members());
      }
      ghost var before := Members();
      data := data[index := true];
      len := len + 1;
      assert Members() == before + {index};
      isNew := true;
    }

    method Contains(index: nat) returns (b: bool)
      ensures b <==> index in Members()
    {
      b := index < |data| && data[index];
    }

    /** Returns whether the id was present. */
    method Remove(index: nat) returns (present: bool)
      requires Valid()
      modifies this
      ensures Valid() && Members() == old(Members()) - {index}
      ensures present <==> index in old(Members())
    {
      if index < |data| && data[index] {
        assert index in Members();
        len := len - 1;
        data := data[index := false];
        assert Members() == old(Members()) - {index};
        present := true;
      } else {
        assert Members() == old(Members()) - {index};
        present := false;
      }
    }
  }

  /** The nodes of a function: the edge's target and everything below it. */
  ghost function NodesOf(s: Store, x: Edge): (r: set<Edge>)
    requires Ordered(s) && Diagrams.Valid(s, x)
    ensures x in r
    decreases TERMINAL_LEVEL - LevelOf(s, x)
  {
    match x
    case Terminal(_) => {x}
    case Inner(i) => {x} + NodesOf(s, s[i].t) + NodesOf(s, s[i].e)
  }

  /** Below a node of a function there are only nodes of that function, none of them higher. */
  lemma {:induction false} NodesBelow(s: Store, x: Edge, y: Edge)
    requires Ordered(s) && Diagrams.Valid(s, x) && y in NodesOf(s, x)
    ensures Diagrams.Valid(s, y) && NodesOf(s, y) <= NodesOf(s, x)
    ensures y != x ==> LevelOf(s, x) < LevelOf(s, y)
    decreases TERMINAL_LEVEL - LevelOf(s, x)
  {
    if x.Inner? && y != x {
      if y in NodesOf(s, s[x.id].t) {
        NodesBelow(s, s[x.id].t, y);
      } else {
        NodesBelow(s, s[x.id].e, y);
      }
    }
  }

  /** An assignment of ids to nodes, as edges carry them. */
  ghost predicate Injective(id: Edge -> nat, m: set<Edge>) {
    forall x, y :: x in m && y in m && id(x) == id(y) ==> x == y
  }

  ghost function Ids(id: Edge -> nat, m: set<Edge>): set<nat> {
    set x | x in m :: id(x)
  }

  lemma {:induction false} IdsSize(id: Edge -> nat, m: set<Edge>)
    requires Injective(id, m)
    ensures |Ids(id, m)| == |m|
  {
    if m != {} {
      var x :| x in m;
      IdsSize(id, m - {x});
      assert Ids(id, m) == Ids(id, m - {x}) + {id(x)};
    }
  }

  /** Marked nodes from the level of `x` downward have everything below them marked;
      marked nodes above `x` may still be in progress. */
  ghost predicate ClosedFrom(s: Store, m: set<Edge>, l: Level)
    requires Ordered(s)
  {
    forall y :: y in m ==> Diagrams.Valid(s, y) && (LevelOf(s, y) >= l ==> NodesOf(s, y) <= m)
  }

  lemma ClosedAdd(s: Store, m: set<Edge>, x: Edge, l: Level)
    requires Ordered(s) && ClosedFrom(s, m, l) && Diagrams.Valid(s, x)
    ensures ClosedFrom(s, m + NodesOf(s, x), l)
  {
    forall y | y in m + NodesOf(s, x)
      ensures Diagrams.Valid(s, y) && (LevelOf(s, y) >= l ==> NodesOf(s, y) <= m + NodesOf(s, x))
    {
      if y in NodesOf(s, x) {
        NodesBelow(s, x, y);
      }
    }
  }

  lemma IdsAdd(id: Edge -> nat, m: set<Edge>, x: Edge, all: set<Edge>)
    requires Injective(id, all) && m <= all && x in all
    ensures Ids(id, m + {x}) == Ids(id, m) + {id(x)} && (id(x) in Ids(id, m) ==> x in m)
  {
  }

  /** A marked node is left alone: everything below it is marked. */
  lemma MarkedBefore(s: Store, x: Edge, m: set<Edge>)
    requires Ordered(s) && Diagrams.Valid(s, x) && ClosedFrom(s, m, LevelOf(s, x)) && x in m
    ensures m + NodesOf(s, x) == m
  {
  }

  /** Marking an inner node leaves its children's levels closed. */
  lemma MarkInner(s: Store, m: set<Edge>, x: Edge)
    requires Ordered(s) && Diagrams.Valid(s, x) && x.Inner? && ClosedFrom(s, m, LevelOf(s, x))
    ensures NodeOrdered(s, s[x.id])
    ensures ClosedFrom(s, m + {x}, LevelOf(s, s[x.id].t)) && ClosedFrom(s, m + {x}, LevelOf(s, s[x.id].e))
    ensures m + {x} + NodesOf(s, s[x.id].t) + NodesOf(s, s[x.id].e) == m + NodesOf(s, x)
  {
    assert NodeOrdered(s, s[x.id]);
  }

  lemma MarkTerminal(s: Store, x: Edge)
    requires Ordered(s) && x.Terminal?
    ensures NodesOf(s, x) == {x}
  {
  }

  /** Mark everything below `x`. */
  method Mark(s: Store, x: Edge, id: Edge -> nat, marks: NodeSet, ghost m: set<Edge>, ghost all: set<Edge>)
    requires Ordered(s) && Diagrams.Valid(s, x) && Injective(id, all) && m + NodesOf(s, x) <= all
    requires marks.Valid() && marks.Members() == Ids(id, m) && ClosedFrom(s, m, LevelOf(s, x))
    modifies marks
    ensures marks.Valid() && marks.Members() == Ids(id, m + NodesOf(s, x))
    decreases TERMINAL_LEVEL - LevelOf(s, x)
  {
    hide Injective, ClosedFrom, NodesOf, Ids, Ordered, NodeSet.Valid, NodeSet.Members;
    assert x in NodesOf(s, x);
    IdsAdd(id, m, x, all);
    var isNew := marks.Insert(id(x));
    if !isNew {
      MarkedBefore(s, x, m);
      assert m + {x} == m;
    } else if x.Inner? {
      var n := s[x.id];
      MarkInner(s, m, x);
      ghost var m1 := m + {x};
      Mark(s, n.t, id, marks, m1, all);
      ClosedAdd(s, m1, n.t, LevelOf(s, n.e));
      Mark(s, n.e, id, marks, m1 + NodesOf(s, n.t), all);
    } else {
      MarkTerminal(s, x);
    }
  }

  /** The number of distinct nodes of a function, terminals included. */
  method Count(s: Store, x: Edge, id: Edge -> nat) returns (n: nat)
    requires Ordered(s) && Diagrams.Valid(s, x) && Injective(id, NodesOf(s, x))
    ensures n == |NodesOf(s, x)|
  {
    var marks := new NodeSet();
    assert Ids(id, {}) == {};
    Mark(s, x, id, marks, {}, NodesOf(s, x));
    assert {} + NodesOf(s, x) == NodesOf(s, x);
    IdsSize(id, NodesOf(s, x));
    n := marks.len;
  }
}
