/** Reference counts of a node store: what they count, how the elementary
    operations keep them exact, and what they say about reachability. */
module RefCounts {
  import opened Diagrams

  type Counts = map<NodeId, nat>

  /** How many of the two child edges of a node are `x`. */
  function EdgesTo(n: Node, x: Edge): nat {
    (if n.t == x then 1 else 0) + (if n.e == x then 1 else 0)
  }

  /** The number of child edges equal to `x` among the nodes with an id below `k`. */
  ghost function ParentEdges(s: Store, x: Edge, k: nat): nat {
    if k == 0 then 0
    else ParentEdges(s, x, k - 1) + if k - 1 in s then EdgesTo(s[k - 1], x) else 0
  }

  lemma {:induction false} ParentEdgesInsert(s: Store, id: NodeId, n: Node, x: Edge, k: nat)
    requires id !in s
    ensures ParentEdges(s[id := n], x, k) == ParentEdges(s, x, k) + if id < k then EdgesTo(n, x) else 0
  {
    if k > 0 {
      ParentEdgesInsert(s, id, n, x, k - 1);
    }
  }

  lemma ParentEdgesRemove(s: Store, id: NodeId, x: Edge, k: nat)
    requires id in s && id < k
    ensures ParentEdges(s, x, k) == ParentEdges(s - {id}, x, k) + EdgesTo(s[id], x)
  {
    ParentEdgesInsert(s - {id}, id, s[id], x, k);
    assert (s - {id})[id := s[id]] == s;
  }

  lemma {:induction false} ParentCounts(s: Store, p: NodeId, id: NodeId, k: nat)
    requires p in s && p < k && HasChild(s[p], id)
    ensures ParentEdges(s, Inner(id), k) > 0
  {
    if p < k - 1 {
      ParentCounts(s, p, id, k - 1);
    }
  }

  lemma {:induction false} FindParent(s: Store, id: NodeId, k: nat) returns (p: NodeId)
    requires ParentEdges(s, Inner(id), k) > 0
    ensures p in s && p < k && HasChild(s[p], id)
  {
    if ParentEdges(s, Inner(id), k - 1) > 0 {
      p := FindParent(s, id, k - 1);
    } else {
      p := k - 1;
    }
  }

  /** Nothing refers to an id outside an ordered store. */
  lemma {:induction false} NoParentOutside(s: Store, id: NodeId, k: nat)
    requires Ordered(s) && id !in s
    ensures ParentEdges(s, Inner(id), k) == 0
  {
    if k > 0 {
      NoParentOutside(s, id, k - 1);
      assert k - 1 in s ==> NodeOrdered(s, s[k - 1]);
    }
  }

  /** Every stored node's count is 1 for the unique table, plus the edges held
      outside, plus the edges of its parents. */
  ghost predicate Counted(s: Store, rc: Counts, held: multiset<Edge>, cap: nat) {
    && rc.Keys == s.Keys
    && (forall i :: i in s ==> i < cap && rc[i] == 1 + held[Inner(i)] + ParentEdges(s, Inner(i), cap))
    && (forall x :: x in held ==> Valid(s, x))
  }

  function Retain(rc: Counts, x: Edge): Counts
    requires x.Inner? ==> x.id in rc
  {
    if x.Inner? then rc[x.id := rc[x.id] + 1] else rc
  }

  predicate Releasable(rc: Counts, x: Edge) {
    x.Inner? ==> x.id in rc && rc[x.id] > 0
  }

  function Release(rc: Counts, x: Edge): Counts
    requires Releasable(rc, x)
  {
    if x.Inner? then rc[x.id := rc[x.id] - 1] else rc
  }

  /** Dropping both child edges of a node. */
  function ReleaseBoth(rc: Counts, t: Edge, e: Edge): Counts
    requires Releasable(rc, t) && Releasable(Release(rc, t), e)
  {
    Release(Release(rc, t), e)
  }

  lemma RetainKeepsCounted(s: Store, rc: Counts, held: multiset<Edge>, cap: nat, x: Edge)
    requires Counted(s, rc, held, cap) && Valid(s, x)
    ensures x.Inner? ==> x.id in rc
    ensures Counted(s, Retain(rc, x), held + multiset{x}, cap)
  {
  }

  /** Dropping a held edge never drops the last reference: the node stays in the unique table. */
  lemma ReleaseKeepsCounted(s: Store, rc: Counts, held: multiset<Edge>, cap: nat, x: Edge)
    requires Counted(s, rc, held, cap) && x in held
    ensures Releasable(rc, x) && (x.Inner? ==> rc[x.id] > 1)
    ensures Counted(s, Release(rc, x), held - multiset{x}, cap)
  {
    assert Valid(s, x);
  }

  /** The held edges once a fresh node `id` has taken over the edges `t` and `e`. */
  function TakeOver(held: multiset<Edge>, t: Edge, e: Edge, id: NodeId): multiset<Edge> {
    held - multiset{t, e} + multiset{Inner(id)}
  }

  /** A fresh node takes over the two edges held on its children and is itself held once. */
  lemma InsertKeepsCounted(s: Store, rc: Counts, held: multiset<Edge>, cap: nat, id: NodeId, n: Node)
    requires Ordered(s) && Counted(s, rc, held, cap)
    requires id !in s && id < cap && multiset{n.t, n.e} <= held
    ensures Counted(s[id := n], rc[id := 2], TakeOver(held, n.t, n.e, id), cap)
  {
    var r, rc', h := s[id := n], rc[id := 2], TakeOver(held, n.t, n.e, id);
    assert n.t in multiset{n.t, n.e} && n.e in multiset{n.t, n.e};
    NoParentOutside(s, id, cap);
    forall i | i in r
      ensures i < cap && rc'[i] == 1 + h[Inner(i)] + ParentEdges(r, Inner(i), cap)
    {
      ParentEdgesInsert(s, id, n, Inner(i), cap);
      assert EdgesTo(n, Inner(i)) == multiset{n.t, n.e}[Inner(i)] <= held[Inner(i)];
    }
  }

  lemma ReleaseBothCounts(rc: Counts, n: Node)
    requires n.t.Inner? ==> n.t.id in rc && rc[n.t.id] >= EdgesTo(n, n.t)
    requires n.e.Inner? ==> n.e.id in rc && rc[n.e.id] >= EdgesTo(n, n.e)
    ensures Releasable(rc, n.t) && Releasable(Release(rc, n.t), n.e)
    ensures ReleaseBoth(rc, n.t, n.e).Keys == rc.Keys
    ensures forall i :: i in rc ==> ReleaseBoth(rc, n.t, n.e)[i] == rc[i] - EdgesTo(n, Inner(i))
  {
  }

  /** A node whose count is 1 is referenced by the unique table alone. */
  lemma CountOneUnreferenced(s: Store, rc: Counts, held: multiset<Edge>, cap: nat, id: NodeId)
    requires Counted(s, rc, held, cap) && id in s && rc[id] == 1
    ensures Inner(id) !in held
    ensures forall p :: p in s ==> !HasChild(s[p], id)
  {
    forall p | p in s && HasChild(s[p], id)
      ensures false
    {
      ParentCounts(s, p, id, cap);
    }
  }

  /** Freeing a node that is only in the unique table and dropping its child edges. */
  lemma RemoveKeepsCounted(s: Store, rc: Counts, held: multiset<Edge>, cap: nat, id: NodeId)
    requires Ordered(s) && Counted(s, rc, held, cap) && id in s && rc[id] == 1
    ensures Releasable(rc - {id}, s[id].t) && Releasable(Release(rc - {id}, s[id].t), s[id].e)
    ensures Counted(s - {id}, ReleaseBoth(rc - {id}, s[id].t, s[id].e), held, cap)
  {
    var n, r, rc1 := s[id], s - {id}, rc - {id};
    CountOneUnreferenced(s, rc, held, cap, id);
    assert NodeOrdered(s, n) && !HasChild(n, id);
    forall i | i in r
      ensures rc1[i] == 1 + held[Inner(i)] + ParentEdges(r, Inner(i), cap) + EdgesTo(n, Inner(i))
    {
      assert i in s && rc1[i] == rc[i];
      ParentEdgesRemove(s, id, Inner(i), cap);
    }
    ReleaseBothCounts(rc1, n);
    forall x | x in held
      ensures Valid(r, x)
    {
      assert Valid(s, x);
    }
  }

  /** `id` can be reached from a held edge. Parents lie above their children,
      so the recursion ends. */
  ghost predicate Reachable(s: Store, held: multiset<Edge>, id: NodeId)
    requires Ordered(s) && id in s
    decreases s[id].level
  {
    Inner(id) in held || exists p :: p in s && s[p].level < s[id].level && HasChild(s[p], id) && Reachable(s, held, p)
  }

  /** An edge that can be reached from the held edges, or names a terminal. */
  ghost predicate ReachableEdge(s: Store, held: multiset<Edge>, x: Edge)
    requires Ordered(s)
  {
    Valid(s, x) && (x.Inner? ==> Reachable(s, held, x.id))
  }

  /** What is reachable has a count above 1. */
  lemma ReachableCounted(s: Store, rc: Counts, held: multiset<Edge>, cap: nat, id: NodeId)
    requires Ordered(s) && Counted(s, rc, held, cap) && id in s && Reachable(s, held, id)
    ensures rc[id] > 1
  {
    if rc[id] == 1 {
      CountOneUnreferenced(s, rc, held, cap, id);
      assert false;
    }
  }
}
