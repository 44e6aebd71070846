/** The manager: node store with reference counts, unique table and apply cache;
    reduction, the recursive apply algorithm and the garbage collector on top. */
module Managers {
  import opened Options
  import opened Collections
  import opened Numbers
  import opened Diagrams
  import opened RefCounts
  import opened Operators

  datatype AllocResult = Ok(edge: Edge) | OutOfMemory

  /** Every node is in the table of its level; lookups miss the hidden ones. */
  ghost predicate Indexed(s: Store, hidden: set<NodeId>, levels: nat) {
    && levels <= TERMINAL_LEVEL && hidden <= s.Keys
    && (forall i :: i in s ==> s[i].level < levels)
  }

  /** What apply returns is the pointwise operation of its operands, unless it is a
      difference and somewhere the path of `f` ends in 0 above the end of the path of `g`,
      where `g` is neither 0 nor NaN, or Min and Max have been mixed. */
  lemma ApplyPointwise(use: Use, s: Store, x: Edge, op: Op, r: Store, f: Edge, g: Edge)
    requires Ordered(s) && Ordered(r) && Valid(r, f) && Valid(r, g) && Denotes(use, s, x, op, r, f, g)
    requires use != Mixed || (op != Min && op != Max)
    ensures (forall v :: Eval(s, x, v) == Eval2(op, Eval(r, f, v), Eval(r, g, v)))
       <==> (forall v :: !(op == Sub && Unnegated(r, f, g, v) && Eval(r, g, v) !in {ZERO, NaN}))
  {
    forall v
      ensures Eval(s, x, v) == Eval2(op, Eval(r, f, v), Eval(r, g, v))
         <==> !(op == Sub && Unnegated(r, f, g, v) && Eval(r, g, v) !in {ZERO, NaN})
    {
      assert Acceptable(use, op, r, f, g, v, Eval(s, x, v));
      ComputedExact(op, r, f, g, v);
    }
  }

  /** `x` denotes "if the variable at level `l` then `t` else `e`", and is not above `l`. */
  ghost predicate IsChoice(s: Store, x: Edge, l: Level, t: Edge, e: Edge)
    requires Ordered(s)
  {
    && Valid(s, x) && Valid(s, t) && Valid(s, e) && l <= LevelOf(s, x)
    && forall v :: Eval(s, x, v) == Eval(s, if l in v then t else e, v)
  }

  lemma SameIsChoice(s: Store, x: Edge, l: Level)
    requires Ordered(s) && Below(s, x, l)
    ensures IsChoice(s, x, l, x, x)
  {
  }

  lemma StoredIsChoice(s: Store, id: NodeId)
    requires Ordered(s) && id in s
    ensures IsChoice(s, Inner(id), s[id].level, s[id].t, s[id].e)
  {
    assert NodeOrdered(s, s[id]);
  }

  /** Every slot is in use or held by another thread. */
  ghost predicate Occupied(s: Store, reserved: set<NodeId>, capacity: nat) {
    forall id: NodeId :: id < capacity ==> id in s || id in reserved
  }

  lemma OccupiedStays(s: Store, r: Store, reserved: set<NodeId>, capacity: nat)
    requires Extends(s, r) && Occupied(s, reserved, capacity)
    ensures Occupied(r, reserved, capacity)
  {
  }

  lemma ExtendsTrans(a: Store, b: Store, c: Store)
    requires Extends(a, b) && Extends(b, c)
    ensures Extends(a, c)
  {
  }

  lemma TwoMore(h: multiset<Edge>, t: Edge, e: Edge)
    ensures multiset{t, e} <= h + multiset{t} + multiset{e}
    ensures h + multiset{t} + multiset{e} - multiset{t, e} == h
  {
  }

  lemma Cancel(h: multiset<Edge>, x: Edge)
    ensures x in h + multiset{x} && h + multiset{x} - multiset{x} == h
  {
  }

  lemma ValidFrame(s: Store, r: Store, x: Edge, l: Level)
    requires Extends(s, r) && Below(s, x, l)
    ensures Below(r, x, l) && LevelOf(r, x) == LevelOf(s, x)
  {
  }

  /** An operand that is an inner node makes apply split at an existing level. */
  lemma SplitBelow(s: Store, hidden: set<NodeId>, levels: nat, f: Edge, g: Edge)
    requires Ordered(s) && Indexed(s, hidden, levels) && Valid(s, f) && Valid(s, g) && (f.Inner? || g.Inner?)
    ensures TopLevel(s, f, g) < levels
    ensures var l := TopLevel(s, f, g);
            var (f0, f1) := Cofactors(s, f, l);
            var (g0, g1) := Cofactors(s, g, l);
            && Below(s, f0, l) && Below(s, f1, l) && Below(s, g0, l) && Below(s, g1, l)
            && l < TopLevel(s, f0, g0) <= TERMINAL_LEVEL && l < TopLevel(s, f1, g1) <= TERMINAL_LEVEL
  {
    CofactorsDescend(s, f, TopLevel(s, f, g));
    CofactorsDescend(s, g, TopLevel(s, f, g));
  }

  /** A result for operands below `l` lies below `l`. */
  lemma ResultBelow(use: Use, s: Store, x: Edge, op: Op, r: Store, f: Edge, g: Edge, l: Level)
    requires Ordered(s) && Ordered(r) && Valid(r, f) && Valid(r, g) && Denotes(use, s, x, op, r, f, g)
    requires Below(r, f, l) && Below(r, g, l)
    ensures Below(s, x, l)
  {
  }

  lemma AcceptableDescends(use: Use, op: Op, s: Store, f: Edge, g: Edge, greater: bool, v: Valuation, y: Int64)
    requires Ordered(s) && Valid(s, f) && Valid(s, g) && TerminalBin(op, f, g, greater).Binary?
    ensures var l := TopLevel(s, f, g);
            var f', g' := Choose(l, v, Cofactors(s, f, l)), Choose(l, v, Cofactors(s, g, l));
            && Below(s, f', l) && Below(s, g', l)
            && Acceptable(use, op, s, f', g', v, y) == Acceptable(use, op, s, f, g, v, y)
  {
    hide TerminalBin;
    ComputedDescends(op, s, f, g, greater, v);
    if op == Min || op == Max {
      SameCase(f, g, greater);
      ComputedDescends(Min, s, f, g, greater, v);
      ComputedDescends(Max, s, f, g, greater, v);
    }
  }

  lemma SameCase(f: Edge, g: Edge, greater: bool)
    ensures TerminalBin(Min, f, g, greater).Binary? == TerminalBin(Max, f, g, greater).Binary?
  {
  }

  /** Shannon expansion: results for the cofactors combine to the result for the operands. */
  lemma CombineCofactors(use: Use, op: Op, f: Edge, g: Edge, greater: bool, l: Level,
                         f0: Edge, f1: Edge, g0: Edge, g1: Edge, t: Edge, e: Edge, h: Edge,
                         s0: Store, s1: Store, s2: Store, s3: Store)
    requires Ordered(s0) && Ordered(s1) && Ordered(s2) && Ordered(s3)
    requires Extends(s0, s1) && Extends(s1, s2) && Extends(s2, s3)
    requires Valid(s0, f) && Valid(s0, g) && TerminalBin(op, f, g, greater).Binary?
    requires l == TopLevel(s0, f, g) && (f0, f1) == Cofactors(s0, f, l) && (g0, g1) == Cofactors(s0, g, l)
    requires Valid(s0, f0) && Valid(s0, g0) && Denotes(use, s1, t, op, s0, f0, g0)
    requires Valid(s0, f1) && Valid(s0, g1) && Valid(s1, f1) && Valid(s1, g1)
    requires Denotes(use, s2, e, op, s1, f1, g1) && IsChoice(s3, h, l, t, e)
    ensures Denotes(use, s3, h, op, s0, f, g)
  {
    hide TerminalBin, Acceptable;
    forall v
      ensures Acceptable(use, op, s0, f, g, v, Eval(s3, h, v))
    {
      AcceptableDescends(use, op, s0, f, g, greater, v, Eval(s3, h, v));
      if l in v {
        ExtendsTrans(s1, s2, s3);
        EvalFrame(s1, s3, t, v);
        assert Acceptable(use, op, s0, f0, g0, v, Eval(s1, t, v));
      } else {
        EvalFrame(s2, s3, e, v);
        AcceptableFrame(use, op, s0, s1, f1, g1, v, Eval(s2, e, v));
        assert Acceptable(use, op, s1, f1, g1, v, Eval(s2, e, v));
      }
    }
  }

  lemma AllSoundFrame(s: Store, r: Store, use: Use, cache: seq<Entry>)
    requires Ordered(s) && Ordered(r) && Extends(s, r)
    requires forall i :: 0 <= i < |cache| ==> Sound(s, use, cache[i])
    ensures forall i :: 0 <= i < |cache| ==> Sound(r, use, cache[i])
  {
    forall i | 0 <= i < |cache|
      ensures Sound(r, use, cache[i])
    {
      SoundFrame(s, r, use, cache[i]);
    }
  }

  // --- Garbage collection ----------------------------------------------------

  /** A sweep of the levels below `l` has removed no reachable node of `s0` and
      left only reachable nodes on those levels. */
  ghost predicate Swept(s0: Store, s: Store, held: multiset<Edge>, l: Level)
    requires Ordered(s0)
  {
    && Extends(s, s0)
    && (forall i :: i in s0 && Reachable(s0, held, i) ==> i in s)
    && (forall i :: i in s && s[i].level < l ==> Reachable(s0, held, i))
  }

  /** A node whose count has dropped to 1 cannot be reached. */
  lemma CondemnedUnreachable(s0: Store, s: Store, rc: Counts, held: multiset<Edge>, cap: nat, l: Level, id: NodeId)
    requires Ordered(s0) && Swept(s0, s, held, l) && Counted(s, rc, held, cap)
    requires id in s && rc[id] == 1
    ensures !Reachable(s0, held, id)
  {
    CountOneUnreferenced(s, rc, held, cap, id);
    assert forall p :: p in s0 && Reachable(s0, held, p) ==> p in s && s[p] == s0[p];
  }

  /** A node whose count stays above 1 when its level is swept is reachable. */
  lemma KeptReachable(s0: Store, s: Store, rc: Counts, held: multiset<Edge>, cap: nat, l: Level, id: NodeId)
    requires Ordered(s0) && Ordered(s) && Swept(s0, s, held, l) && Counted(s, rc, held, cap)
    requires id in s && s[id].level == l && rc[id] != 1
    ensures Reachable(s0, held, id)
  {
    if Inner(id) !in held {
      var p := FindParent(s, id, cap);
      assert NodeOrdered(s, s[p]) && s[p].level < l;
      assert s0[p] == s[p] && s0[id] == s[id];
    }
  }

  lemma CountDefined(s: Store, rc: Counts, held: multiset<Edge>, cap: nat, id: NodeId)
    requires Counted(s, rc, held, cap) && id in s
    ensures id in rc
  {
  }

  lemma ExtendsSmaller(s: Store, r: Store)
    requires Extends(s, r)
    ensures |s| <= |r|
  {
    assert s.Keys <= r.Keys;
    SubsetSize(s.Keys, r.Keys);
  }

  /** `r` holds results for the cofactors, computed one after the other. */
  ghost predicate BothDenote(use: Use, op: Op, s0: Store, s1: Store, s2: Store, f0: Edge, g0: Edge, f1: Edge, g1: Edge,
                             r: (Edge, Edge), l: Level) {
    && Ordered(s0) && Ordered(s1) && Ordered(s2) && Extends(s0, s1) && Extends(s1, s2)
    && Valid(s0, f0) && Valid(s0, g0) && Denotes(use, s1, r.0, op, s0, f0, g0)
    && Valid(s1, f1) && Valid(s1, g1) && Denotes(use, s2, r.1, op, s1, f1, g1)
    && Below(s2, r.0, l) && Below(s2, r.1, l)
  }

  lemma BothAre(use: Use, op: Op, s0: Store, s1: Store, s2: Store, f0: Edge, g0: Edge, f1: Edge, g1: Edge,
                t: Edge, e: Edge, l: Level)
    requires Ordered(s0) && Ordered(s1) && Ordered(s2) && Extends(s0, s1) && Extends(s1, s2)
    requires Valid(s0, f0) && Valid(s0, g0) && Denotes(use, s1, t, op, s0, f0, g0)
    requires Valid(s1, f1) && Valid(s1, g1) && Denotes(use, s2, e, op, s1, f1, g1)
    requires Below(s2, t, l) && Below(s2, e, l)
    ensures BothDenote(use, op, s0, s1, s2, f0, g0, f1, g1, (t, e), l)
  {
  }

  lemma BothParts(use: Use, op: Op, s0: Store, s1: Store, s2: Store, f0: Edge, g0: Edge, f1: Edge, g1: Edge,
                  r: (Edge, Edge), l: Level)
    requires BothDenote(use, op, s0, s1, s2, f0, g0, f1, g1, r, l)
    ensures Ordered(s2) && Extends(s0, s2) && Below(s2, r.0, l) && Below(s2, r.1, l)
  {
    ExtendsTrans(s0, s1, s2);
  }

  lemma CombineBoth(use: Use, op: Op, f: Edge, g: Edge, greater: bool, l: Level, t: Edge, e: Edge, h: Edge,
                    s0: Store, s1: Store, s2: Store, s3: Store)
    requires Ordered(s0) && Valid(s0, f) && Valid(s0, g) && TerminalBin(op, f, g, greater).Binary?
    requires l == TopLevel(s0, f, g) && (f.Inner? || g.Inner?)
    requires var (f0, f1) := Cofactors(s0, f, l);
             var (g0, g1) := Cofactors(s0, g, l);
             BothDenote(use, op, s0, s1, s2, f0, g0, f1, g1, (t, e), l)
    requires Ordered(s3) && Extends(s2, s3) && IsChoice(s3, h, l, t, e)
    ensures Denotes(use, s3, h, op, s0, f, g)
  {
    hide TerminalBin, Denotes, IsChoice, Ordered, Eval;
    var (f0, f1) := Cofactors(s0, f, l);
    var (g0, g1) := Cofactors(s0, g, l);
    CofactorsValid(s0, f, l);
    CofactorsValid(s0, g, l);
    CombineCofactors(use, op, f, g, greater, l, f0, f1, g0, g1, t, e, h, s0, s1, s2, s3);
  }

  lemma CofactorsValid(s: Store, x: Edge, l: Level)
    requires Ordered(s) && Valid(s, x)
    ensures Valid(s, Cofactors(s, x, l).0) && Valid(s, Cofactors(s, x, l).1)
  {
    assert x.Inner? ==> NodeOrdered(s, s[x.id]);
  }

  lemma LevelsBelow(s: Store, f: Edge, g: Edge, l: Level)
    requires Ordered(s) && Below(s, f, l) && Below(s, g, l)
    ensures l < TopLevel(s, f, g) <= TERMINAL_LEVEL
  {
    assert f.Inner? ==> NodeOrdered(s, s[f.id]);
  }

  // --- Cache -----------------------------------------------------------------

  /** The bucket selected by a hash. */
  function Bucket(h: nat, n: nat): (i: nat)
    requires n > 0
    ensures i < n
  {
    h % n
  }

  /** What the bucket remembers about these operands. */
  function Recall(cache: seq<Entry>, h: nat, key: Op, f: Edge, g: Edge): Option<Edge>
    requires |cache| > 0
  {
    var entry := cache[Bucket(h, |cache|)];
    if entry.Filled? && (entry.key, entry.f, entry.g) == (key, f, g) then Some(entry.value) else None
  }

  function Stored(cache: seq<Entry>, h: nat, entry: Entry): (r: seq<Entry>)
    requires |cache| > 0
    ensures |r| == |cache|
  {
    cache[Bucket(h, |cache|) := entry]
  }

  /** A stored entry is recalled, and only entries of the same bucket are forgotten. */
  lemma StoredRecalled(cache: seq<Entry>, h: nat, entry: Entry, h': nat, key: Op, f: Edge, g: Edge)
    requires |cache| > 0 && entry.Filled?
    ensures Recall(Stored(cache, h, entry), h, entry.key, entry.f, entry.g) == Some(entry.value)
    ensures Bucket(h', |cache|) != Bucket(h, |cache|) ==>
              Recall(Stored(cache, h, entry), h', key, f, g) == Recall(cache, h', key, f, g)
  {
    hide Bucket;
  }

  class Manager {
    const capacity: nat
    /** The hash that selects a cache bucket. */
    const hash: (Op, Edge, Edge) -> nat
    /** The order of the raw edges, `f > g`. */
    const above: (Edge, Edge) -> bool
    /** The vacant slots that other threads hold. */
    const reserved: set<NodeId>
    /** The terminals that the terminal manager cannot provide. */
    const scarce: set<Int64>
    /** Do other threads lock cache entries? */
    const contended: bool

    var nodes: Store
    var rc: Counts
    /** The nodes that a lookup in the table of their level misses: a sweep may have cut
        them off. A table that is rebuilt, or whose gaps are filled, finds them again. */
    var hidden: set<NodeId>
    var levels: nat
    var cache: seq<Entry>
    /** All edges owned outside of the store: one element for each reference. */
    ghost var held: multiset<Edge>

    /** The cached values are right for how Min and Max have been used. */
    ghost predicate CacheSound(use: Use)
      requires Ordered(nodes)
      reads this`nodes, this`cache
    {
      |cache| > 0 && forall i :: 0 <= i < |cache| ==> Sound(nodes, use, cache[i])
    }

    ghost predicate Consistent(use: Use)
      reads this
    {
      && Regular(nodes)
      && Counted(nodes, rc, held, capacity)
      && Indexed(nodes, hidden, levels)
      && CacheSound(use)
    }

    lemma ConsistentOrdered(use: Use)
      requires Consistent(use)
      ensures Ordered(nodes)
    {
    }

    /** No node is stored twice, and lookups find all nodes. */
    ghost predicate Intact()
      reads this`nodes, this`hidden
    {
      Unique(nodes) && hidden == {}
    }

    /** There is no slot for another node. */
    ghost predicate Full()
      reads this`nodes
    {
      Occupied(nodes, reserved, capacity)
    }

    constructor (capacity: nat, buckets: nat, hash: (Op, Edge, Edge) -> nat, above: (Edge, Edge) -> bool,
                 reserved: set<NodeId>, scarce: set<Int64>, contended: bool)
      requires buckets > 0
      ensures forall use :: Consistent(use)
      ensures Intact() && nodes == map[] && levels == 0 && held == multiset{}
    {
      this.capacity := capacity;
      this.hash, this.above := hash, above;
      this.reserved, this.scarce, this.contended := reserved, scarce, contended;
      nodes, rc, hidden, levels := map[], map[], {}, 0;
      cache := seq(buckets, _ => Empty);
      held := multiset{};
    }

    // --- Edges ---------------------------------------------------------------

    method CloneEdge(x: Edge, ghost use: Use)
      requires Consistent(use) && Valid(nodes, x)
      modifies this`rc, this`held
      ensures Consistent(use)
      ensures held == old(held) + multiset{x}
    {
      hide Sound, Ordered, Reduced, Indexed, Counted;
      RetainKeepsCounted(nodes, rc, held, capacity, x);
      rc := Retain(rc, x);
      held := held + multiset{x};
    }

    method DropEdge(x: Edge, ghost use: Use)
      requires Consistent(use) && x in held
      modifies this`rc, this`held
      ensures Consistent(use)
      ensures held == old(held) - multiset{x}
    {
      hide Sound, Ordered, Reduced, Indexed, Counted;
      ReleaseKeepsCounted(nodes, rc, held, capacity, x);
      rc := Release(rc, x);
      held := held - multiset{x};
    }

    /** Fetch a terminal, if the terminal manager can provide it. */
    method GetTerminal(c: Int64, ghost use: Use) returns (r: AllocResult)
      requires Consistent(use)
      modifies this`rc, this`held
      ensures Consistent(use)
      ensures r == if c in scarce then OutOfMemory else Ok(Terminal(c))
      ensures held == if r.Ok? then old(held) + multiset{r.edge} else old(held)
    {
      if c in scarce {
        return OutOfMemory;
      }
      CloneEdge(Terminal(c), use);
      r := Ok(Terminal(c));
    }

    /** A vacant slot that no other thread holds. There is none only if the store is full. */
    method FindSlot() returns (id: Option<NodeId>)
      ensures id.Some? ==> id.value !in nodes && id.value < capacity
      ensures id.None? <==> Full()
    {
      for i := 0 to capacity
        invariant forall j: NodeId :: j < i ==> j in nodes || j in reserved
      {
        if i !in nodes && i !in reserved {
          return Some(i);
        }
      }
      id := None;
    }

    method DropChildren(t: Edge, e: Edge, ghost use: Use)
      requires Consistent(use) && multiset{t, e} <= held
      modifies this`rc, this`held
      ensures Consistent(use)
      ensures held == old(held) - multiset{t, e}
    {
      hide Sound, Ordered, Reduced, Indexed, Counted;
      assert t in multiset{t, e} && e in multiset{t, e} - multiset{t};
      DropEdge(t, use);
      DropEdge(e, use);
    }

    /** Look a node up. The table may have to be rebuilt for this, which shows hidden nodes. */
    method Lookup(n: Node) returns (id: Option<NodeId>)
      modifies this`hidden
      ensures hidden <= old(hidden)
      ensures id.Some? ==> id.value in nodes && nodes[id.value] == n
      ensures id.None? ==> forall i :: i in nodes && nodes[i] == n ==> i in hidden
    {
      var shown: set<NodeId> := *;
      hidden := hidden - shown;
      if i :| i in nodes && i !in hidden && nodes[i] == n {
        return Some(i);
      }
      id := None;
    }

    /** Store a new node in a vacant slot: it takes over the edges held on its children. */
    method InsertNew(id: NodeId, n: Node, ghost use: Use)
      requires Consistent(use) && NodeOrdered(nodes, n) && n.level < levels && n.t != n.e
      requires id !in nodes && id < capacity && multiset{n.t, n.e} <= held
      modifies this`nodes, this`rc, this`held
      ensures Consistent(use) && Extends(old(nodes), nodes) && nodes == old(nodes)[id := n]
      ensures Unique(nodes) <==> Unique(old(nodes)) && forall i :: i in old(nodes) ==> old(nodes)[i] != n
      ensures held == old(held) - multiset{n.t, n.e} + multiset{Inner(id)}
    {
      hide Sound, Ordered, Reduced, Unique, Counted;
      InsertKeepsRegular(nodes, id, n);
      InsertKeepsCounted(nodes, rc, held, capacity, id, n);
      AllSoundFrame(nodes, nodes[id := n], use, cache);
      held := TakeOver(held, n.t, n.e, id);
      nodes, rc := nodes[id := n], rc[id := 2];
    }

    /** Hash-consing. Consumes the edges held on the children of `n`, also on failure.
        A node is inserted only if all its stored copies are hidden. */
    method GetOrInsert(n: Node, ghost use: Use) returns (r: AllocResult)
      requires Consistent(use) && NodeOrdered(nodes, n) && n.level < levels && n.t != n.e
      requires multiset{n.t, n.e} <= held
      modifies this`nodes, this`rc, this`hidden, this`held
      ensures Consistent(use) && Extends(old(nodes), nodes) && hidden <= old(hidden)
      ensures r.Ok? ==> r.edge.Inner? && r.edge.id in nodes && nodes[r.edge.id] == n
      ensures nodes != old(nodes) ==> r.Ok? && nodes == old(nodes)[r.edge.id := n] && r.edge.id !in old(nodes)
      ensures nodes != old(nodes) ==> forall i :: i in old(nodes) && old(nodes)[i] == n ==> i in old(hidden)
      ensures Unique(old(nodes)) ==>
                (Unique(nodes) <==> nodes == old(nodes) || forall i :: i in old(nodes) ==> old(nodes)[i] != n)
      ensures old(Intact()) ==> Intact()
      ensures r.OutOfMemory? ==> Full() && forall i :: i in old(nodes) && old(nodes)[i] == n ==> i in old(hidden)
      ensures r.Ok? ==> held == old(held) - multiset{n.t, n.e} + multiset{r.edge}
      ensures r.OutOfMemory? ==> held == old(held) - multiset{n.t, n.e}
    {
      hide Sound, Ordered, Reduced, Unique, Counted, Occupied;
      var found := Lookup(n);
      if found.Some? {
        DropChildren(n.t, n.e, use);
        CloneEdge(Inner(found.value), use);
        return Ok(Inner(found.value));
      }
      var slot := FindSlot();
      if slot.None? {
        DropChildren(n.t, n.e, use);
        return OutOfMemory;
      }
      InsertNew(slot.value, n, use);
      r := Ok(Inner(slot.value));
    }

    /** The reduction rule followed by hash-consing. Consumes both edges. */
    method Reduce(l: Level, t: Edge, e: Edge, ghost use: Use) returns (r: AllocResult)
      requires Consistent(use) && l < levels && Below(nodes, t, l) && Below(nodes, e, l)
      requires multiset{t, e} <= held
      modifies this`nodes, this`rc, this`hidden, this`held
      ensures Consistent(use) && Extends(old(nodes), nodes) && (old(Intact()) ==> Intact())
      ensures r.Ok? ==> IsChoice(nodes, r.edge, l, t, e)
      ensures t == e ==> r == Ok(t) && nodes == old(nodes)
      ensures r.OutOfMemory? ==>
                Full() && forall i :: i in old(nodes) && old(nodes)[i] == Node(l, t, e) ==> i in old(hidden)
      ensures held == if r.Ok? then old(held) - multiset{t, e} + multiset{r.edge} else old(held) - multiset{t, e}
    {
      hide Sound, Ordered, Reduced, Unique, Counted, IsChoice, Occupied;
      if t == e {
        assert t in multiset{t, e};
        SameIsChoice(nodes, t, l);
        DropEdge(e, use);
        assert held == old(held) - multiset{t, e} + multiset{t};
        return Ok(t);
      }
      r := GetOrInsert(Node(l, t, e), use);
      if r.Ok? {
        StoredIsChoice(nodes, r.edge.id);
      }
    }

    /** A new bottom-most level with one node, e.g. a new variable. */
    method AddLevel(t: Edge, e: Edge, ghost use: Use) returns (r: AllocResult)
      requires Consistent(use) && t.Terminal? && e.Terminal? && t != e && multiset{t, e} <= held
      requires levels < TERMINAL_LEVEL
      modifies this`nodes, this`rc, this`levels, this`held
      ensures Consistent(use) && Extends(old(nodes), nodes) && (old(Intact()) ==> Intact())
      ensures levels == old(levels) + if r.Ok? then 1 else 0
      ensures r.OutOfMemory? <==> old(Full())
      ensures r.Ok? ==> IsChoice(nodes, r.edge, old(levels), t, e)
      ensures held == if r.Ok? then old(held) - multiset{t, e} + multiset{r.edge} else old(held) - multiset{t, e}
    {
      hide Sound, Ordered, Reduced, Unique, Counted, IsChoice;
      var slot := FindSlot();
      if slot.None? {
        DropChildren(t, e, use);
        return OutOfMemory;
      }
      assert forall i :: i in nodes ==> nodes[i].level < levels;
      levels := levels + 1;
      InsertNew(slot.value, Node(levels - 1, t, e), use);
      StoredIsChoice(nodes, slot.value);
      r := Ok(Inner(slot.value));
    }

    // --- Apply ---------------------------------------------------------------

    /** A cache hit hands out a counted copy of the uncounted edge in the entry. An entry is
        missed only if another thread has locked it. */
    method CacheGet(key: Op, f: Edge, g: Edge, ghost use: Use) returns (r: Option<Edge>)
      requires Consistent(use)
      modifies this`rc, this`held
      ensures Consistent(use)
      ensures r == Recall(cache, hash(key, f, g), key, f, g) || (contended && r.None?)
      ensures r.Some? ==> Sound(nodes, use, Filled(key, f, g, r.value))
      ensures held == if r.Some? then old(held) + multiset{r.value} else old(held)
    {
      hide Ordered, Reduced, Counted, Indexed, Denotes, Bucket;
      var locked: bool := *;
      var entry := cache[Bucket(hash(key, f, g), |cache|)];
      if (contended && locked) || entry.Empty? || (entry.key, entry.f, entry.g) != (key, f, g) {
        return None;
      }
      assert Sound(nodes, use, entry);
      CloneEdge(entry.value, use);
      r := Some(entry.value);
    }

    /** Overwrite the bucket, unless another thread has locked it. Nothing is counted. */
    method CacheAdd(key: Op, f: Edge, g: Edge, value: Edge, ghost use: Use)
      requires Consistent(use) && Sound(nodes, use, Filled(key, f, g, value))
      modifies this`cache
      ensures Consistent(use)
      ensures cache == Stored(old(cache), hash(key, f, g), Filled(key, f, g, value))
              || (contended && cache == old(cache))
    {
      hide Ordered, Reduced, Counted, Sound, Indexed, Bucket;
      var locked: bool := *;
      if !(contended && locked) {
        cache := cache[Bucket(hash(key, f, g), |cache|) := Filled(key, f, g, value)];
      }
    }

    /** What the terminal case decides for these operands. */
    function CaseOf(op: Op, f: Edge, g: Edge): Case {
      TerminalBin(op, f, g, above(f, g))
    }

    /** The recursive apply algorithm. The proof may be asked about any use of the cache
        that its contents agree with; a mixed use permits all operators. Apply fails only if
        the store is full or a terminal cannot be provided. */
    method ApplyBin(op: Op, f: Edge, g: Edge, ghost use: Use) returns (r: AllocResult)
      requires Consistent(use) && Permits(use, op) && Valid(nodes, f) && Valid(nodes, g)
      modifies this`nodes, this`rc, this`hidden, this`held, this`cache
      ensures Consistent(use) && Extends(old(nodes), nodes) && (old(Intact()) ==> Intact())
      ensures r.Ok? ==> Denotes(use, nodes, r.edge, op, old(nodes), f, g)
      ensures held == if r.Ok? then old(held) + multiset{r.edge} else old(held)
      ensures r.OutOfMemory? ==> Full() || scarce != {}
      ensures CaseOf(op, f, g).Share? ==> r == Ok(CaseOf(op, f, g).x)
      ensures CaseOf(op, f, g).Fetch? ==>
                var c := CaseOf(op, f, g).value; r == if c in scarce then OutOfMemory else Ok(Terminal(c))
      ensures CaseOf(op, f, g).Binary? ==> Remembers(CaseOf(op, f, g), r)
      decreases TERMINAL_LEVEL - TopLevel(nodes, f, g), 3
    {
      hide Sound, Ordered, Reduced, Unique, Indexed, Counted, Denotes, TerminalBin, Occupied, Eval;
      var c := CaseOf(op, f, g);
      CaseDenotes(use, op, nodes, f, g, above(f, g));
      match c {
        case Fetch(n) => r := GetTerminal(n, use);
        case Share(x) =>
          CloneEdge(x, use);
          r := Ok(x);
        case Binary(_, _, _) => r := ApplyCached(op, f, g, use);
      }
    }

    /** Unless other threads lock entries, a result is in the cache. */
    ghost predicate Remembers(c: Case, r: AllocResult)
      requires c.Binary?
      reads this
    {
      !contended && r.Ok? && |cache| > 0 ==> Recall(cache, hash(c.key, c.f, c.g), c.key, c.f, c.g) == Some(r.edge)
    }

    /** Take the result from the cache, or compute and cache it. */
    method ApplyCached(op: Op, f: Edge, g: Edge, ghost use: Use) returns (r: AllocResult)
      requires Consistent(use) && Permits(use, op) && Valid(nodes, f) && Valid(nodes, g)
      requires CaseOf(op, f, g).Binary? && (f.Inner? || g.Inner?)
      modifies this`nodes, this`rc, this`hidden, this`held, this`cache
      ensures Consistent(use) && Extends(old(nodes), nodes) && (old(Intact()) ==> Intact())
      ensures r.Ok? ==> Denotes(use, nodes, r.edge, op, old(nodes), f, g)
      ensures held == if r.Ok? then old(held) + multiset{r.edge} else old(held)
      ensures r.OutOfMemory? ==> Full() || scarce != {}
      ensures Remembers(CaseOf(op, f, g), r)
      decreases TERMINAL_LEVEL - TopLevel(nodes, f, g), 2
    {
      hide Sound, Ordered, Reduced, Unique, Indexed, Counted, Denotes, TerminalBin, Occupied, Eval, Bucket, TopLevel;
      var c := CaseOf(op, f, g);
      var hit := CacheGet(c.key, c.f, c.g, use);
      if hit.Some? {
        HitDenotes(use, op, nodes, f, g, above(f, g), hit.value);
        return Ok(hit.value);
      }
      ghost var s0 := nodes;
      r := ApplySplit(op, f, g, above(f, g), use);
      if r.Ok? {
        EntrySound(use, op, s0, nodes, f, g, above(f, g), r.edge);
        CacheAdd(c.key, c.f, c.g, r.edge, use);
      }
    }

    /** Recurse on both pairs of cofactors, which lie below level `l`. `s1` is the store after
        the first call. */
    method ApplyBoth(op: Op, f0: Edge, g0: Edge, f1: Edge, g1: Edge, ghost l: Level, ghost use: Use)
      returns (r: Option<(Edge, Edge)>, ghost s1: Store)
      requires Consistent(use) && Permits(use, op) && l < TERMINAL_LEVEL
      requires Below(nodes, f0, l) && Below(nodes, g0, l) && Below(nodes, f1, l) && Below(nodes, g1, l)
      modifies this`nodes, this`rc, this`hidden, this`held, this`cache
      ensures Consistent(use) && Extends(old(nodes), nodes) && (old(Intact()) ==> Intact())
      ensures r.Some? ==> BothDenote(use, op, old(nodes), s1, nodes, f0, g0, f1, g1, r.value, l)
      ensures held == if r.Some? then old(held) + multiset{r.value.0} + multiset{r.value.1} else old(held)
      ensures r.None? ==> Full() || scarce != {}
      decreases TERMINAL_LEVEL - l, 0
    {
      hide Sound, Ordered, Reduced, Unique, Indexed, Counted, Denotes, IsChoice, TerminalBin, Eval, Occupied;
      hide Extends, LevelOf, TopLevel, BothDenote, Manager.CaseOf, Manager.Remembers, Manager.Full;
      hide Manager.Consistent, Manager.Intact;
      ghost var s0, h0 := nodes, held;
      ConsistentOrdered(use);
      LevelsBelow(nodes, f0, g0, l);
      var t := ApplyBin(op, f0, g0, use);
      ConsistentOrdered(use);
      s1 := nodes;
      if t.OutOfMemory? {
        return None, s1;
      }
      ValidFrame(s0, s1, f1, l);
      ValidFrame(s0, s1, g1, l);
      ResultBelow(use, s1, t.edge, op, s0, f0, g0, l);
      LevelsBelow(nodes, f1, g1, l);
      var e := ApplyBin(op, f1, g1, use);
      ConsistentOrdered(use);
      ExtendsTrans(s0, s1, nodes);
      if e.OutOfMemory? {
        Cancel(h0, t.edge);
        DropEdge(t.edge, use);
        return None, s1;
      }
      ValidFrame(s1, nodes, t.edge, l);
      ResultBelow(use, nodes, e.edge, op, s1, f1, g1, l);
      r := Some((t.edge, e.edge));
      BothAre(use, op, s0, s1, nodes, f0, g0, f1, g1, t.edge, e.edge, l);
    }

    /** Recurse on the cofactors of both operands and combine the results. */
    method ApplySplit(op: Op, f: Edge, g: Edge, ghost greater: bool, ghost use: Use) returns (r: AllocResult)
      requires Consistent(use) && Permits(use, op) && Valid(nodes, f) && Valid(nodes, g)
      requires TerminalBin(op, f, g, greater).Binary? && (f.Inner? || g.Inner?)
      modifies this`nodes, this`rc, this`hidden, this`held, this`cache
      ensures Consistent(use) && Extends(old(nodes), nodes) && (old(Intact()) ==> Intact())
      ensures r.Ok? ==> Denotes(use, nodes, r.edge, op, old(nodes), f, g)
      ensures held == if r.Ok? then old(held) + multiset{r.edge} else old(held)
      ensures r.OutOfMemory? ==> Full() || scarce != {}
      decreases TERMINAL_LEVEL - TopLevel(nodes, f, g), 1
    {
      hide Sound, Ordered, Reduced, Unique, Indexed, Counted, Denotes, IsChoice, TerminalBin, Eval, Occupied;
      hide Extends, Cofactors, LevelOf, TopLevel, BothDenote, Manager.Full, Manager.Consistent, Manager.Intact;
      ghost var s0, h0 := nodes, held;
      SplitLevels(f, g, use);
      var l := TopLevel(nodes, f, g);
      var (f0, f1) := Cofactors(nodes, f, l);
      var (g0, g1) := Cofactors(nodes, g, l);
      var both, s1 := ApplyBoth(op, f0, g0, f1, g1, l, use);
      if both.None? {
        return OutOfMemory;
      }
      var (t, e) := both.value;
      ghost var s2 := nodes;
      BothParts(use, op, s0, s1, s2, f0, g0, f1, g1, both.value, l);
      TwoMore(h0, t, e);
      r := Reduce(l, t, e, use);
      ConsistentOrdered(use);
      ExtendsTrans(s0, s2, nodes);
      if r.Ok? {
        CombineBoth(use, op, f, g, greater, l, t, e, r.edge, s0, s1, s2, nodes);
      }
    }

    lemma SplitLevels(f: Edge, g: Edge, use: Use)
      requires Consistent(use) && Valid(nodes, f) && Valid(nodes, g) && (f.Inner? || g.Inner?)
      ensures Ordered(nodes) && TopLevel(nodes, f, g) < levels && TopLevel(nodes, f, g) < TERMINAL_LEVEL
      ensures var l := TopLevel(nodes, f, g);
              var (f0, f1) := Cofactors(nodes, f, l);
              var (g0, g1) := Cofactors(nodes, g, l);
              Below(nodes, f0, l) && Below(nodes, f1, l) && Below(nodes, g0, l) && Below(nodes, g1, l)
    {
      hide Sound, Counted, Ordered, Reduced;
      SplitBelow(nodes, hidden, levels, f, g);
    }

    // --- Garbage collection --------------------------------------------------

    /** Before nodes are removed, the cache forgets all its uncounted edges. */
    method PreGc(ghost use: Use)
      requires Consistent(use)
      modifies this`cache
      ensures forall u :: Consistent(u)
      ensures |cache| == old(|cache|) && forall i :: 0 <= i < |cache| ==> cache[i] == Empty
    {
      cache := seq(|cache|, _ => Empty);
    }

    /** Remove a node that only the unique table refers to, and drop its child edges. */
    method FreeNode(id: NodeId, ghost use: Use)
      requires Consistent(use) && id in nodes && rc[id] == 1
      requires forall i :: 0 <= i < |cache| ==> cache[i] == Empty
      modifies this`nodes, this`rc, this`hidden
      ensures Consistent(use) && nodes == old(nodes) - {id} && hidden == old(hidden) - {id}
      ensures Unique(old(nodes)) ==> Unique(nodes)
    {
      hide Ordered, Reduced, Unique, Counted;
      var n := nodes[id];
      CountOneUnreferenced(nodes, rc, held, capacity, id);
      RemoveKeepsRegular(nodes, id);
      RemoveKeepsCounted(nodes, rc, held, capacity, id);
      nodes, hidden := nodes - {id}, hidden - {id};
      rc := ReleaseBoth(rc - {id}, n.t, n.e);
    }

    /** Remove the node if its count is 1. */
    method VisitNode(id: NodeId, ghost l: Level, ghost s0: Store, ghost use: Use)
      requires Consistent(use) && Ordered(s0) && Swept(s0, nodes, held, l)
      requires id in nodes && nodes[id].level == l && forall i :: 0 <= i < |cache| ==> cache[i] == Empty
      modifies this`nodes, this`rc, this`hidden
      ensures Consistent(use) && Swept(s0, nodes, held, l)
      ensures nodes == (if id in nodes then old(nodes) else old(nodes) - {id}) && hidden == old(hidden) * nodes.Keys
      ensures (id in nodes ==> Reachable(s0, held, id)) && (Unique(old(nodes)) ==> Unique(nodes))
    {
      hide Ordered, Reduced, Unique, Counted, Reachable;
      CountDefined(nodes, rc, held, capacity, id);
      if rc[id] != 1 {
        KeptReachable(s0, nodes, rc, held, capacity, l, id);
      } else {
        CondemnedUnreachable(s0, nodes, rc, held, capacity, l, id);
        FreeNode(id, use);
      }
    }

    /** Lookups may miss any nodes of a level that has been swept. */
    method LoseSight(l: Level, ghost use: Use)
      requires Consistent(use)
      modifies this`hidden
      ensures Consistent(use) && forall i :: i in nodes && nodes[i].level != l ==> (i in hidden <==> i in old(hidden))
    {
      hide Ordered, Reduced, Counted, Sound;
      var cut: set<NodeId> := *;
      hidden := set i | i in nodes && (if nodes[i].level == l then i in cut else i in hidden);
    }

    /** Retain the nodes of one level whose count is not 1. */
    method SweepLevel(l: Level, ghost s0: Store, ghost use: Use)
      requires Consistent(use) && Ordered(s0) && Swept(s0, nodes, held, l)
      requires forall i :: 0 <= i < |cache| ==> cache[i] == Empty
      modifies this`nodes, this`rc, this`hidden
      ensures Consistent(use) && Swept(s0, nodes, held, l + 1) && Extends(nodes, old(nodes))
      ensures Unique(old(nodes)) ==> Unique(nodes)
      ensures forall i :: i in nodes && nodes[i].level != l ==> (i in hidden <==> i in old(hidden))
    {
      hide Ordered, Reduced, Unique, Counted, Sound, Reachable, Indexed;
      var todo: set<NodeId> := set i | i in nodes && nodes[i].level == l;
      while todo != {}
        invariant Consistent(use) && Swept(s0, nodes, held, l) && Extends(nodes, old(nodes))
        invariant forall i :: i in todo ==> i in nodes && nodes[i].level == l
        invariant forall i :: i in nodes && nodes[i].level == l && i !in todo ==> Reachable(s0, held, i)
        invariant Unique(old(nodes)) ==> Unique(nodes)
        invariant forall i :: i in nodes ==> (i in hidden <==> i in old(hidden))
        decreases |todo|
      {
        var id :| id in todo;
        todo := todo - {id};
        VisitNode(id, l, s0, use);
      }
      LoseSight(l, use);
    }

    /** One top-down pass removes exactly the nodes that no held edge can reach. It reports
        how many nodes and how many terminals (a number the terminal manager knows) it has
        collected; nothing if another collection is going on. */
    method Gc(busy: bool, terminals: nat, ghost use: Use) returns (collected: nat)
      requires Consistent(use)
      modifies this`nodes, this`rc, this`hidden, this`cache
      ensures Consistent(use) && (Unique(old(nodes)) ==> Unique(nodes))
      ensures busy ==> nodes == old(nodes) && hidden == old(hidden) && collected == 0
      ensures !busy ==> nodes == map i | i in old(nodes) && Reachable(old(nodes), held, i) :: old(nodes)[i]
      ensures !busy ==> collected == old(|nodes|) - |nodes| + terminals
    {
      hide Ordered, Reduced, Unique, Counted, Sound, Reachable;
      if busy {
        return 0;
      }
      ghost var s0 := nodes;
      var before := |nodes|;
      PreGc(use);
      for l := 0 to levels
        invariant Consistent(use) && Swept(s0, nodes, held, l) && (Unique(s0) ==> Unique(nodes))
        invariant forall i :: 0 <= i < |cache| ==> cache[i] == Empty
      {
        SweepLevel(l, s0, use);
      }
      assert forall i :: i in nodes ==> nodes[i].level < levels;
      ExtendsSmaller(nodes, s0);
      collected := before - |nodes| + terminals;
    }
  }
}
