/** A run in which a sweep cuts a node off from lookup and the node is inserted a second time. */
module DuplicateRun {
  import opened Numbers
  import opened Diagrams
  import opened RefCounts
  import opened Probing
  import opened LevelTables
  import opened Protocol
  import opened UniqueRuns

  // --- Five nodes on one level, the first two of which collide ---------------

  function Hash(n: Node): nat {
    if n.t == Terminal(Num(0)) then 3
    else if n.t == Terminal(Num(1)) then 19
    else if n.t == Terminal(Num(2)) then 8
    else if n.t == Terminal(Num(3)) then 9
    else 10
  }

  const CONFIG := Config(6, Hash)

  function Then(k: nat): Edge
    requires k < 5
  {
    Terminal(Num(k))
  }

  const ELSE := Terminal(NaN)

  function NodeOf(k: nat): Node
    requires k < 5
  {
    Node(0, Then(k), ELSE)
  }

  /** The slot in which the k-th node ends up. */
  function Place(k: nat): nat
    requires k < 5
  {
    if k < 2 then 3 + k else 6 + k
  }

  /** The table after `k` insertions. */
  function Slots(k: nat): (d: Table)
    requires k <= 5
    ensures |d| == 16
  {
    if k == 0 then seq(16, _ => Free) else Slots(k - 1)[Place(k - 1) := Full(Hash(NodeOf(k - 1)), k - 1)]
  }

  lemma {:induction false} SlotsAre(k: nat)
    requires k <= 5
    ensures forall j: nat :: j < k ==> Slots(k)[Place(j)] == Full(Hash(NodeOf(j)), j)
    ensures forall q :: 0 <= q < 16 && (forall j: nat :: j < k ==> Place(j) != q) ==> Slots(k)[q] == Free
  {
    if k > 0 {
      SlotsAre(k - 1);
    }
  }

  lemma PlaceInsertable(k: nat)
    requires k < 5
    ensures Insertable(Slots(k), Hash(NodeOf(k)), Place(k)) && Slots(k)[Place(k)] == Free
  {
    SlotsAre(k);
    if k == 1 {
      assert Place(0) == 3 && Probe(3, 0, 16) == 3 && Distance(3, 4, 16) == 1;
    } else {
      assert Distance(Place(k), Place(k), 16) == 0;
    }
  }

  lemma {:induction false} SlotsCount(k: nat)
    requires k <= 5
    ensures Findable(Slots(k)) && |Bag(Slots(k))| == k && FreeCount(Slots(k)) == 16 - k
    ensures k == 1 ==> Bag(Slots(k)) == multiset{Full(3, 0)}
  {
    hide Findable, Insertable, Unbroken, FreeCount;
    if k == 0 {
      AllFree(Slots(0));
      NothingFull(Slots(0));
    } else {
      hide Slots, Hash;
      var j := k - 1;
      SlotsCount(j);
      PlaceInsertable(j);
      SlotsNext(j);
      FillCount(Slots(j), Place(j), Full(Hash(NodeOf(j)), j));
    }
  }

  lemma SlotsNext(k: nat)
    requires k < 5
    ensures Slots(k + 1) == Slots(k)[Place(k) := Full(Hash(NodeOf(k)), k)]
    ensures k == 0 ==> Bag(Slots(k)) == multiset{} && Hash(NodeOf(k)) == 3
  {
    if k == 0 {
      AllFree(Slots(0));
    }
  }

  lemma NothingFull(d: Table)
    requires forall q :: 0 <= q < |d| ==> d[q] == Free
    ensures Findable(d)
  {
  }

  lemma FillCount(d: Table, p: nat, x: Slot<NodeId>)
    requires x.Full? && Insertable(d, x.hash, p) && d[p] == Free && Findable(d)
    ensures Findable(d[p := x]) && Bag(d[p := x]) == Bag(d) + multiset{x}
    ensures FreeCount(d[p := x]) == FreeCount(d) - 1
  {
    InsertVisible(d, p, x);
    BagUpdate(d, p, x);
  }

  // --- Building the nodes ----------------------------------------------------

  function Nodes(k: nat): (s: Store)
    requires k <= 5
    ensures forall i: nat :: i in s <==> i < k
    ensures forall i: nat :: i in s ==> s[i] == NodeOf(i)
  {
    if k == 0 then map[] else Nodes(k - 1)[k - 1 := NodeOf(k - 1)]
  }

  function Twos(k: nat): (rc: Counts)
    ensures forall i: nat :: i in rc <==> i < k
    ensures forall i: nat :: i in rc ==> rc[i] == 2
  {
    if k == 0 then map[] else Twos(k - 1)[k - 1 := 2]
  }

  function Held(k: nat): (h: multiset<Edge>)
    ensures forall i: nat :: Inner(i) in h <==> i < k
  {
    if k == 0 then multiset{} else Held(k - 1) + multiset{Inner(k - 1)}
  }

  function Built(k: nat): State
    requires k <= 5
  {
    State(Nodes(k), Twos(k), if k == 0 then 0 else 1, if k == 0 then [] else [Slots(k)], [], [Held(k)], Idle)
  }

  /** The only thread fetches two terminals. */
  lemma Fetch(s: State, x: Edge, y: Edge) returns (s': State)
    requires RunReaches(CONFIG, s) && |s.held| == 1 && x.Terminal? && y.Terminal?
    ensures RunReaches(CONFIG, s') && s' == s.(held := [s.held[0] + multiset{x} + multiset{y}])
  {
    hide RunReaches, Ordered, Reachable;
    ReachedInv(CONFIG, s);
    InvOrdered(CONFIG, s);
    var s1 := s.(held := [s.held[0] + multiset{x}]);
    assert Mutate(CONFIG, s, Clone(0, x), s1);
    Advance(CONFIG, s, Clone(0, x), s1);
    s' := s.(held := [s.held[0] + multiset{x} + multiset{y}]);
    assert Mutate(CONFIG, s1, Clone(0, y), s');
    Advance(CONFIG, s1, Clone(0, y), s');
  }

  lemma Exchange(h: multiset<Edge>, x: Edge, y: Edge, z: Edge)
    ensures multiset{x, y} <= h + multiset{x} + multiset{y}
    ensures h + multiset{x} + multiset{y} - multiset{x, y} + multiset{z} == h + multiset{z}
  {
  }

  lemma Start()
    ensures RunReaches(CONFIG, Built(0))
  {
    assert Run(CONFIG, [Built(0)], []);
  }

  lemma BuildFirst()
    ensures RunReaches(CONFIG, Built(1))
  {
    hide RunReaches, Slots, Findable, Bag, Hash;
    Start();
    var s := Fetch(Built(0), Then(0), ELSE);
    Exchange(Held(0), Then(0), ELSE, Inner(0));
    SlotsCount(1);
    SlotsNext(0);
    var s' := Built(1);
    assert s'.nodes == s.nodes[0 := NodeOf(0)] && s'.rc == s.rc[0 := 2];
    assert s'.held == [TakeOver(s.held[0], Then(0), ELSE, 0)] && s'.tables == s.tables + [Slots(1)];
    assert Mutate(CONFIG, s, AddLevel(0, NodeOf(0), 0, Slots(1)), s');
    Advance(CONFIG, s, AddLevel(0, NodeOf(0), 0, Slots(1)), s');
  }

  lemma {:induction false} Build(k: nat)
    requires 1 <= k <= 5
    ensures RunReaches(CONFIG, Built(k))
  {
    hide RunReaches, Slots;
    if k == 1 {
      BuildFirst();
    } else {
      var j := k - 1;
      Build(j);
      BuildNext(j);
    }
  }

  lemma BuildNext(k: nat)
    requires 1 <= k < 5 && RunReaches(CONFIG, Built(k))
    ensures RunReaches(CONFIG, Built(k + 1))
  {
    hide RunReaches, Mutate, Insertable, FreeCount, Bag, Findable, Misses, Slots, Hash, Inv, Ordered, Held, Nodes, Twos;
    var s := Fetch(Built(k), Then(k), ELSE);
    Exchange(Held(k), Then(k), ELSE, Inner(k));
    SlotsCount(k);
    PlaceInsertable(k);
    NothingAlike(k);
    ReachedInv(CONFIG, s);
    InvOrdered(CONFIG, s);
    var s' := InsertStep(CONFIG, s, 0, NodeOf(k), k, Place(k));
    BuiltNext(k, s, s');
    Advance(CONFIG, s, Insert(0, NodeOf(k), k, Slots(k), Place(k)), s');
  }

  lemma BuiltNext(k: nat, s: State, s': State)
    requires 1 <= k < 5 && s == Built(k).(held := [Held(k) + multiset{Then(k)} + multiset{ELSE}])
    requires s'.nodes == s.nodes[k := NodeOf(k)] && s'.rc == s.rc[k := 2] && s'.levels == s.levels
    requires s'.tables == s.tables[0 := Slots(k)[Place(k) := Full(Hash(NodeOf(k)), k)]]
    requires s'.cells == s.cells && s'.phase == s.phase && s'.held == [TakeOver(s.held[0], Then(k), ELSE, k)]
    ensures s' == Built(k + 1)
  {
    Exchange(Held(k), Then(k), ELSE, Inner(k));
  }

  lemma NothingAlike(k: nat)
    requires k < 5
    ensures Misses(Slots(k), Nodes(k), NodeOf(k))
  {
  }

  // --- Collecting the first node ---------------------------------------------

  /** The table after the sweep: the first node has left a free slot before the second. */
  function Gap(): (d: Table)
    ensures |d| == 16
  {
    Slots(5)[3 := Free]
  }

  /** Four nodes are left, in a table that does not find one of them. */
  function Left(phase: Phase, d: Table): State {
    State(Nodes(5) - {0}, Twos(5) - {0}, 1, [d], [], [Held(5) - multiset{Inner(0)}], phase)
  }

  lemma GapIsSwept()
    ensures SweptTo(Slots(5), Nodes(5) - {0}, 0, Gap()) && FreeCount(Gap()) == 12
  {
    hide Slots, Retained, Findable, Bag, FreeCount;
    SlotsCount(5);
    GapCount();
    SweepMakesGap();
  }

  lemma GapCount()
    ensures |Bag(Gap())| == 4 && FreeCount(Gap()) == 12
  {
    hide Slots, Findable;
    SlotsCount(5);
    SlotsAre(5);
    var d := Slots(5);
    assert Place(0) == 3 && d[3].Full?;
    BagRemove(d, 3, Free);
    BagUpdate(d, 3, Free);
    assert d[3] in multiset(d);
  }

  lemma SweepMakesGap()
    ensures Retained(Slots(5), Keeper(Nodes(5) - {0}, 0)) == Gap()
  {
    hide Slots, RetainedSlot, Keeper, Nodes;
    var d, keep := Slots(5), Keeper(Nodes(5) - {0}, 0);
    forall q | 0 <= q < 16
      ensures RetainedSlot(d, keep, q) == Gap()[q]
    {
      SweptSlot(q);
    }
  }

  lemma SweptSlot(q: nat)
    requires q < 16
    ensures RetainedSlot(Slots(5), Keeper(Nodes(5) - {0}, 0), q) == Gap()[q]
  {
    hide Slots, RetainedSlot, Keeper, Nodes;
    if q == 3 {
      SlotFreed();
    } else if q == 4 || 8 <= q <= 10 {
      SlotKept(if q == 4 then 1 else q - 6);
    } else {
      SlotEmpty(q);
    }
  }

  lemma SlotFreed()
    ensures RetainedSlot(Slots(5), Keeper(Nodes(5) - {0}, 0), 3) == Free
  {
    hide Slots;
    SlotsAre(5);
    assert Place(0) == 3 && Slots(5)[3] == Full(3, 0) && Slots(5)[0] == Free;
  }

  lemma SlotKept(j: nat)
    requires 1 <= j < 5
    ensures RetainedSlot(Slots(5), Keeper(Nodes(5) - {0}, 0), Place(j)) == Gap()[Place(j)]
  {
    hide Slots, Hash, Keeper, Nodes, RetainedSlot;
    SlotsAre(5);
    assert Slots(5)[Place(j)] == Full(Hash(NodeOf(j)), j);
    KeeperKeeps(j);
    KeptNotFreed(Slots(5), Keeper(Nodes(5) - {0}, 0), Place(j));
  }

  lemma KeeperKeeps(j: nat)
    requires 1 <= j < 5
    ensures Keeper(Nodes(5) - {0}, 0)(j)
  {
    hide Nodes;
    var s := Nodes(5) - {0};
    assert j in s && s[j] == NodeOf(j);
  }

  lemma KeptNotFreed(d: Table, keep: NodeId -> bool, q: nat)
    requires q < |d| && Kept(d[q], keep)
    ensures RetainedSlot(d, keep, q) == d[q]
  {
  }

  lemma SlotEmpty(q: nat)
    requires q < 16 && q !in {3, 4, 8, 9, 10}
    ensures RetainedSlot(Slots(5), Keeper(Nodes(5) - {0}, 0), q) == Gap()[q]
  {
    hide Slots, Freed, Keeper, Nodes;
    SlotsAre(5);
    assert forall j: nat :: j < 5 ==> Place(j) in {3, 4, 8, 9, 10};
    assert Slots(5)[q] == Free;
  }

  lemma GapHides()
    ensures Misses(Gap(), Nodes(5) - {0}, NodeOf(1))
  {
    SlotsAre(5);
    var d := Gap();
    assert Place(1) == 4 && d[4] == Full(19, 1);
    assert !Visible(d, 4) by {
      assert Probe(3, 0, 16) == 3 && Distance(3, 4, 16) == 1;
    }
    forall q: nat | HoldsAt(d, q, 1)
      ensures q == 4
    {
    }
  }

  lemma DropFirst()
    ensures RunReaches(CONFIG, Built(5).(rc := Twos(5)[0 := 1], held := [Held(5) - multiset{Inner(0)}]))
  {
    hide RunReaches, Slots, Inv, Ordered, Nodes, Twos, Held;
    Build(5);
    var s := Built(5);
    ReachedInv(CONFIG, s);
    InvOrdered(CONFIG, s);
    assert Inner(0) in Held(5) && 0 in Twos(5) && Twos(5)[0] == 2;
    var s' := s.(rc := Twos(5)[0 := 1], held := [Held(5) - multiset{Inner(0)}]);
    assert Mutate(CONFIG, s, Drop(0, Inner(0)), s');
    Advance(CONFIG, s, Drop(0, Inner(0)), s');
  }

  /** A step of the collector. */
  lemma CollectStep(s: State, a: Step, s': State)
    requires RunReaches(CONFIG, s) && Collect(s, a, s')
    ensures RunReaches(CONFIG, s')
  {
    hide RunReaches, Inv, Collect;
    ReachedInv(CONFIG, s);
    InvOrdered(CONFIG, s);
    Advance(CONFIG, s, a, s');
  }

  lemma CollectFirst()
    ensures RunReaches(CONFIG, Left(Sweeping(0), Slots(5)))
  {
    hide RunReaches, Slots, SweptTo, Held, Nodes, Twos;
    DropFirst();
    assert 0 in Nodes(5) && Nodes(5)[0] == NodeOf(0);
    var s0 := Built(5).(rc := Twos(5)[0 := 1], held := [Held(5) - multiset{Inner(0)}]);
    CollectStep(s0, GcStart, s0.(phase := Locking(0)));
    CollectStep(s0.(phase := Locking(0)), GcLock, s0.(phase := Sweeping(0)));
    CollectStep(s0.(phase := Sweeping(0)), GcCheck(0), s0.(phase := Condemned(0, 0)));
    FreeFirst(s0.(phase := Condemned(0, 0)));
    CollectStep(s0.(phase := Condemned(0, 0)), GcFree, Left(Sweeping(0), Slots(5)));
  }

  lemma FreeFirst(s: State)
    requires s == Built(5).(rc := Twos(5)[0 := 1], held := [Held(5) - multiset{Inner(0)}], phase := Condemned(0, 0))
    ensures Collect(s, GcFree, Left(Sweeping(0), Slots(5)))
  {
    hide Slots, Held, Nodes, Twos;
    assert 0 in Nodes(5) && Nodes(5)[0] == NodeOf(0);
    assert s.rc - {0} == Twos(5) - {0};
  }

  lemma FinishCollection()
    ensures RunReaches(CONFIG, Left(Idle, Gap()))
  {
    hide RunReaches, Slots, SweptTo, Held, Nodes, Twos;
    CollectFirst();
    GapIsSwept();
    CollectStep(Left(Sweeping(0), Slots(5)), GcNextLevel(Gap()), Left(Sweeping(1), Gap()));
    CollectStep(Left(Sweeping(1), Gap()), GcNextLevel([]), Left(Unlocking(0), Gap()));
    CollectStep(Left(Unlocking(0), Gap()), GcUnlock, Left(Idle, Gap()));
  }

  /** Some run duplicates a node: two different edges denote the same function. */
  lemma DuplicateReached() returns (s: State)
    ensures RunReaches(CONFIG, s) && 0 in s.nodes && 1 in s.nodes && s.nodes[0] == s.nodes[1]
    ensures !StronglyCanonical(s.nodes)
  {
    hide RunReaches, Slots, Held, Twos, Inv, Misses, FreeCount, Next, Duplicates, Unique, StronglyCanonical;
    FinishCollection();
    var s0 := Left(Idle, Gap());
    var s1 := Fetch(s0, Then(1), ELSE);
    Exchange(s0.held[0], Then(1), ELSE, Inner(0));
    ReachedInv(CONFIG, s1);
    GapIsSwept();
    GapHides();
    var p;
    p, s := MissDuplicates(CONFIG, s1, 1, 0, 0);
    Advance(CONFIG, s1, Insert(0, NodeOf(1), 0, Gap(), p), s);
    ReachedInv(CONFIG, s);
    UniqueIsCanonical(CONFIG, s);
  }
}
