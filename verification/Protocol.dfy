/** Mutator threads, the apply cache of uncounted edges and a concurrent collector,
    as a state machine with one step per critical section or atomic access. */
module Protocol {
  import opened Numbers
  import opened Diagrams
  import opened RefCounts
  import opened Operators
  import opened Probing
  import opened LevelTables

  type ThreadId = nat

  /** A cache entry and its lock bit. */
  datatype Cell = Cell(locked: bool, entry: Entry)

  /** What the collector is doing. While it sweeps a level it holds that level's lock. */
  datatype Phase =
    | Idle
    | Locking(next: nat)
    | Sweeping(level: Level)
    | Condemned(level: Level, id: NodeId)  // has read a count of 1, has not freed the slot yet
    | Unlocking(next: nat)

  datatype State = State(
    nodes: Store,
    rc: Counts,
    levels: nat,
    tables: seq<Table>,  // the unique table of each level
    cells: seq<Cell>,
    held: seq<multiset<Edge>>,  // the edges each thread owns
    phase: Phase)

  /** The number of slots, and the hash of a node, as a table stores it. */
  datatype Config = Config(cap: nat, hash: Node -> nat)

  datatype Step =
    | Clone(t: ThreadId, x: Edge)
    | Drop(t: ThreadId, x: Edge)
    | Give(t: ThreadId, u: ThreadId, x: Edge)
    | Reduce(t: ThreadId, n: Node)
    | Share(t: ThreadId, n: Node, id: NodeId, d: Table)
    | Insert(t: ThreadId, n: Node, id: NodeId, d: Table, p: nat)
    | Fail(t: ThreadId, n: Node, d: Table)
    | AddLevel(t: ThreadId, n: Node, id: NodeId, d: Table)
    | Hit(t: ThreadId, i: nat)
    | Put(t: ThreadId, i: nat, entry: Entry)
    | GcStart
    | GcLock
    | GcCheck(id: NodeId)
    | GcFree
    | GcNextLevel(d: Table)
    | GcUnlock

  ghost function Total(held: seq<multiset<Edge>>): multiset<Edge> {
    if held == [] then multiset{} else held[0] + Total(held[1..])
  }

  predicate LevelLocked(s: State, l: Level) {
    (s.phase.Sweeping? || s.phase.Condemned?) && s.phase.level == l
  }

  function WithHeld(s: State, t: ThreadId, h: multiset<Edge>): State
    requires t < |s.held|
  {
    s.(held := s.held[t := h])
  }

  predicate OwnsBoth(s: State, t: ThreadId, n: Node) {
    t < |s.held| && multiset{n.t, n.e} <= s.held[t]
  }

  predicate CanDropBoth(rc: Counts, n: Node) {
    Releasable(rc, n.t) && Releasable(Release(rc, n.t), n.e)
  }

  /** Find a place for `n` in the table of its level, which must not be locked. `d` is that
      table, or a rebuilt one. */
  ghost predicate Opens(s: State, n: Node, d: Table) {
    n.level < |s.tables| && !LevelLocked(s, n.level) && Prepared(s.tables[n.level], d)
  }

  /** The steps of a mutator thread. */
  ghost predicate Mutate(c: Config, s: State, a: Step, s': State)
    requires Ordered(s.nodes)
  {
    match a
    // clone an edge that is owned, or borrowed from below an owned one
    case Clone(t, x) =>
      && t < |s.held| && ReachableEdge(s.nodes, s.held[t], x) && (x.Inner? ==> x.id in s.rc)
      && s' == WithHeld(s, t, s.held[t] + multiset{x}).(rc := Retain(s.rc, x))
    case Drop(t, x) =>
      && t < |s.held| && x in s.held[t] && Releasable(s.rc, x)
      && s' == WithHeld(s, t, s.held[t] - multiset{x}).(rc := Release(s.rc, x))
    // hand an edge over to another thread
    case Give(t, u, x) =>
      && t < |s.held| && u < |s.held| && x in s.held[t]
      && var s1 := WithHeld(s, t, s.held[t] - multiset{x});
         s' == WithHeld(s1, u, s1.held[u] + multiset{x})
    // equal children: the node is redundant, one edge is dropped
    case Reduce(t, n) =>
      && OwnsBoth(s, t, n) && n.t == n.e && Releasable(s.rc, n.e)
      && s' == WithHeld(s, t, s.held[t] - multiset{n.e}).(rc := Release(s.rc, n.e))
    // the unique table finds the node: the children are dropped, the node is cloned
    case Share(t, n, id, d) =>
      && OwnsBoth(s, t, n) && Opens(s, n, d) && id in s.nodes && s.nodes[id] == n && Exposes(d, id)
      && CanDropBoth(s.rc, n) && id in ReleaseBoth(s.rc, n.t, n.e)
      && s' == WithHeld(s, t, s.held[t] - multiset{n.t, n.e} + multiset{Inner(id)})
               .(rc := Retain(ReleaseBoth(s.rc, n.t, n.e), Inner(id)), tables := s.tables[n.level := d])
    // the unique table does not find the node: it is stored in a vacant slot
    case Insert(t, n, id, d, p) =>
      && OwnsBoth(s, t, n) && Opens(s, n, d) && Misses(d, s.nodes, n) && Insertable(d, c.hash(n), p)
      && n.t != n.e && NodeOrdered(s.nodes, n) && id !in s.nodes && id < c.cap
      && s' == WithHeld(s, t, TakeOver(s.held[t], n.t, n.e, id))
               .(nodes := s.nodes[id := n], rc := s.rc[id := 2],
                 tables := s.tables[n.level := d[p := Full(c.hash(n), id)]])
    // the node is not found either, but there is no slot for it: the children are dropped
    case Fail(t, n, d) =>
      && OwnsBoth(s, t, n) && CanDropBoth(s.rc, n) && Opens(s, n, d) && Misses(d, s.nodes, n)
      && s' == WithHeld(s, t, s.held[t] - multiset{n.t, n.e})
               .(rc := ReleaseBoth(s.rc, n.t, n.e), tables := s.tables[n.level := d])
    // needs the manager exclusively, hence no collection is running
    case AddLevel(t, n, id, d) =>
      && OwnsBoth(s, t, n) && s.phase == Idle && n.level == s.levels < TERMINAL_LEVEL
      && n.t != n.e && NodeOrdered(s.nodes, n) && id !in s.nodes && id < c.cap
      && Findable(d) && Bag(d) == multiset{Full(c.hash(n), id)}
      && s' == WithHeld(s, t, TakeOver(s.held[t], n.t, n.e, id))
               .(nodes := s.nodes[id := n], rc := s.rc[id := 2], levels := s.levels + 1, tables := s.tables + [d])
    // a cache hit clones the uncounted edge stored in the entry
    case Hit(t, i) =>
      && t < |s.held| && i < |s.cells| && !s.cells[i].locked && s.cells[i].entry.Filled?
      && var x := s.cells[i].entry.value;
      && (x.Inner? ==> x.id in s.rc)
      && s' == WithHeld(s, t, s.held[t] + multiset{x}).(rc := Retain(s.rc, x))
    // store edges in the cache without counting them; whether the entry is right is another matter
    case Put(t, i, entry) =>
      && t < |s.held| && i < |s.cells| && !s.cells[i].locked && entry.Filled?
      && ReachableEdge(s.nodes, s.held[t], entry.f) && ReachableEdge(s.nodes, s.held[t], entry.g)
      && ReachableEdge(s.nodes, s.held[t], entry.value)
      && s' == s.(cells := s.cells[i := Cell(false, entry)])
    case _ => false
  }

  /** The steps of the collector. */
  ghost predicate Collect(s: State, a: Step, s': State) {
    match a
    case GcStart => s.phase == Idle && s' == s.(phase := Locking(0))
    case GcLock =>
      && s.phase.Locking?
      && s' == if s.phase.next < |s.cells|
               then s.(cells := s.cells[s.phase.next := Cell(true, Empty)], phase := Locking(s.phase.next + 1))
               else s.(phase := Sweeping(0))
    case GcCheck(id) =>
      && s.phase.Sweeping? && id in s.nodes && s.nodes[id].level == s.phase.level
      && id in s.rc && s.rc[id] == 1
      && s' == s.(phase := Condemned(s.phase.level, id))
    case GcFree =>
      && s.phase.Condemned? && s.phase.id in s.nodes
      && var n := s.nodes[s.phase.id];
      && CanDropBoth(s.rc - {s.phase.id}, n)
      && s' == s.(nodes := s.nodes - {s.phase.id},
                  rc := ReleaseBoth(s.rc - {s.phase.id}, n.t, n.e),
                  phase := Sweeping(s.phase.level))
    // the sweep has removed the entries of the freed nodes from the table
    case GcNextLevel(d) =>
      && s.phase.Sweeping?
      && var l := s.phase.level;
      if l < |s.tables| then
        SweptTo(s.tables[l], s.nodes, l, d) && s' == s.(tables := s.tables[l := d], phase := Sweeping(l + 1))
      else s' == s.(phase := Unlocking(0))
    case GcUnlock =>
      && s.phase.Unlocking?
      && s' == if s.phase.next < |s.cells|
               then s.(cells := s.cells[s.phase.next := s.cells[s.phase.next].(locked := false)],
                       phase := Unlocking(s.phase.next + 1))
               else s.(phase := Idle)
    case _ => false
  }

  ghost predicate Next(c: Config, s: State, a: Step, s': State) {
    Ordered(s.nodes) && (Mutate(c, s, a, s') || Collect(s, a, s'))
  }

  /** A run of any number of threads and the collector, in any interleaving. */
  ghost predicate Run(c: Config, run: seq<State>, steps: seq<Step>) {
    && |run| == |steps| + 1 && Init(run[0])
    && forall i :: 0 <= i < |steps| ==> Next(c, run[i], steps[i], run[i + 1])
  }

  // --- The invariant ---------------------------------------------------------

  predicate Locked(s: State, i: nat)
    requires i < |s.cells|
  {
    s.cells[i].locked
  }

  /** The collector owns the locks its phase says, and a condemned node stays unreferenced. */
  predicate PhaseInv(s: State) {
    match s.phase
    case Idle => forall i :: 0 <= i < |s.cells| ==> !Locked(s, i)
    case Locking(k) => k <= |s.cells| && forall i :: 0 <= i < |s.cells| ==> (Locked(s, i) <==> i < k)
    case Sweeping(_) => forall i :: 0 <= i < |s.cells| ==> Locked(s, i)
    case Condemned(l, id) =>
      && (forall i :: 0 <= i < |s.cells| ==> Locked(s, i))
      && id in s.nodes && s.nodes[id].level == l && id in s.rc && s.rc[id] == 1
    case Unlocking(k) => k <= |s.cells| && forall i :: 0 <= i < |s.cells| ==> (Locked(s, i) <==> i >= k)
  }

  /** Locked entries are empty, and the edges of all entries are stored. */
  ghost predicate CellsInv(s: State) {
    && (forall i :: 0 <= i < |s.cells| && Locked(s, i) ==> s.cells[i].entry == Empty)
    && (forall i :: 0 <= i < |s.cells| ==> Live(s.nodes, s.cells[i].entry))
  }

  ghost predicate LevelsInv(s: State) {
    && s.levels <= TERMINAL_LEVEL && |s.tables| == s.levels
    && forall i :: i in s.nodes ==> s.nodes[i].level < s.levels
  }

  /** The table of level `l` holds the nodes of that level. While the level is being swept
      it also holds entries of nodes that have been freed already. */
  ghost predicate TableInv(c: Config, s: State, l: Level)
    requires l < |s.tables|
  {
    if LevelLocked(s, l) then Covers(s.tables[l], s.nodes, c.hash, l) else Lists(s.tables[l], s.nodes, c.hash, l)
  }

  ghost predicate TablesInv(c: Config, s: State) {
    forall l :: 0 <= l < |s.tables| ==> TableInv(c, s, l)
  }

  /** What every step keeps. Whether nodes are unique and cache entries right is separate. */
  ghost predicate Inv(c: Config, s: State) {
    && Regular(s.nodes)
    && LevelsInv(s)
    && Counted(s.nodes, s.rc, Total(s.held), c.cap)
    && CellsInv(s)
    && PhaseInv(s)
    && TablesInv(c, s)
  }

  ghost predicate Init(s: State) {
    && s.nodes == map[] && s.rc == map[] && s.levels == 0 && s.tables == [] && s.phase == Idle
    && (forall i :: 0 <= i < |s.cells| ==> s.cells[i] == Cell(false, Empty))
    && (forall t :: 0 <= t < |s.held| ==> s.held[t] == multiset{})
  }

  // --- Edges held by all threads ---------------------------------------------

  lemma {:induction false} TotalUpdate(held: seq<multiset<Edge>>, t: ThreadId, h: multiset<Edge>, y: Edge)
    requires t < |held|
    ensures Total(held[t := h])[y] + held[t][y] == Total(held)[y] + h[y]
  {
    if t == 0 {
      assert held[t := h][1..] == held[1..];
    } else {
      assert held[t := h][1..] == held[1..][t - 1 := h];
      TotalUpdate(held[1..], t - 1, h, y);
    }
  }

  lemma {:induction false} HeldInTotal(held: seq<multiset<Edge>>, t: ThreadId)
    requires t < |held|
    ensures held[t] <= Total(held)
  {
    if t > 0 {
      HeldInTotal(held[1..], t - 1);
    }
  }

  /** Exchanging the edges `m` of one thread for the edges `k`. */
  lemma TotalSwap(held: seq<multiset<Edge>>, t: ThreadId, m: multiset<Edge>, k: multiset<Edge>)
    requires t < |held| && m <= held[t]
    ensures Total(held[t := held[t] - m + k]) == Total(held) - m + k
  {
    HeldInTotal(held, t);
    forall y: Edge
      ensures Total(held[t := held[t] - m + k])[y] == (Total(held) - m + k)[y]
    {
      TotalUpdate(held, t, held[t] - m + k, y);
      assert m[y] <= held[t][y] <= Total(held)[y];
    }
  }

  lemma TotalGain(held: seq<multiset<Edge>>, t: ThreadId, x: Edge)
    requires t < |held|
    ensures Total(held[t := held[t] + multiset{x}]) == Total(held) + multiset{x}
  {
    TotalSwap(held, t, multiset{}, multiset{x});
    assert held[t] - multiset{} == held[t] && Total(held) - multiset{} == Total(held);
  }

  lemma TotalLoss(held: seq<multiset<Edge>>, t: ThreadId, m: multiset<Edge>)
    requires t < |held| && m <= held[t]
    ensures Total(held[t := held[t] - m]) == Total(held) - m
  {
    TotalSwap(held, t, m, multiset{});
    assert held[t] - m + multiset{} == held[t] - m && Total(held) - m + multiset{} == Total(held) - m;
  }

  lemma {:induction false} TotalEmpty(held: seq<multiset<Edge>>)
    requires forall t :: 0 <= t < |held| ==> held[t] == multiset{}
    ensures Total(held) == multiset{}
  {
    if held != [] {
      TotalEmpty(held[1..]);
    }
  }

  lemma {:induction false} ReachableMono(s: Store, h: multiset<Edge>, k: multiset<Edge>, id: NodeId)
    requires Ordered(s) && id in s && h <= k && Reachable(s, h, id)
    ensures Reachable(s, k, id)
    decreases s[id].level
  {
    if Inner(id) !in h {
      var p :| p in s && s[p].level < s[id].level && HasChild(s[p], id) && Reachable(s, h, p);
      ReachableMono(s, h, k, p);
    }
  }

  // --- Every step keeps the invariant ----------------------------------------

  function AfterClone(s: State, t: ThreadId, x: Edge): State
    requires t < |s.held| && (x.Inner? ==> x.id in s.rc)
  {
    WithHeld(s, t, s.held[t] + multiset{x}).(rc := Retain(s.rc, x))
  }

  function AfterDrop(s: State, t: ThreadId, x: Edge): State
    requires t < |s.held| && Releasable(s.rc, x)
  {
    WithHeld(s, t, s.held[t] - multiset{x}).(rc := Release(s.rc, x))
  }

  /** A step that leaves the cells and the phase alone keeps their invariants,
      provided the condemned node keeps its count. */
  lemma QuietKeepsCells(c: Config, s: State, s': State)
    requires Inv(c, s) && Extends(s.nodes, s'.nodes)
    requires s'.cells == s.cells && s'.phase == s.phase
    requires s.phase.Condemned? ==> s.phase.id in s'.rc && s'.rc[s.phase.id] == s.rc[s.phase.id]
    ensures CellsInv(s') && PhaseInv(s')
  {
    hide Regular, Counted, TablesInv;
    forall i | 0 <= i < |s.cells|
      ensures Live(s'.nodes, s.cells[i].entry) && Locked(s', i) == Locked(s, i)
    {
      assert Live(s.nodes, s.cells[i].entry);
    }
  }

  lemma QuietKeepsTables(c: Config, s: State, s': State)
    requires TablesInv(c, s) && s'.nodes == s.nodes && s'.tables == s.tables && s'.phase == s.phase
    ensures TablesInv(c, s')
  {
    forall l | 0 <= l < |s'.tables|
      ensures TableInv(c, s', l)
    {
      assert TableInv(c, s, l);
    }
  }

  lemma CloneKeepsInv(c: Config, s: State, t: ThreadId, x: Edge)
    requires Inv(c, s) && t < |s.held| && Valid(s.nodes, x)
    requires s.phase.Condemned? ==> x != Inner(s.phase.id)
    ensures (x.Inner? ==> x.id in s.rc) && Inv(c, AfterClone(s, t, x))
  {
    hide Regular, Counted, CellsInv, TablesInv;
    RetainKeepsCounted(s.nodes, s.rc, Total(s.held), c.cap, x);
    TotalGain(s.held, t, x);
    QuietKeepsCells(c, s, AfterClone(s, t, x));
    QuietKeepsTables(c, s, AfterClone(s, t, x));
  }

  lemma DropKeepsInv(c: Config, s: State, t: ThreadId, x: Edge)
    requires Inv(c, s) && t < |s.held| && x in s.held[t]
    ensures Releasable(s.rc, x) && Inv(c, AfterDrop(s, t, x))
  {
    hide Regular, Counted, CellsInv, TablesInv;
    HeldInTotal(s.held, t);
    ReleaseKeepsCounted(s.nodes, s.rc, Total(s.held), c.cap, x);
    TotalLoss(s.held, t, multiset{x});
    QuietKeepsCells(c, s, AfterDrop(s, t, x));
    QuietKeepsTables(c, s, AfterDrop(s, t, x));
  }

  lemma GiveKeepsInv(c: Config, s: State, t: ThreadId, u: ThreadId, x: Edge, s': State)
    requires Inv(c, s) && Mutate(c, s, Give(t, u, x), s')
    ensures Inv(c, s')
  {
    hide Regular, Counted, CellsInv, TablesInv, PhaseInv;
    var s1 := WithHeld(s, t, s.held[t] - multiset{x});
    HeldInTotal(s.held, t);
    TotalLoss(s.held, t, multiset{x});
    TotalGain(s1.held, u, x);
    GiveBack(Total(s.held), x);
    PhaseFrame(s, s');
    CellsFrame(s, s');
    QuietKeepsTables(c, s, s');
  }

  lemma GiveBack(h: multiset<Edge>, x: Edge)
    requires x in h
    ensures h - multiset{x} + multiset{x} == h
  {
  }

  lemma PhaseFrame(s: State, s': State)
    requires PhaseInv(s) && s'.cells == s.cells && s'.phase == s.phase && s'.nodes == s.nodes && s'.rc == s.rc
    ensures PhaseInv(s')
  {
    assert forall i :: 0 <= i < |s.cells| ==> Locked(s', i) == Locked(s, i);
  }

  lemma CellsFrame(s: State, s': State)
    requires CellsInv(s) && s'.cells == s.cells && s'.nodes == s.nodes
    ensures CellsInv(s')
  {
    assert forall i :: 0 <= i < |s.cells| ==> Locked(s', i) == Locked(s, i);
  }

  lemma DropBothKeepsInv(c: Config, s: State, t: ThreadId, n: Node)
    requires Inv(c, s) && OwnsBoth(s, t, n)
    ensures CanDropBoth(s.rc, n)
    ensures Inv(c, WithHeld(s, t, s.held[t] - multiset{n.t, n.e}).(rc := ReleaseBoth(s.rc, n.t, n.e)))
  {
    hide Inv;
    assert n.t in multiset{n.t, n.e} && n.e in multiset{n.t, n.e} - multiset{n.t};
    DropKeepsInv(c, s, t, n.t);
    var s1 := AfterDrop(s, t, n.t);
    DropKeepsInv(c, s1, t, n.e);
    var s2 := AfterDrop(s1, t, n.e);
    assert s.held[t] - multiset{n.t} - multiset{n.e} == s.held[t] - multiset{n.t, n.e};
    assert s2 == WithHeld(s, t, s.held[t] - multiset{n.t, n.e}).(rc := ReleaseBoth(s.rc, n.t, n.e));
  }

  /** Rebuilding the table of an unlocked level. */
  lemma OpenKeepsInv(c: Config, s: State, n: Node, d: Table)
    requires Inv(c, s) && Opens(s, n, d)
    ensures Inv(c, s.(tables := s.tables[n.level := d]))
    ensures Findable(s.tables[n.level]) ==> Findable(d)
  {
    hide Regular, Counted, CellsInv, PhaseInv, Findable, Lists, Covers, Prepared;
    var s' := s.(tables := s.tables[n.level := d]);
    assert TableInv(c, s, n.level);
    PreparedLists(s.tables[n.level], d, s.nodes, c.hash, n.level);
    forall l | 0 <= l < |s'.tables|
      ensures TableInv(c, s', l)
    {
      assert TableInv(c, s, l);
    }
    PhaseFrame(s, s');
    CellsFrame(s, s');
  }

  /** A node that can be reached from a thread's edges is not the condemned one. */
  lemma ReachableNotCondemned(c: Config, s: State, t: ThreadId, x: Edge)
    requires Inv(c, s) && t < |s.held| && ReachableEdge(s.nodes, s.held[t], x) && s.phase.Condemned?
    ensures x != Inner(s.phase.id)
  {
    hide TablesInv, CellsInv, LevelsInv;
    if x == Inner(s.phase.id) {
      HeldInTotal(s.held, t);
      ReachableMono(s.nodes, s.held[t], Total(s.held), x.id);
      ReachableCounted(s.nodes, s.rc, Total(s.held), c.cap, x.id);
    }
  }

  /** Storing a node: everything but the tables. */
  lemma InsertKeepsRest(c: Config, s: State, t: ThreadId, n: Node, id: NodeId, s': State)
    requires Inv(c, s) && OwnsBoth(s, t, n) && n.t != n.e && NodeOrdered(s.nodes, n) && id !in s.nodes && id < c.cap
    requires s'.nodes == s.nodes[id := n] && s'.rc == s.rc[id := 2] && s'.cells == s.cells && s'.phase == s.phase
    requires s'.held == s.held[t := TakeOver(s.held[t], n.t, n.e, id)]
    ensures Regular(s'.nodes) && Counted(s'.nodes, s'.rc, Total(s'.held), c.cap) && CellsInv(s') && PhaseInv(s')
    ensures Unique(s'.nodes) <==> Unique(s.nodes) && forall i :: i in s.nodes ==> s.nodes[i] != n
  {
    hide Ordered, Reduced, Unique, Counted, CellsInv, TablesInv;
    InsertKeepsRegular(s.nodes, id, n);
    HeldInTotal(s.held, t);
    InsertKeepsCounted(s.nodes, s.rc, Total(s.held), c.cap, id, n);
    TotalSwap(s.held, t, multiset{n.t, n.e}, multiset{Inner(id)});
    CondemnedCounted(c, s);
    QuietKeepsCells(c, s, s');
  }

  lemma CondemnedCounted(c: Config, s: State)
    requires Inv(c, s)
    ensures s.phase.Condemned? ==> s.phase.id in s.nodes && s.phase.id in s.rc
  {
  }

  /** The tables of the other levels when a node is stored. */
  lemma OtherTables(c: Config, s: State, s': State, id: NodeId, n: Node, l: Level)
    requires l < |s.tables| && TableInv(c, s, l) && id !in s.nodes && n.level != l && s'.phase == s.phase
    requires s'.nodes == s.nodes[id := n] && l < |s'.tables| && s'.tables[l] == s.tables[l]
    ensures TableInv(c, s', l)
  {
    hide Lists, Covers;
    OtherLevelInsert(s.tables[l], s.nodes, c.hash, l, id, n);
  }

  lemma InsertKeepsInv(c: Config, s: State, a: Step, s': State)
    requires Inv(c, s) && a.Insert? && Mutate(c, s, a, s')
    ensures Inv(c, s')
    ensures Unique(s'.nodes) <==> Unique(s.nodes) && forall i :: i in s.nodes ==> s.nodes[i] != a.n
    ensures Findable(s.tables[a.n.level]) ==> Findable(s'.tables[a.n.level])
  {
    hide Regular, Unique, Counted, CellsInv, PhaseInv, Findable, Lists, Covers, Prepared, Misses, Insertable;
    var n, l := a.n, a.n.level;
    InsertKeepsRest(c, s, a.t, n, a.id, s');
    assert TableInv(c, s, l);
    PreparedLists(s.tables[l], a.d, s.nodes, c.hash, l);
    InsertLists(a.d, s.nodes, c.hash, l, a.id, n, a.p);
    forall k | 0 <= k < |s'.tables|
      ensures TableInv(c, s', k)
    {
      assert TableInv(c, s, k);
      if k != l {
        OtherTables(c, s, s', a.id, n, k);
      }
    }
  }

  lemma AddLevelTables(c: Config, s: State, s': State, n: Node, id: NodeId, d: Table)
    requires TablesInv(c, s) && LevelsInv(s) && s.phase == Idle == s'.phase && id !in s.nodes && n.level == s.levels
    requires Bag(d) == multiset{Full(c.hash(n), id)} && s'.nodes == s.nodes[id := n] && s'.tables == s.tables + [d]
    ensures TablesInv(c, s')
  {
    hide Lists, Covers, Bag;
    NewLists(d, s.nodes, c.hash, s.levels, id, n);
    forall k | 0 <= k < |s'.tables|
      ensures TableInv(c, s', k)
    {
      if k < |s.tables| {
        assert TableInv(c, s, k);
        OtherTables(c, s, s', id, n, k);
      }
    }
  }

  lemma AddLevelKeepsInv(c: Config, s: State, a: Step, s': State)
    requires Inv(c, s) && a.AddLevel? && Mutate(c, s, a, s')
    ensures Inv(c, s') && (Unique(s'.nodes) <==> Unique(s.nodes))
  {
    hide Regular, Unique, Counted, CellsInv, PhaseInv, Findable, TablesInv, Bag;
    InsertKeepsRest(c, s, a.t, a.n, a.id, s');
    AddLevelTables(c, s, s', a.n, a.id, a.d);
    assert forall i :: i in s.nodes ==> s.nodes[i].level < a.n.level;
  }

  lemma PutKeepsInv(c: Config, s: State, i: nat, entry: Entry)
    requires Inv(c, s) && i < |s.cells| && !Locked(s, i) && Live(s.nodes, entry)
    ensures Inv(c, s.(cells := s.cells[i := Cell(false, entry)]))
  {
    hide Regular, Counted, TablesInv;
    var s' := s.(cells := s.cells[i := Cell(false, entry)]);
    assert forall j :: 0 <= j < |s.cells| ==> Locked(s', j) == Locked(s, j);
    QuietKeepsTables(c, s, s');
  }

  /** The level of the condemned node is locked, so the node is not found there. */
  lemma SharedNotCondemned(c: Config, s: State, n: Node, id: NodeId)
    requires Inv(c, s) && id in s.nodes && s.nodes[id] == n && !LevelLocked(s, n.level)
    ensures s.phase.Condemned? ==> id != s.phase.id
  {
    hide Regular, Counted, CellsInv, TablesInv;
  }

  lemma ShareKeepsInv(c: Config, s: State, a: Step, s': State)
    requires Inv(c, s) && a.Share? && Mutate(c, s, a, s')
    ensures Inv(c, s')
  {
    hide Inv, Ordered, Exposes, Prepared;
    var n := a.n;
    OpenKeepsInv(c, s, n, a.d);
    var s0 := s.(tables := s.tables[n.level := a.d]);
    DropBothKeepsInv(c, s0, a.t, n);
    var s1 := WithHeld(s0, a.t, s.held[a.t] - multiset{n.t, n.e}).(rc := ReleaseBoth(s.rc, n.t, n.e));
    SharedNotCondemned(c, s, n, a.id);
    CloneKeepsInv(c, s1, a.t, Inner(a.id));
    assert s' == AfterClone(s1, a.t, Inner(a.id));
  }

  lemma FailKeepsInv(c: Config, s: State, a: Step, s': State)
    requires Inv(c, s) && a.Fail? && Mutate(c, s, a, s')
    ensures Inv(c, s')
  {
    hide Inv, Ordered, Prepared;
    OpenKeepsInv(c, s, a.n, a.d);
    DropBothKeepsInv(c, s.(tables := s.tables[a.n.level := a.d]), a.t, a.n);
  }

  lemma MutateKeepsInv(c: Config, s: State, a: Step, s': State)
    requires Inv(c, s) && Mutate(c, s, a, s')
    ensures Inv(c, s')
  {
    hide Inv, Ordered, Reachable, Opens, Exposes, Misses, Insertable, Findable, Bag;
    match a
    case Clone(t, x) =>
      if s.phase.Condemned? {
        ReachableNotCondemned(c, s, t, x);
      }
      CloneKeepsInv(c, s, t, x);
    case Drop(t, x) => DropKeepsInv(c, s, t, x);
    case Give(t, u, x) => GiveKeepsInv(c, s, t, u, x, s');
    case Reduce(t, n) =>
      assert n.e in multiset{n.t, n.e};
      DropKeepsInv(c, s, t, n.e);
    case Share(_, _, _, _) => ShareKeepsInv(c, s, a, s');
    case Insert(_, _, _, _, _) => InsertKeepsInv(c, s, a, s');
    case Fail(_, _, _) => FailKeepsInv(c, s, a, s');
    case AddLevel(_, _, _, _) => AddLevelKeepsInv(c, s, a, s');
    case Hit(t, i) =>
      HitLive(c, s, i);
      CloneKeepsInv(c, s, t, s.cells[i].entry.value);
    case Put(t, i, entry) => PutKeepsInv(c, s, i, entry);
  }

  /** The edges of an entry that can be hit are stored, and nothing is being swept. */
  lemma HitLive(c: Config, s: State, i: nat)
    requires Inv(c, s) && i < |s.cells| && !Locked(s, i) && s.cells[i].entry.Filled?
    ensures Live(s.nodes, s.cells[i].entry) && !s.phase.Sweeping? && !s.phase.Condemned?
  {
    hide Regular, Counted, TablesInv;
  }

  /** A slot is freed only when no thread, no stored parent and no cache entry names it. */
  lemma FreedUnreferenced(c: Config, s: State)
    requires Inv(c, s) && s.phase.Condemned?
    ensures s.phase.id in s.nodes
    ensures forall t :: 0 <= t < |s.held| ==> Inner(s.phase.id) !in s.held[t]
    ensures forall p :: p in s.nodes ==> !HasChild(s.nodes[p], s.phase.id)
    ensures forall i :: 0 <= i < |s.cells| ==> s.cells[i].entry == Empty
  {
    hide Regular, TablesInv, LevelsInv;
    CountOneUnreferenced(s.nodes, s.rc, Total(s.held), c.cap, s.phase.id);
    forall t | 0 <= t < |s.held|
      ensures Inner(s.phase.id) !in s.held[t]
    {
      HeldInTotal(s.held, t);
    }
    assert forall i :: 0 <= i < |s.cells| ==> Locked(s, i);
  }

  lemma FreeKeepsInv(c: Config, s: State, s': State)
    requires Inv(c, s) && Collect(s, GcFree, s')
    ensures Inv(c, s') && (Unique(s.nodes) ==> Unique(s'.nodes))
  {
    hide Ordered, Reduced, Unique, Counted, Lists, Covers;
    FreedUnreferenced(c, s);
    var id := s.phase.id;
    RemoveKeepsRegular(s.nodes, id);
    RemoveKeepsCounted(s.nodes, s.rc, Total(s.held), c.cap, id);
    assert forall i :: 0 <= i < |s.cells| ==> Locked(s', i) == Locked(s, i);
    forall l | 0 <= l < |s'.tables|
      ensures TableInv(c, s', l)
    {
      assert TableInv(c, s, l);
      OtherLevelRemove(s.tables[l], s.nodes, c.hash, l, id);
    }
  }

  lemma PhaseMoves(s: State, a: Step, s': State)
    requires PhaseInv(s) && Collect(s, a, s') && a != GcFree
    ensures PhaseInv(s')
  {
    hide SweptTo;
    forall i | 0 <= i < |s.cells|
      ensures Locked(s', i) == (if a == GcLock && i == s.phase.next then true
                                else if a == GcUnlock && i == s.phase.next then false
                                else Locked(s, i))
    {
    }
  }

  lemma CellsMove(s: State, a: Step, s': State)
    requires CellsInv(s) && Collect(s, a, s') && a != GcFree
    ensures CellsInv(s')
  {
    hide SweptTo;
    forall i | 0 <= i < |s.cells|
      ensures Live(s.nodes, s'.cells[i].entry)
      ensures Locked(s', i) ==> s'.cells[i].entry == Empty
    {
      assert Live(s.nodes, s.cells[i].entry);
      assert Locked(s, i) ==> s.cells[i].entry == Empty;
    }
  }

  lemma TablesMove(c: Config, s: State, a: Step, s': State)
    requires TablesInv(c, s) && Collect(s, a, s') && a != GcFree
    ensures TablesInv(c, s')
  {
    hide SweptTo, Covers;
    forall l | 0 <= l < |s'.tables|
      ensures TableInv(c, s', l)
    {
      assert TableInv(c, s, l);
      if a.GcNextLevel? && l == s.phase.level {
        SweepLists(s.tables[l], s.nodes, c.hash, l, a.d);
      }
    }
  }

  lemma CollectKeepsInv(c: Config, s: State, a: Step, s': State)
    requires Inv(c, s) && Collect(s, a, s')
    ensures Inv(c, s') && (Unique(s.nodes) ==> Unique(s'.nodes))
  {
    hide SweptTo;
    if a == GcFree {
      FreeKeepsInv(c, s, s');
    } else {
      hide Regular, Counted, CellsInv, PhaseInv, TablesInv;
      CellsMove(s, a, s');
      PhaseMoves(s, a, s');
      TablesMove(c, s, a, s');
    }
  }

  /** The conditions on counts in the steps never block a thread: whatever is owned can
      be dropped, whatever is stored or cached can be cloned, and a freed node's children
      can be released. No count underflows. */
  lemma GuardsHold(c: Config, s: State, t: ThreadId)
    requires Inv(c, s) && t < |s.held|
    ensures forall x :: x in s.held[t] ==> Releasable(s.rc, x)
    ensures forall n :: OwnsBoth(s, t, n) ==>
              CanDropBoth(s.rc, n) && ReleaseBoth(s.rc, n.t, n.e).Keys == s.nodes.Keys == s.rc.Keys
    ensures forall i :: 0 <= i < |s.cells| ==> Live(s.nodes, s.cells[i].entry)
    ensures s.phase.Condemned? ==>
              s.phase.id in s.nodes && CanDropBoth(s.rc - {s.phase.id}, s.nodes[s.phase.id])
  {
    hide Regular, PhaseInv, TablesInv;
    forall x | x in s.held[t]
      ensures Releasable(s.rc, x)
    {
      DropKeepsInv(c, s, t, x);
    }
    forall n | OwnsBoth(s, t, n)
      ensures CanDropBoth(s.rc, n) && ReleaseBoth(s.rc, n.t, n.e).Keys == s.nodes.Keys
    {
      DropBothKeepsInv(c, s, t, n);
    }
    if s.phase.Condemned? {
      CondemnedCount(c, s);
      RemoveKeepsCounted(s.nodes, s.rc, Total(s.held), c.cap, s.phase.id);
    }
  }

  lemma CondemnedCount(c: Config, s: State)
    requires Inv(c, s) && s.phase.Condemned?
    ensures s.phase.id in s.nodes && s.phase.id in s.rc && s.rc[s.phase.id] == 1 && Ordered(s.nodes)
  {
  }

  lemma InitInv(c: Config, s: State)
    requires Init(s)
    ensures Inv(c, s)
  {
    TotalEmpty(s.held);
  }

  // --- Whole runs ------------------------------------------------------------

  lemma {:induction false} RunInv(c: Config, run: seq<State>, steps: seq<Step>, i: nat)
    requires Run(c, run, steps) && i < |run|
    ensures Inv(c, run[i])
  {
    hide Init, Inv, Mutate, Collect, Ordered;
    if i == 0 {
      InitInv(c, run[0]);
    } else {
      RunInv(c, run, steps, i - 1);
      assert Next(c, run[i - 1], steps[i - 1], run[i]);
      if Collect(run[i - 1], steps[i - 1], run[i]) {
        CollectKeepsInv(c, run[i - 1], steps[i - 1], run[i]);
      } else {
        MutateKeepsInv(c, run[i - 1], steps[i - 1], run[i]);
      }
    }
  }

  /** In every run, whenever the collector frees a slot nothing names it any more. */
  lemma RunFreesUnreferenced(c: Config, run: seq<State>, steps: seq<Step>, i: nat)
    requires Run(c, run, steps) && i < |steps| && steps[i] == GcFree
    ensures var s := run[i];
            && s.phase.Condemned? && run[i + 1].nodes == s.nodes - {s.phase.id}
            && (forall t :: 0 <= t < |s.held| ==> Inner(s.phase.id) !in s.held[t])
            && (forall p :: p in s.nodes ==> !HasChild(s.nodes[p], s.phase.id))
            && (forall k :: 0 <= k < |s.cells| ==> s.cells[k].entry == Empty)
  {
    hide Inv, Init;
    RunInv(c, run, steps, i);
    assert Next(c, run[i], steps[i], run[i + 1]);
    FreedUnreferenced(c, run[i]);
  }

  /** In every run, a cache hit yields a stored edge, although cached edges are uncounted. */
  lemma RunHitsLive(c: Config, run: seq<State>, steps: seq<Step>, i: nat)
    requires Run(c, run, steps) && i < |steps| && steps[i].Hit?
    ensures var s, k := run[i], steps[i].i;
            && k < |s.cells| && s.cells[k].entry.Filled? && Live(s.nodes, s.cells[k].entry)
            && steps[i].t < |run[i + 1].held| && s.cells[k].entry.value in run[i + 1].held[steps[i].t]
  {
    hide Inv, Init;
    RunInv(c, run, steps, i);
    assert Next(c, run[i], steps[i], run[i + 1]);
    HitLive(c, run[i], steps[i].i);
  }

  /** In every run, each stored node's count is exact. */
  lemma RunCounts(c: Config, run: seq<State>, steps: seq<Step>, i: nat, id: NodeId)
    requires Run(c, run, steps) && i < |run| && id in run[i].nodes
    ensures id in run[i].rc
    ensures run[i].rc[id] == 1 + Total(run[i].held)[Inner(id)] + ParentEdges(run[i].nodes, Inner(id), c.cap)
  {
    hide Run, Regular, CellsInv, PhaseInv, TablesInv;
    RunInv(c, run, steps, i);
  }

  /** A step keeps all nodes, or is the collector freeing the condemned one. */
  lemma StepNodes(c: Config, s: State, a: Step, s': State)
    requires Next(c, s, a, s') && (a.Insert? || a.AddLevel? ==> a.id !in s.nodes)
    ensures Extends(s.nodes, s'.nodes)
            || (s.phase.Condemned? && s'.nodes == s.nodes - {s.phase.id})
  {
    hide Ordered, Opens, Exposes, Misses, Insertable, SweptTo, Findable, Bag;
  }

  /** What some thread can reach survives a step with its meaning, whoever steps. */
  lemma StepKeepsMeaning(c: Config, s: State, a: Step, s': State, x: Edge, v: Valuation)
    requires Inv(c, s) && Next(c, s, a, s') && Inv(c, s')
    requires ReachableEdge(s.nodes, Total(s.held), x)
    ensures Valid(s'.nodes, x) && Eval(s'.nodes, x, v) == Eval(s.nodes, x, v)
  {
    hide Next, Ordered, Reduced, CellsInv, LevelsInv, Counted, Reachable, Total, TablesInv;
    FreshId(c, s, a, s');
    StepNodes(c, s, a, s');
    if Extends(s.nodes, s'.nodes) {
      EvalFrame(s.nodes, s'.nodes, x, v);
    } else {
      if x.Inner? {
        ReachableCounted(s.nodes, s.rc, Total(s.held), c.cap, x.id);
      }
      EvalFrame(s'.nodes, s.nodes, x, v);
    }
  }

  lemma FreshId(c: Config, s: State, a: Step, s': State)
    requires Next(c, s, a, s')
    ensures a.Insert? || a.AddLevel? ==> a.id !in s.nodes
  {
    hide Ordered, Opens, Exposes, Misses, Insertable, SweptTo, Findable, Bag;
  }

  lemma HeldReachable(c: Config, s: State, x: Edge)
    requires Inv(c, s) && x in Total(s.held)
    ensures Ordered(s.nodes) && Valid(s.nodes, x) && ReachableEdge(s.nodes, Total(s.held), x)
  {
    hide TablesInv, CellsInv, PhaseInv;
  }

  /** An edge denotes the same function for as long as some thread keeps it. */
  lemma {:induction false} RunKeepsMeaning(c: Config, run: seq<State>, steps: seq<Step>, i: nat, j: nat,
                                           x: Edge, v: Valuation)
    requires Run(c, run, steps) && i <= j < |run|
    requires forall k :: i <= k <= j ==> x in Total(run[k].held)
    ensures Ordered(run[i].nodes) && Ordered(run[j].nodes) && Valid(run[i].nodes, x) && Valid(run[j].nodes, x)
    ensures Eval(run[j].nodes, x, v) == Eval(run[i].nodes, x, v)
    decreases j - i
  {
    hide Init, Inv, Next, Ordered, ReachableEdge, Eval, Total;
    RunInv(c, run, steps, j);
    HeldReachable(c, run[j], x);
    if i < j {
      RunKeepsMeaning(c, run, steps, i, j - 1, x, v);
      RunInv(c, run, steps, j - 1);
      assert Next(c, run[j - 1], steps[j - 1], run[j]);
      HeldReachable(c, run[j - 1], x);
      StepKeepsMeaning(c, run[j - 1], steps[j - 1], run[j], x, v);
    }
  }

  // --- What a step gives to its thread ---------------------------------------

  /** The steps that build a node, and the edge the thread gets for it. */
  predicate Builds(a: Step) {
    a.Reduce? || a.Share? || a.Insert? || a.AddLevel?
  }

  function BuiltEdge(a: Step): Edge
    requires Builds(a)
  {
    if a.Reduce? then a.n.t else Inner(a.id)
  }

  /** `x` denotes "if the variable at the level of `n` then its then-edge else its else-edge". */
  ghost predicate DenotesNode(s: Store, n: Node, s': Store, x: Edge)
    requires Ordered(s) && Ordered(s') && Valid(s, n.t) && Valid(s, n.e)
  {
    Valid(s', x) && forall v :: Eval(s', x, v) == Eval(s, if n.level in v then n.t else n.e, v)
  }

  /** How the edges of a thread change in a step of its own. */
  ghost predicate Gains(s: State, a: Step, h: multiset<Edge>, h': multiset<Edge>) {
    match a
    case Clone(_, x) => h' == h + multiset{x}
    case Drop(_, x) => x in h && h' == h - multiset{x}
    case Give(t, u, x) => x in h && h' == if t == u then h else h - multiset{x}
    case Fail(_, n, _) => multiset{n.t, n.e} <= h && h' == h - multiset{n.t, n.e}
    case Hit(_, i) => i < |s.cells| && s.cells[i].entry.Filled? && h' == h + multiset{s.cells[i].entry.value}
    case Put(_, _, _) => h' == h
    case _ => Builds(a) && multiset{a.n.t, a.n.e} <= h && h' == h - multiset{a.n.t, a.n.e} + multiset{BuiltEdge(a)}
  }

  /** The step changes the edges of its thread, those of the receiver of an edge, and the cache
      entry it overwrites. */
  ghost predicate OnlyGains(s: State, a: Step, s': State) {
    && (a.Clone? || a.Drop? || a.Give? || Builds(a) || a.Fail? || a.Hit? || a.Put?)
    && a.t < |s.held| == |s'.held| && Gains(s, a, s.held[a.t], s'.held[a.t])
    && (forall u :: 0 <= u < |s.held| && u != a.t && !(a.Give? && u == a.u) ==> s'.held[u] == s.held[u])
    && (a.Give? && a.u != a.t ==> a.u < |s.held| && s'.held[a.u] == s.held[a.u] + multiset{a.x})
    && (a.Put? ==> a.i < |s.cells| && s'.cells == s.cells[a.i := Cell(false, a.entry)])
    && (!a.Put? ==> s'.cells == s.cells)
  }

  lemma MutateGains(c: Config, s: State, a: Step, s': State)
    requires Ordered(s.nodes) && Mutate(c, s, a, s')
    ensures OnlyGains(s, a, s')
  {
    hide Ordered, Mutate, OnlyGains;
    if a.Give? {
      GiveGains(c, s, a, s');
    } else if Builds(a) {
      BuildGains(c, s, a, s');
    } else {
      OtherGains(c, s, a, s');
    }
  }

  lemma GiveGains(c: Config, s: State, a: Step, s': State)
    requires Ordered(s.nodes) && a.Give? && Mutate(c, s, a, s')
    ensures OnlyGains(s, a, s')
  {
    hide Ordered;
    GiveBack(s.held[a.t], a.x);
  }

  lemma BuildGains(c: Config, s: State, a: Step, s': State)
    requires Ordered(s.nodes) && Builds(a) && Mutate(c, s, a, s')
    ensures OnlyGains(s, a, s')
  {
    hide Ordered, Opens, Exposes, Misses, Insertable, Findable, Bag, CanDropBoth, NodeOrdered;
    if a.Reduce? {
      Rebuild(s.held[a.t], a.n.t);
    }
  }

  lemma OtherGains(c: Config, s: State, a: Step, s': State)
    requires Ordered(s.nodes) && !Builds(a) && !a.Give? && Mutate(c, s, a, s')
    ensures OnlyGains(s, a, s')
  {
    hide Ordered, Opens, Exposes, Misses, Insertable, Findable, Bag, CanDropBoth, ReachableEdge;
  }

  lemma Rebuild(h: multiset<Edge>, x: Edge)
    requires multiset{x, x} <= h
    ensures h - multiset{x} == h - multiset{x, x} + multiset{x}
  {
    assert h[x] >= 2;
  }

  /** The edge that a thread gets for a node denotes the node. */
  lemma MutateBuilds(c: Config, s: State, a: Step, s': State)
    requires Inv(c, s) && Mutate(c, s, a, s') && Inv(c, s') && Builds(a)
    ensures Ordered(s.nodes) && Ordered(s'.nodes) && Valid(s.nodes, a.n.t) && Valid(s.nodes, a.n.e)
    ensures DenotesNode(s.nodes, a.n, s'.nodes, BuiltEdge(a))
  {
    hide Counted, CellsInv, PhaseInv, TablesInv, LevelsInv, Opens, Exposes, Misses, Insertable, Findable, Bag, Ordered;
    var n := a.n;
    InvOrdered(c, s);
    InvOrdered(c, s');
    OwnedValid(c, s, a.t, n);
    if a.Share? {
      StoredDenotes(s.nodes, a.id, s'.nodes);
    } else if a.Insert? || a.AddLevel? {
      InsertedDenotes(s.nodes, a.id, n, s'.nodes);
    }
  }

  lemma OwnedValid(c: Config, s: State, t: ThreadId, n: Node)
    requires Inv(c, s) && OwnsBoth(s, t, n)
    ensures Valid(s.nodes, n.t) && Valid(s.nodes, n.e)
  {
    hide CellsInv, PhaseInv, TablesInv, LevelsInv, Regular;
    HeldInTotal(s.held, t);
    assert n.t in multiset{n.t, n.e} && n.e in multiset{n.t, n.e};
  }

  lemma StoredDenotes(s: Store, id: NodeId, s': Store)
    requires Ordered(s) && id in s && s' == s && Valid(s, s[id].t) && Valid(s, s[id].e)
    ensures DenotesNode(s, s[id], s', Inner(id))
  {
  }

  lemma InsertedDenotes(s: Store, id: NodeId, n: Node, s': Store)
    requires Ordered(s) && Ordered(s') && id !in s && s' == s[id := n] && Valid(s, n.t) && Valid(s, n.e)
    ensures DenotesNode(s, n, s', Inner(id))
  {
    forall v
      ensures Eval(s', Inner(id), v) == Eval(s, if n.level in v then n.t else n.e, v)
    {
      EvalFrame(s, s', n.t, v);
      EvalFrame(s, s', n.e, v);
    }
  }

  /** In every run, a step changes only the edges of its thread (and of the receiver), by what
      it takes and gives; and the edge it gives for a node denotes that node. */
  lemma RunGains(c: Config, run: seq<State>, steps: seq<Step>, i: nat)
    requires Run(c, run, steps) && i < |steps|
    ensures var s, a, s' := run[i], steps[i], run[i + 1];
            if Collect(s, a, s') then s'.held == s.held
            else
              && OnlyGains(s, a, s')
              && (Builds(a) ==>
                    && Ordered(s.nodes) && Ordered(s'.nodes) && Valid(s.nodes, a.n.t) && Valid(s.nodes, a.n.e)
                    && DenotesNode(s.nodes, a.n, s'.nodes, BuiltEdge(a)))
  {
    hide Init, Inv, Mutate, OnlyGains, DenotesNode, Ordered, SweptTo;
    RunInv(c, run, steps, i);
    RunInv(c, run, steps, i + 1);
    assert Next(c, run[i], steps[i], run[i + 1]);
    InvOrdered(c, run[i]);
    if !Collect(run[i], steps[i], run[i + 1]) {
      MutateGains(c, run[i], steps[i], run[i + 1]);
      if Builds(steps[i]) {
        MutateBuilds(c, run[i], steps[i], run[i + 1]);
      }
    }
  }

  // --- Reachable states ------------------------------------------------------

  /** Some run ends in `s`. */
  ghost predicate RunReaches(c: Config, s: State) {
    exists run, steps :: Run(c, run, steps) && run[|run| - 1] == s
  }

  lemma Advance(c: Config, s: State, a: Step, s': State)
    requires RunReaches(c, s) && Next(c, s, a, s')
    ensures RunReaches(c, s')
  {
    hide Next, Init;
    var run, steps :| Run(c, run, steps) && run[|run| - 1] == s;
    var run', steps' := run + [s'], steps + [a];
    forall i | 0 <= i < |steps'|
      ensures Next(c, run'[i], steps'[i], run'[i + 1])
    {
      if i < |steps| {
        assert run'[i] == run[i] && run'[i + 1] == run[i + 1];
      }
    }
    assert Run(c, run', steps') && run'[|run'| - 1] == s';
  }

  lemma ReachedInv(c: Config, s: State)
    requires RunReaches(c, s)
    ensures Inv(c, s)
  {
    hide Next, Init, Inv;
    var run, steps :| Run(c, run, steps) && run[|run| - 1] == s;
    RunInv(c, run, steps, |run| - 1);
  }

  lemma InvOrdered(c: Config, s: State)
    requires Inv(c, s)
    ensures Ordered(s.nodes)
  {
  }
}
