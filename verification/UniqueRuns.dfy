/** When are the nodes of a run unique? Exactly as long as no insertion duplicates a node that
    a sweep has cut off from lookup. */
module UniqueRuns {
  import opened Numbers
  import opened Diagrams
  import opened RefCounts
  import opened Probing
  import opened LevelTables
  import opened Protocol

  /** The step inserts a node that is stored already, but was not found. */
  ghost predicate Duplicates(s: State, a: Step) {
    a.Insert? && exists i :: i in s.nodes && s.nodes[i] == a.n
  }

  /** The step ends a sweep that cuts a kept node off. */
  ghost predicate Cuts(s: State, a: Step) {
    && a.GcNextLevel? && s.phase.Sweeping? && s.phase.level < |s.tables|
    && SweepCuts(s.tables[s.phase.level], s.nodes, s.phase.level)
  }

  /** Lookups find all nodes. */
  ghost predicate AllFindable(s: State) {
    forall l :: 0 <= l < |s.tables| ==> Findable(s.tables[l])
  }

  /** Two edges denote the same function if and only if they are equal. */
  ghost predicate StronglyCanonical(s: Store) {
    Regular(s) && forall x, y :: Valid(s, x) && Valid(s, y) ==> (Equivalent(s, x, y) <==> x == y)
  }

  lemma OtherStepsKeepNodes(c: Config, s: State, a: Step, s': State)
    requires Ordered(s.nodes) && Mutate(c, s, a, s') && !a.Insert? && !a.AddLevel?
    ensures s'.nodes == s.nodes && !a.GcNextLevel?
    ensures !a.Share? && !a.Fail? ==> s'.tables == s.tables
  {
    hide Ordered, Opens, Exposes, Reachable;
  }

  /** A step keeps nodes unique exactly if it does not duplicate one. */
  lemma StepUnique(c: Config, s: State, a: Step, s': State)
    requires Inv(c, s) && Next(c, s, a, s') && Unique(s.nodes)
    ensures Unique(s'.nodes) <==> !Duplicates(s, a)
  {
    hide Inv, Ordered, Unique, Mutate, Collect;
    if Collect(s, a, s') {
      CollectKeepsInv(c, s, a, s');
      CollectSteps(s, a, s');
    } else if a.Insert? {
      InsertKeepsInv(c, s, a, s');
    } else if a.AddLevel? {
      AddLevelKeepsInv(c, s, a, s');
    } else {
      OtherStepsKeepNodes(c, s, a, s');
    }
  }

  lemma CollectSteps(s: State, a: Step, s': State)
    requires Collect(s, a, s')
    ensures !a.Insert? && !a.AddLevel? && !a.Share? && !a.Fail?
    ensures !a.GcNextLevel? ==> s'.tables == s.tables
  {
    hide SweptTo;
  }

  /** The nodes of a run are unique in all states exactly if no step has duplicated one. */
  lemma {:induction false} RunUnique(c: Config, run: seq<State>, steps: seq<Step>, k: nat)
    requires Run(c, run, steps) && k < |run|
    ensures (forall j :: 0 <= j <= k ==> Unique(run[j].nodes)) <==>
            (forall j :: 0 <= j < k ==> !Duplicates(run[j], steps[j]))
  {
    hide Inv, Init, Next, Unique, Duplicates;
    if k == 0 {
      InitUnique(run[0]);
    } else {
      RunUnique(c, run, steps, k - 1);
      RunInv(c, run, steps, k - 1);
      assert Next(c, run[k - 1], steps[k - 1], run[k]);
      if Unique(run[k - 1].nodes) {
        StepUnique(c, run[k - 1], steps[k - 1], run[k]);
      }
    }
  }

  lemma InitUnique(s: State)
    requires Init(s)
    ensures Unique(s.nodes) && AllFindable(s)
  {
  }

  /** Strong canonicity holds in all states of a run exactly if no insertion has duplicated a
      stored node. */
  lemma RunCanonical(c: Config, run: seq<State>, steps: seq<Step>, k: nat)
    requires Run(c, run, steps) && k < |run|
    ensures (forall j :: 0 <= j <= k ==> StronglyCanonical(run[j].nodes)) <==>
            (forall j :: 0 <= j < k ==> !Duplicates(run[j], steps[j]))
  {
    hide Run, Unique, Duplicates, StronglyCanonical;
    RunUnique(c, run, steps, k);
    forall j | 0 <= j <= k
      ensures StronglyCanonical(run[j].nodes) <==> Unique(run[j].nodes)
    {
      RunInv(c, run, steps, j);
      UniqueIsCanonical(c, run[j]);
    }
  }

  lemma UniqueIsCanonical(c: Config, s: State)
    requires Inv(c, s)
    ensures StronglyCanonical(s.nodes) <==> Unique(s.nodes)
  {
    hide Unique, Ordered, Reduced, TablesInv, CellsInv, Counted, LevelsInv, PhaseInv;
    CanonicityExact(s.nodes);
  }

  // --- Cutting off -----------------------------------------------------------

  /** If lookups find all nodes, they do so after a step exactly if it does not cut one off. */
  lemma StepFindable(c: Config, s: State, a: Step, s': State)
    requires Inv(c, s) && Next(c, s, a, s') && AllFindable(s)
    ensures AllFindable(s') <==> !Cuts(s, a)
  {
    hide Inv, Ordered, Mutate, Collect, Findable;
    if Collect(s, a, s') {
      CollectSteps(s, a, s');
      if a.GcNextLevel? {
        SweepFindable(c, s, a, s');
      }
    } else if a.Insert? || a.AddLevel? || a.Share? || a.Fail? {
      TableStepFindable(c, s, a, s');
    } else {
      OtherStepsKeepNodes(c, s, a, s');
    }
  }

  lemma SweepFindable(c: Config, s: State, a: Step, s': State)
    requires Inv(c, s) && a.GcNextLevel? && Collect(s, a, s') && AllFindable(s)
    ensures AllFindable(s') <==> !Cuts(s, a)
  {
    hide Findable, Lists, Covers, SweptTo, SweepCuts, Regular, Counted, CellsInv, PhaseInv;
    var l := s.phase.level;
    if l < |s.tables| {
      assert TableInv(c, s, l) && LevelLocked(s, l);
      SweepLists(s.tables[l], s.nodes, c.hash, l, a.d);
      if AllFindable(s') {
        assert Findable(s'.tables[l]);
      }
    }
  }

  lemma TableStepFindable(c: Config, s: State, a: Step, s': State)
    requires Inv(c, s) && Mutate(c, s, a, s') && AllFindable(s) && (a.Insert? || a.AddLevel? || a.Share? || a.Fail?)
    ensures AllFindable(s') && !Cuts(s, a)
  {
    hide Inv, Ordered, Findable, Prepared, Exposes, Misses, Insertable, Bag;
    if a.Insert? {
      InsertKeepsInv(c, s, a, s');
    } else if !a.AddLevel? {
      OpenKeepsInv(c, s, a.n, a.d);
    }
  }

  /** As long as lookups find all nodes, no insertion duplicates one. */
  lemma FindableInserts(c: Config, s: State, a: Step, s': State)
    requires Inv(c, s) && Next(c, s, a, s') && AllFindable(s)
    ensures !Duplicates(s, a)
  {
    hide Regular, Counted, CellsInv, PhaseInv, Findable, Lists, Covers, Prepared, Misses, Insertable, Collect;
    if a.Insert? {
      InsertIsMutate(c, s, a, s');
      var l := a.n.level;
      assert TableInv(c, s, l) && Findable(s.tables[l]);
      PreparedLists(s.tables[l], a.d, s.nodes, c.hash, l);
      ListsCover(a.d, s.nodes, c.hash, l);
      FindableMisses(a.d, s.nodes, c.hash, a.n);
    }
  }

  lemma InsertIsMutate(c: Config, s: State, a: Step, s': State)
    requires Next(c, s, a, s') && a.Insert?
    ensures Mutate(c, s, a, s')
  {
    hide Mutate, SweptTo;
  }

  lemma ListsCover(d: Table, s: Store, hash: Node -> nat, l: Level)
    requires Lists(d, s, hash, l)
    ensures Covers(d, s, hash, l)
  {
  }

  /** As long as no sweep cuts a node off, i.e. every sweep shrinks its table or crosses no kept
      entry's probe sequence, lookups find all nodes; and only that long. */
  lemma {:induction false} RunFindable(c: Config, run: seq<State>, steps: seq<Step>, k: nat)
    requires Run(c, run, steps) && k < |run|
    ensures (forall j :: 0 <= j <= k ==> AllFindable(run[j])) <==> (forall j :: 0 <= j < k ==> !Cuts(run[j], steps[j]))
  {
    hide Inv, Init, Next, AllFindable, Cuts;
    if k == 0 {
      InitUnique(run[0]);
    } else {
      RunFindable(c, run, steps, k - 1);
      RunInv(c, run, steps, k - 1);
      assert Next(c, run[k - 1], steps[k - 1], run[k]);
      if AllFindable(run[k - 1]) {
        StepFindable(c, run[k - 1], steps[k - 1], run[k]);
      }
    }
  }

  /** As long as no sweep cuts a node off, the nodes are canonical. */
  lemma RunIntact(c: Config, run: seq<State>, steps: seq<Step>, k: nat)
    requires Run(c, run, steps) && k < |run| && forall j :: 0 <= j < k ==> !Cuts(run[j], steps[j])
    ensures StronglyCanonical(run[k].nodes) && AllFindable(run[k])
  {
    hide Inv, Init, Next, AllFindable, Cuts, Duplicates, StronglyCanonical;
    RunFindable(c, run, steps, k);
    forall j | 0 <= j < k
      ensures !Duplicates(run[j], steps[j])
    {
      RunInv(c, run, steps, j);
      assert Next(c, run[j], steps[j], run[j + 1]);
      FindableInserts(c, run[j], steps[j], run[j + 1]);
    }
    RunCanonical(c, run, steps, k);
  }

  // --- Duplicates ------------------------------------------------------------

  /** A sweep that cuts off leaves a node that lookups miss. */
  lemma CutLoses(c: Config, s: State, a: Step, s': State) returns (i: NodeId)
    requires Inv(c, s) && Next(c, s, a, s') && AllFindable(s) && Cuts(s, a)
    ensures i in s'.nodes && s'.nodes[i].level == s.phase.level < |s'.tables| && !Exposes(s'.tables[s.phase.level], i)
  {
    hide Regular, Counted, CellsInv, PhaseInv, Lists, Covers, SweptTo, SweepCuts, Findable, Mutate;
    CutIsCollect(c, s, a, s');
    var l := s.phase.level;
    assert TableInv(c, s, l) && Findable(s.tables[l]);
    SweepLists(s.tables[l], s.nodes, c.hash, l, a.d);
    i := Lost(s'.tables[l], s'.nodes, c.hash, l);
  }

  lemma CutIsCollect(c: Config, s: State, a: Step, s': State)
    requires Next(c, s, a, s') && a.GcNextLevel?
    ensures Collect(s, a, s')
  {
    hide Collect, Opens, Exposes, Misses, Insertable, Reachable;
  }

  lemma Lost(d: Table, s: Store, hash: Node -> nat, l: Level) returns (i: NodeId)
    requires Lists(d, s, hash, l) && !Findable(d)
    ensures i in s && s[i].level == l && !Exposes(d, i)
  {
    var p :| 0 <= p < |d| && d[p].Full? && !Visible(d, p);
    i := d[p].value;
    assert KeptIn(s, l, i);
    assert forall q: nat :: HoldsAt(d, q, i) ==> q == p;
  }

  /** Whenever lookups miss a stored node, a thread that owns edges to its children inserts a
      second copy: two different edges denote the same function. */
  lemma MissDuplicates(c: Config, s: State, i: NodeId, t: ThreadId, id: NodeId) returns (p: nat, s': State)
    requires Inv(c, s) && i in s.nodes && OwnsBoth(s, t, s.nodes[i]) && id !in s.nodes && id < c.cap
    requires var n := s.nodes[i];
             && n.level < |s.tables| && !LevelLocked(s, n.level) && Misses(s.tables[n.level], s.nodes, n)
             && FreeCount(s.tables[n.level]) > |s.tables[n.level]| / 4
    ensures var a := Insert(t, s.nodes[i], id, s.tables[s.nodes[i].level], p); Next(c, s, a, s') && Duplicates(s, a)
    ensures i != id && i in s'.nodes && id in s'.nodes && s'.nodes[i] == s'.nodes[id]
    ensures !Unique(s'.nodes)
  {
    hide Regular, Counted, CellsInv, PhaseInv, Lists, Covers, Insertable, Misses, FreeCount, Mutate, Unique;
    var n := s.nodes[i];
    var d := s.tables[n.level];
    assert TableInv(c, s, n.level);
    NodeFacts(s.nodes, i);
    assert !Exposes(d, i) by { MissedHidden(d, s.nodes, i); }
    p := GapBefore(d, s.nodes, c.hash, i);
    s' := InsertStep(c, s, t, n, id, p);
    NotUnique(s'.nodes, i, id);
  }

  lemma NodeFacts(s: Store, i: NodeId)
    requires Regular(s) && i in s
    ensures NodeOrdered(s, s[i]) && s[i].t != s[i].e && Ordered(s)
  {
  }

  lemma MissedHidden(d: Table, s: Store, i: NodeId)
    requires i in s && Misses(d, s, s[i])
    ensures !Exposes(d, i)
  {
  }

  lemma NotUnique(s: Store, i: NodeId, j: NodeId)
    requires i in s && j in s && s[i] == s[j] && i != j
    ensures !Unique(s)
  {
  }

  lemma InsertStep(c: Config, s: State, t: ThreadId, n: Node, id: NodeId, p: nat) returns (s': State)
    requires Ordered(s.nodes) && OwnsBoth(s, t, n) && n.t != n.e && NodeOrdered(s.nodes, n)
    requires id !in s.nodes && id < c.cap && n.level < |s.tables| && !LevelLocked(s, n.level)
    requires var d := s.tables[n.level];
             Misses(d, s.nodes, n) && Insertable(d, c.hash(n), p) && FreeCount(d) > |d| / 4
    ensures Mutate(c, s, Insert(t, n, id, s.tables[n.level], p), s') && s'.nodes == s.nodes[id := n]
    ensures s'.held == s.held[t := TakeOver(s.held[t], n.t, n.e, id)] && s'.rc == s.rc[id := 2] && s'.phase == s.phase
    ensures s'.cells == s.cells && s'.levels == s.levels
    ensures s'.tables == s.tables[n.level := s.tables[n.level][p := Full(c.hash(n), id)]]
  {
    hide Ordered, NodeOrdered, Misses, Unbroken, FreeCount;
    var d := s.tables[n.level];
    s' := WithHeld(s, t, TakeOver(s.held[t], n.t, n.e, id))
          .(nodes := s.nodes[id := n], rc := s.rc[id := 2], tables := s.tables[n.level := d[p := Full(c.hash(n), id)]]);
  }
}
