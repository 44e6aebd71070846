/** When are cache hits right? Entries keep being right for as long as they are cached; an entry
    that Min and Max share is right for one of them, and may be wrong for the other. */
module CachedRuns {
  import opened Numbers
  import opened Diagrams
  import opened RefCounts
  import opened Operators
  import opened LevelTables
  import opened Protocol

  ghost predicate SoundCells(use: Use, s: State)
    requires Ordered(s.nodes)
  {
    forall i :: 0 <= i < |s.cells| ==> Sound(s.nodes, use, s.cells[i].entry)
  }

  /** A thread puts only right entries into the cache. Apply does so: see EntrySound. */
  ghost predicate SoundPut(use: Use, s: State, a: Step)
    requires Ordered(s.nodes)
  {
    a.Put? ==> Sound(s.nodes, use, a.entry)
  }

  /** How a step changes cells: it empties them, unlocks them, or puts an entry. */
  lemma CellsChange(c: Config, s: State, a: Step, s': State, i: nat)
    requires Next(c, s, a, s') && i < |s.cells|
    ensures |s'.cells| == |s.cells|
    ensures s'.cells[i].entry == s.cells[i].entry || s'.cells[i].entry == Empty
            || (a.Put? && s'.cells[i].entry == a.entry && s'.nodes == s.nodes)
  {
    hide Ordered, Opens, SweptTo, Reachable;
  }

  lemma EmptySound(s: Store, use: Use)
    requires Ordered(s)
    ensures Sound(s, use, Empty)
  {
  }

  lemma StepSound(use: Use, c: Config, s: State, a: Step, s': State)
    requires Inv(c, s) && Next(c, s, a, s') && Inv(c, s') && Ordered(s.nodes) && Ordered(s'.nodes)
    requires SoundCells(use, s) && SoundPut(use, s, a)
    ensures SoundCells(use, s')
  {
    hide Next, Inv, Ordered, Sound;
    FreshId(c, s, a, s');
    StepNodes(c, s, a, s');
    forall i | 0 <= i < |s'.cells|
      ensures Sound(s'.nodes, use, s'.cells[i].entry)
    {
      CellsSize(c, s, a, s');
      CellsChange(c, s, a, s', i);
      EmptySound(s'.nodes, use);
      if Extends(s.nodes, s'.nodes) {
        SoundFrame(s.nodes, s'.nodes, use, s.cells[i].entry);
      } else {
        FreedUnreferenced(c, s);
      }
    }
  }

  lemma CellsSize(c: Config, s: State, a: Step, s': State)
    requires Next(c, s, a, s')
    ensures |s'.cells| == |s.cells|
  {
    hide Ordered, Opens, SweptTo, Reachable;
  }

  /** If only right entries are put into the cache, all entries are right in all states. */
  lemma {:induction false} RunSound(use: Use, c: Config, run: seq<State>, steps: seq<Step>, k: nat)
    requires Run(c, run, steps) && k < |run|
    requires forall j :: 0 <= j < k ==> Ordered(run[j].nodes) && SoundPut(use, run[j], steps[j])
    ensures Ordered(run[k].nodes) && SoundCells(use, run[k])
  {
    hide Inv, Next, SoundPut, SoundCells, Ordered;
    RunInv(c, run, steps, k);
    InvOrdered(c, run[k]);
    if k == 0 {
      InitSound(use, run[0]);
    } else {
      RunSound(use, c, run, steps, k - 1);
      RunInv(c, run, steps, k - 1);
      assert Next(c, run[k - 1], steps[k - 1], run[k]);
      StepSound(use, c, run[k - 1], steps[k - 1], run[k]);
    }
  }

  lemma InitSound(use: Use, s: State)
    requires Init(s) && Ordered(s.nodes)
    ensures SoundCells(use, s)
  {
    hide Ordered;
  }

  /** Then every hit answers the query acceptably: exactly, if only one of Min and Max has been
      used, and otherwise with the minimum or the maximum at each valuation. */
  lemma RunHitsRight(use: Use, c: Config, run: seq<State>, steps: seq<Step>, k: nat,
                     op: Op, f: Edge, g: Edge, greater: bool)
    requires Run(c, run, steps) && k < |steps| && steps[k].Hit? && Permits(use, op)
    requires forall j :: 0 <= j < k ==> Ordered(run[j].nodes) && SoundPut(use, run[j], steps[j])
    requires Ordered(run[k].nodes) && Valid(run[k].nodes, f) && Valid(run[k].nodes, g)
    requires TerminalBin(op, f, g, greater).Binary? && steps[k].i < |run[k].cells|
    requires var c, n := TerminalBin(op, f, g, greater), run[k].cells[steps[k].i].entry;
             n.Filled? && (n.key, n.f, n.g) == (c.key, c.f, c.g)
    ensures Denotes(use, run[k].nodes, run[k].cells[steps[k].i].entry.value, op, run[k].nodes, f, g)
  {
    hide Init, Next, Sound, Denotes, Ordered, TerminalBin;
    RunSound(use, c, run, steps, k);
    var n := run[k].cells[steps[k].i].entry;
    assert n == Filled(n.key, n.f, n.g, n.value) && Sound(run[k].nodes, use, n);
    HitDenotes(use, op, run[k].nodes, f, g, greater, n.value);
  }

  /** Whenever a thread has computed one of Min and Max of `f` and `g` and a cache entry is
      unlocked, it may cache the result, and the other operator then hits it. The hit is
      right exactly if `f` and `g` agree, or one is NaN, at every valuation. */
  lemma SharedKeyReached(c: Config, s: State, t: ThreadId, i: nat, op: Op, other: Op, f: Edge, g: Edge,
                         greater: bool, h: Edge) returns (s': State)
    requires RunReaches(c, s) && Ordered(s.nodes) && t < |s.held| && i < |s.cells| && !s.cells[i].locked
    requires ReachableEdge(s.nodes, s.held[t], f) && ReachableEdge(s.nodes, s.held[t], g)
    requires ReachableEdge(s.nodes, s.held[t], h) && {op, other} == {Min, Max}
    requires TerminalBin(op, f, g, greater).Binary?
    requires Denotes(if op == Min then OnlyMin else OnlyMax, s.nodes, h, op, s.nodes, f, g)
    ensures var k := TerminalBin(other, f, g, greater);
            && RunReaches(c, s') && s'.nodes == s.nodes && t < |s'.held| && h in s'.held[t]
            && i < |s'.cells| && k.Binary? && s'.cells[i].entry == Filled(k.key, k.f, k.g, h)
    ensures Answers(s.nodes, h, other, f, g) <==> AlwaysAgree(s.nodes, f, g)
  {
    hide RunReaches, Inv, Ordered, Denotes, TerminalBin, Answers, AlwaysAgree, Sound, Reachable, Opens;
    SharedKeyConflict(s.nodes, op, other, f, g, greater, h);
    var k := TerminalBin(op, f, g, greater);
    CaseOperandsOf(op, s.nodes, f, g, greater);
    var entry := Filled(k.key, k.f, k.g, h);
    var s1 := s.(cells := s.cells[i := Cell(false, entry)]);
    assert Mutate(c, s, Put(t, i, entry), s1);
    Advance(c, s, Put(t, i, entry), s1);
    ReachedInv(c, s1);
    HeldCounted(c, s1, h);
    s' := AfterClone(s1, t, h);
    assert Mutate(c, s1, Hit(t, i), s');
    Advance(c, s1, Hit(t, i), s');
  }

  lemma CaseOperandsOf(op: Op, s: Store, f: Edge, g: Edge, greater: bool)
    requires Ordered(s) && Valid(s, f) && Valid(s, g) && TerminalBin(op, f, g, greater).Binary?
    ensures var k := TerminalBin(op, f, g, greater); k.f in {f, g} && k.g in {f, g}
  {
  }

  lemma HeldCounted(c: Config, s: State, x: Edge)
    requires Inv(c, s) && Valid(s.nodes, x)
    ensures x.Inner? ==> x.id in s.rc
  {
    hide TablesInv, CellsInv, PhaseInv, Regular;
  }
}
