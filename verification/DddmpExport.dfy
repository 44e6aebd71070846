/** Export of a diagram: collecting its nodes, numbering them bottom-up, and the proof
    that export followed by import preserves every function. */
module DddmpExport {
  import opened Collections
  import opened Options
  import opened Codec
  import opened Bcdd
  import opened Dddmp

  // --- Collecting and numbering ----------------------------------------------

  /** The children of the collected nodes from level `l` downward are collected, too. */
  ghost predicate ClosedFrom(s: Store, seen: set<nat>, l: Level) {
    && seen <= s.Keys
    && forall i :: i in seen && s[i].level >= l ==> Has(seen, s[i].t.to) && Has(seen, s[i].e.to)
  }

  predicate Has(seen: set<nat>, r: Ref) {
    r.Ref? ==> r.id in seen
  }

  /** The node `i` is `r` or lies below it. */
  ghost predicate Under(s: Store, r: Ref, i: nat)
    requires Ordered(s) && Valid(s, r)
    decreases TERMINAL_LEVEL - LevelOf(s, r)
  {
    r.Ref? && (r.id == i || Under(s, s[r.id].t.to, i) || Under(s, s[r.id].e.to, i))
  }

  /** Add the nodes below `r`. Nodes above `r` may still be in progress. */
  method Collect(s: Store, r: Ref, seen: set<nat>) returns (all: set<nat>)
    requires Ordered(s) && Valid(s, r) && ClosedFrom(s, seen, LevelOf(s, r))
    ensures seen <= all && Has(all, r) && ClosedFrom(s, all, LevelOf(s, r))
    ensures forall i :: i in all && i !in seen ==> s[i].level >= LevelOf(s, r) && Under(s, r, i)
    decreases TERMINAL_LEVEL - LevelOf(s, r)
  {
    all := seen;
    if r.Ref? && r.id !in seen {
      var n := s[r.id];
      assert NodeOrdered(s, n);
      all := seen + {r.id};
      all := Collect(s, n.t.to, all);
      all := Collect(s, n.e.to, all);
    }
  }

  /** What is collected from `l` downward contains everything below its nodes. */
  lemma {:induction false} ClosedUnder(s: Store, all: set<nat>, r: Ref, i: nat)
    requires Ordered(s) && Valid(s, r) && ClosedFrom(s, all, 0) && Has(all, r) && Under(s, r, i)
    ensures i in all
    decreases TERMINAL_LEVEL - LevelOf(s, r)
  {
    if r.id != i {
      ClosedUnder(s, all, if Under(s, s[r.id].t.to, i) then s[r.id].t.to else s[r.id].e.to, i);
    }
  }

  /** Some root has the node `i` below it. */
  ghost predicate UnderRoots(s: Store, roots: seq<Edge>, i: nat)
    requires Ordered(s) && forall k :: 0 <= k < |roots| ==> Valid(s, roots[k].to)
  {
    exists k :: 0 <= k < |roots| && Under(s, roots[k].to, i)
  }

  /** The nodes below the roots: all of them, and no others. */
  method CollectRoots(s: Store, roots: seq<Edge>) returns (all: set<nat>)
    requires Ordered(s) && forall k :: 0 <= k < |roots| ==> Valid(s, roots[k].to)
    ensures ClosedFrom(s, all, 0) && forall k :: 0 <= k < |roots| ==> Has(all, roots[k].to)
    ensures forall i :: i in all <==> UnderRoots(s, roots, i)
  {
    all := {};
    for k := 0 to |roots|
      invariant ClosedFrom(s, all, 0) && forall j :: 0 <= j < k ==> Has(all, roots[j].to)
      invariant forall i :: i in all ==> UnderRoots(s, roots, i)
    {
      ghost var before := all;
      all := Collect(s, roots[k].to, all);
      forall i | i in all && s[i].level >= 0
        ensures Has(all, s[i].t.to) && Has(all, s[i].e.to)
      {
        assert i in before ==> Has(before, s[i].t.to) && Has(before, s[i].e.to);
      }
    }
    forall i: nat | UnderRoots(s, roots, i)
      ensures i in all
    {
      var k :| 0 <= k < |roots| && Under(s, roots[k].to, i);
      ClosedUnder(s, all, roots[k].to, i);
    }
  }

  /** `order` lists the nodes `all`, each once, from the bottom to the top. */
  ghost predicate BottomUp(s: Store, all: set<nat>, order: seq<nat>) {
    && Distinct(order) && (forall i :: i in all <==> i in order) && all <= s.Keys
    && (forall j, k :: 0 <= j < k < |order| ==>
          order[j] in s && order[k] in s && s[order[j]].level >= s[order[k]].level)
  }

  /** `vars` lists their levels from the top to the bottom. */
  ghost predicate Support(s: Store, all: set<nat>, vars: seq<Level>) {
    all <= s.Keys && Increasing(vars) && forall i :: i in all ==> s[i].level in vars
  }

  /** Every support variable has a node. */
  ghost predicate Populated(s: Store, all: set<nat>, vars: seq<Level>) {
    forall j :: 0 <= j < |vars| ==> exists i :: i in all && i in s && s[i].level == vars[j]
  }

  ghost predicate Numbering(s: Store, all: set<nat>, order: seq<nat>, vars: seq<Level>) {
    BottomUp(s, all, order) && Support(s, all, vars)
  }

  lemma AppendNode(s: Store, done: set<nat>, order: seq<nat>, i: nat)
    requires BottomUp(s, done, order) && i in s && i !in done
    requires forall j :: j in done ==> s[j].level >= s[i].level
    ensures BottomUp(s, done + {i}, order + [i])
  {
    var r := order + [i];
    forall j, k | 0 <= j < k < |r|
      ensures r[j] != r[k] && r[j] in s && r[k] in s && s[r[j]].level >= s[r[k]].level
    {
      assert order[j] in order;
    }
  }

  lemma AddSupport(s: Store, done: set<nat>, vars: seq<Level>, level: set<nat>, l: Level)
    requires Support(s, done, vars) && Populated(s, done, vars) && level <= s.Keys && level != {}
    requires (forall i :: i in level ==> s[i].level == l) && forall i :: 0 <= i < |vars| ==> vars[i] > l
    ensures Support(s, done + level, [l] + vars) && Populated(s, done + level, [l] + vars)
  {
    var w := [l] + vars;
    assert w[0] == l && forall i :: i in done ==> s[i].level in vars && s[i].level in w;
    var x :| x in level;
    forall j | 0 <= j < |w|
      ensures exists i :: i in done + level && i in s && s[i].level == w[j]
    {
      if j == 0 {
        assert x in done + level && s[x].level == w[j];
      } else {
        var i :| i in done && i in s && s[i].level == vars[j - 1];
        assert i in done + level && s[i].level == w[j];
      }
    }
  }

  /** Assign numbers level by level, from the bottom to the top; within a level the
      order is that of a hash table. Only levels with nodes become support variables. */
  method Number(s: Store, all: set<nat>, numLevels: nat) returns (order: seq<nat>, vars: seq<Level>)
    requires all <= s.Keys && LevelsBelow(s, numLevels)
    ensures Numbering(s, all, order, vars) && forall i :: 0 <= i < |vars| ==> vars[i] < numLevels
    ensures Populated(s, all, vars)
  {
    hide BottomUp, Support, Populated;
    NothingNumbered(s);
    order, vars := [], [];
    var l := numLevels;
    ghost var done: set<nat> := {};
    while l > 0
      invariant 0 <= l <= numLevels && done == (set i | i in all && s[i].level >= l)
      invariant Numbering(s, done, order, vars) && Populated(s, done, vars)
      invariant forall i :: 0 <= i < |vars| ==> l <= vars[i] < numLevels
    {
      l := l - 1;
      var level := set i | i in all && s[i].level == l;
      if level != {} {
        AddSupport(s, done, vars, level, l);
        order := NumberLevel(s, done, order, level, l);
        done := done + level;
        vars := [l] + vars;
      }
    }
    assert done == all;
  }

  lemma NothingNumbered(s: Store)
    ensures BottomUp(s, {}, []) && Support(s, {}, []) && Populated(s, {}, [])
  {
  }

  method NumberLevel(s: Store, ghost done: set<nat>, order: seq<nat>, level: set<nat>, l: Level)
    returns (order': seq<nat>)
    requires BottomUp(s, done, order) && level <= s.Keys && level !! done
    requires (forall i :: i in level ==> s[i].level == l) && (forall i :: i in done ==> s[i].level > l)
    ensures BottomUp(s, done + level, order')
  {
    hide BottomUp;
    order' := order;
    var todo := level;
    ghost var listed := done;
    while todo != {}
      invariant todo <= level && BottomUp(s, listed, order')
      invariant forall j :: j in listed <==> j in done || (j in level && j !in todo)
      decreases |todo|
    {
      var i :| i in todo;
      AppendNode(s, listed, order', i);
      listed := listed + {i};
      order' := order' + [i];
      todo := todo - {i};
    }
    assert listed == done + level;
  }

  // --- The records -----------------------------------------------------------

  function IndexOf<T(==)>(x: seq<T>, y: T): (i: nat)
    requires y in x
    ensures i < |x| && x[i] == y
  {
    if x[0] == y then 0 else 1 + IndexOf(x[1..], y)
  }

  /** The id of a node: 1 for the terminal, then bottom-up. */
  function IdOf(order: seq<nat>, r: Ref): nat
    requires r.Ref? ==> r.id in order
  {
    if r.One? then 1 else IndexOf(order, r.id) + 2
  }

  ghost predicate Exportable(s: Store, all: set<nat>, order: seq<nat>, vars: seq<Level>) {
    Canonical(s) && ClosedFrom(s, all, 0) && Numbering(s, all, order, vars)
  }

  function RecordOf(s: Store, all: set<nat>, order: seq<nat>, vars: seq<Level>, i: nat): Rec
    requires Exportable(s, all, order, vars) && i in all
  {
    var n := s[i];
    assert Has(all, n.t.to) && Has(all, n.e.to);
    Inner(IndexOf(vars, n.level), IdOf(order, n.t.to), n.e.neg, IdOf(order, n.e.to))
  }

  /** The dump: the terminal followed by the nodes in order. */
  function Records(s: Store, all: set<nat>, order: seq<nat>, vars: seq<Level>): (ns: seq<Rec>)
    requires Exportable(s, all, order, vars)
    ensures |ns| == |order| + 1 && ns[0] == Top
    ensures forall k :: 1 <= k < |ns| ==> order[k - 1] in all && ns[k] == RecordOf(s, all, order, vars, order[k - 1])
  {
    [Top] + seq(|order|, k requires 0 <= k < |order| =>
      assert order[k] in order; RecordOf(s, all, order, vars, order[k]))
  }

  /** A node to be exported is ordered and reduced, and its children are exported. */
  lemma NodeFacts(s: Store, all: set<nat>, order: seq<nat>, vars: seq<Level>, i: nat)
    requires Exportable(s, all, order, vars) && i in all
    ensures i in s && NodeOrdered(s, s[i]) && NodeReduced(s[i]) && Has(all, s[i].t.to) && Has(all, s[i].e.to)
  {
    hide Numbering;
  }

  /** A node further down is listed earlier. */
  lemma LowerEarlier(s: Store, all: set<nat>, order: seq<nat>, k: nat, i: nat)
    requires BottomUp(s, all, order) && k < |order| && order[k] in s
    requires i in all && i in s && s[i].level > s[order[k]].level
    ensures i in order && IndexOf(order, i) < k
  {
  }

  /** A child is listed before its parent. */
  lemma ChildFirst(s: Store, all: set<nat>, order: seq<nat>, vars: seq<Level>, k: nat, c: Ref)
    requires Exportable(s, all, order, vars) && k < |order| && order[k] in all
    requires c == s[order[k]].t.to || c == s[order[k]].e.to
    ensures Has(all, c) && 1 <= IdOf(order, c) <= k + 1
    ensures c.Ref? ==> s[c.id].level > s[order[k]].level
  {
    hide Canonical, ClosedFrom, BottomUp, Support;
    NodeFacts(s, all, order, vars, order[k]);
    if c.Ref? {
      LowerEarlier(s, all, order, k, c.id);
    }
  }

  lemma IndexIncreasing(vars: seq<Level>, a: Level, b: Level)
    requires Increasing(vars) && a in vars && b in vars && a < b
    ensures IndexOf(vars, a) < IndexOf(vars, b)
  {
  }

  lemma RecordOrdered(s: Store, all: set<nat>, order: seq<nat>, vars: seq<Level>, ns: seq<Rec>, k: nat)
    requires Exportable(s, all, order, vars) && ns == Records(s, all, order, vars) && k < |order|
    ensures RecOrdered(ns, k + 1, |vars|)
  {
    hide Canonical, BottomUp, IndexOf, Records;
    var r := ns[k + 1];
    var n := s[order[k]];
    ChildFirst(s, all, order, vars, k, n.t.to);
    ChildFirst(s, all, order, vars, k, n.e.to);
    ChildVar(s, all, order, vars, ns, n.level, n.t.to);
    ChildVar(s, all, order, vars, ns, n.level, n.e.to);
  }

  lemma ChildVar(s: Store, all: set<nat>, order: seq<nat>, vars: seq<Level>, ns: seq<Rec>, l: Level, c: Ref)
    requires Exportable(s, all, order, vars) && ns == Records(s, all, order, vars)
    requires Has(all, c) && l in vars && (c.Ref? ==> l < s[c.id].level)
    ensures ValidId(ns, IdOf(order, c)) && Above(IndexOf(vars, l), VarAt(ns, IdOf(order, c)))
  {
    hide Canonical, ClosedFrom;
    if c.Ref? {
      IndexIncreasing(vars, l, s[c.id].level);
    }
  }

  lemma RecordsOrdered(s: Store, all: set<nat>, order: seq<nat>, vars: seq<Level>)
    requires Exportable(s, all, order, vars)
    ensures DumpOrdered(Records(s, all, order, vars), |vars|)
  {
    hide Exportable, RecOrdered;
    var ns := Records(s, all, order, vars);
    TopOrdered(ns, |vars|);
    forall k | 0 <= k < |ns|
      ensures RecOrdered(ns, k, |vars|)
    {
      if k > 0 {
        RecordOrdered(s, all, order, vars, ns, k - 1);
      }
    }
  }

  lemma RecordsNumbered(s: Store, all: set<nat>, order: seq<nat>, vars: seq<Level>)
    requires Exportable(s, all, order, vars)
    ensures Numbered(Records(s, all, order, vars))
  {
    hide Exportable, Records;
    RecordsOrdered(s, all, order, vars);
    OrderedNumbered(Records(s, all, order, vars), |vars|);
  }

  lemma OrderedNumbered(ns: seq<Rec>, nvars: nat)
    requires DumpOrdered(ns, nvars)
    ensures Numbered(ns)
  {
    forall k | 0 <= k < |ns| && ns[k].Inner?
      ensures 1 <= ns[k].t <= k && 1 <= ns[k].e <= k
    {
      assert RecOrdered(ns, k, nvars);
    }
  }

  lemma TopOrdered(ns: seq<Rec>, nvars: nat)
    requires |ns| > 0 && ns[0] == Top
    ensures RecOrdered(ns, 0, nvars)
  {
  }

  lemma IdsDiffer(order: seq<nat>, a: Ref, b: Ref)
    requires (a.Ref? ==> a.id in order) && (b.Ref? ==> b.id in order) && IdOf(order, a) == IdOf(order, b)
    ensures a == b
  {
  }

  lemma RecordReduced(s: Store, all: set<nat>, order: seq<nat>, vars: seq<Level>, i: nat)
    requires Exportable(s, all, order, vars) && i in all
    ensures var r := RecordOf(s, all, order, vars, i); r.neg || r.t != r.e
  {
    hide IndexOf;
    var n := s[i];
    assert NodeReduced(n) && Has(all, n.t.to) && Has(all, n.e.to);
    if IdOf(order, n.t.to) == IdOf(order, n.e.to) {
      IdsDiffer(order, n.t.to, n.e.to);
    }
  }

  /** The records of a canonical diagram are reduced and pairwise different. */
  lemma RecordsAreDump(s: Store, all: set<nat>, order: seq<nat>, vars: seq<Level>)
    requires Exportable(s, all, order, vars) && |order| + 1 < WORD && |vars| < WORD
    ensures Dump(Records(s, all, order, vars), |vars|)
  {
    hide Canonical, ClosedFrom, DumpOrdered, Support, RecordOf, BottomUp;
    var ns := Records(s, all, order, vars);
    RecordsOrdered(s, all, order, vars);
    forall k | 1 <= k < |ns|
      ensures ns[k].Inner? && (ns[k].neg || ns[k].t != ns[k].e)
    {
      var r := ns[k];
      RecordReduced(s, all, order, vars, order[k - 1]);
      RecordInner(s, all, order, vars, order[k - 1]);
    }
    forall j, k | 0 <= j < k < |ns|
      ensures ns[j] != ns[k]
    {
      if j > 0 {
        RecordsDiffer(s, all, order, vars, ns, j, k);
      }
    }
  }

  lemma RecordsDiffer(s: Store, all: set<nat>, order: seq<nat>, vars: seq<Level>, ns: seq<Rec>, j: nat, k: nat)
    requires Exportable(s, all, order, vars) && ns == Records(s, all, order, vars) && 0 < j < k < |ns|
    ensures ns[j] != ns[k]
  {
    hide Canonical, ClosedFrom, Support, RecordOf;
    var a, b := order[j - 1], order[k - 1];
    assert ns[j] == RecordOf(s, all, order, vars, a) && ns[k] == RecordOf(s, all, order, vars, b);
    assert a != b;
    if ns[j] == ns[k] {
      SameRecordSameNode(s, all, order, vars, a, b);
    }
  }

  lemma RecordInner(s: Store, all: set<nat>, order: seq<nat>, vars: seq<Level>, i: nat)
    requires Exportable(s, all, order, vars) && i in all
    ensures RecordOf(s, all, order, vars, i).Inner?
  {
  }

  lemma SameRecordSameNode(s: Store, all: set<nat>, order: seq<nat>, vars: seq<Level>, i: nat, j: nat)
    requires Exportable(s, all, order, vars) && i in all && j in all
    requires RecordOf(s, all, order, vars, i) == RecordOf(s, all, order, vars, j)
    ensures i == j
  {
    var m, n := s[i], s[j];
    assert Has(all, m.t.to) && Has(all, m.e.to) && Has(all, n.t.to) && Has(all, n.e.to);
    IdsDiffer(order, m.t.to, n.t.to);
    IdsDiffer(order, m.e.to, n.e.to);
    assert NodeReduced(m) && NodeReduced(n);
    assert m.level == n.level;
    assert m == n;
  }

  // --- Meaning ---------------------------------------------------------------

  /** Numbering preserves meaning. */
  lemma {:induction false} RecordsValue(s: Store, all: set<nat>, order: seq<nat>, vars: seq<Level>, r: Ref,
                                        v: set<Level>, w: set<nat>)
    requires Exportable(s, all, order, vars) && Has(all, r) && Corresponds(vars, v, w)
    ensures Valid(s, r) && Numbered(Records(s, all, order, vars))
    ensures ValidId(Records(s, all, order, vars), IdOf(order, r))
    ensures RecValue(Records(s, all, order, vars), IdOf(order, r), w) == Value(s, r, v)
    decreases if r.Ref? && r.id in s then TERMINAL_LEVEL - s[r.id].level + 1 else 0
  {
    hide IndexOf, Records, Numbered, Canonical, ClosedFrom, BottomUp, Support, IdOf, RecordOf;
    RecordsNumbered(s, all, order, vars);
    if r.Ref? {
      NodeFacts(s, all, order, vars, r.id);
      var n := s[r.id];
      RecordsValue(s, all, order, vars, n.t.to, v, w);
      RecordsValue(s, all, order, vars, n.e.to, v, w);
      NodeValue(s, all, order, vars, r.id, v, w);
    } else {
      TopRecord(s, all, order, vars);
    }
  }

  lemma TopRecord(s: Store, all: set<nat>, order: seq<nat>, vars: seq<Level>)
    requires Exportable(s, all, order, vars)
    ensures IdOf(order, One) == 1 && Records(s, all, order, vars)[0] == Top
  {
  }

  /** If the children of a node have the right values, so has the node. */
  lemma NodeValue(s: Store, all: set<nat>, order: seq<nat>, vars: seq<Level>, i: nat, v: set<Level>, w: set<nat>)
    requires Exportable(s, all, order, vars) && i in all && Corresponds(vars, v, w)
    requires Numbered(Records(s, all, order, vars))
    requires i in s && NodeOrdered(s, s[i]) && Has(all, s[i].t.to) && Has(all, s[i].e.to)
    requires var ns, n := Records(s, all, order, vars), s[i];
             && ValidId(ns, IdOf(order, n.t.to)) && RecValue(ns, IdOf(order, n.t.to), w) == Value(s, n.t.to, v)
             && ValidId(ns, IdOf(order, n.e.to)) && RecValue(ns, IdOf(order, n.e.to), w) == Value(s, n.e.to, v)
    ensures var ns := Records(s, all, order, vars);
            && i in order && ValidId(ns, IdOf(order, Ref(i)))
            && RecValue(ns, IdOf(order, Ref(i)), w) == Value(s, Ref(i), v)
  {
    hide IndexOf, Records, Numbered, BottomUp, ClosedFrom, IdOf, Corresponds, Support;
    NodeFacts(s, all, order, vars, i);
    RecordWithId(s, all, order, vars, i);
    VarValue(s, all, vars, i, v, w);
  }

  lemma RecordWithId(s: Store, all: set<nat>, order: seq<nat>, vars: seq<Level>, i: nat)
    requires Exportable(s, all, order, vars) && i in all
    ensures i in order && 2 <= IdOf(order, Ref(i)) <= |order| + 1
    ensures Records(s, all, order, vars)[IdOf(order, Ref(i)) - 1] == RecordOf(s, all, order, vars, i)
  {
    hide Canonical, ClosedFrom, Support, RecordOf;
  }

  lemma VarValue(s: Store, all: set<nat>, vars: seq<Level>, i: nat, v: set<Level>, w: set<nat>)
    requires Support(s, all, vars) && i in all && Corresponds(vars, v, w)
    ensures s[i].level in vars && (IndexOf(vars, s[i].level) in w <==> s[i].level in v)
  {
  }

  /** A root in the header: the id of its node, negative if the edge is complemented. */
  function RootId(order: seq<nat>, x: Edge): int
    requires x.to.Ref? ==> x.to.id in order
  {
    if x.neg then 0 as int - IdOf(order, x.to) else IdOf(order, x.to)
  }

  /** The number of the node that a root id names. */
  function NodeNumber(id: int): nat {
    if id < 0 then -id else id
  }

  predicate RootIn(ns: seq<Rec>, id: int) {
    ValidId(ns, NodeNumber(id))
  }

  /** What a root id means in a file with the nodes `ns`: the edge denotes the function of the
      node, complemented exactly if the id is negative. */
  ghost predicate RootDenotes(s: Store, x: Edge, vars: seq<Level>, ns: seq<Rec>, id: int)
    requires Ordered(s) && Valid(s, x.to) && Numbered(ns) && RootIn(ns, id)
  {
    forall v, w :: Corresponds(vars, v, w) ==> Eval(s, x, v) == ((id < 0) != RecValue(ns, NodeNumber(id), w))
  }

  /** The id written for a root has the root's function, and the sign of its complement. */
  lemma RootWritten(s: Store, all: set<nat>, order: seq<nat>, vars: seq<Level>, x: Edge)
    requires Exportable(s, all, order, vars) && Has(all, x.to)
    ensures x.to.Ref? ==> x.to.id in order
    ensures var ns, id := Records(s, all, order, vars), RootId(order, x);
            && Ordered(s) && Valid(s, x.to) && Numbered(ns) && RootIn(ns, id)
            && (id < 0 <==> x.neg) && RootDenotes(s, x, vars, ns, id)
  {
    hide Canonical, Ordered, ClosedFrom, Records, Value, RecValue, Numbered, IndexOf, Corresponds, Numbering;
    RootNumber(s, all, order, vars, x);
    var ns, id := Records(s, all, order, vars), RootId(order, x);
    ExportedOrdered(s, all, order, vars);
    RecordsNumbered(s, all, order, vars);
    forall v, w | Corresponds(vars, v, w)
      ensures Eval(s, x, v) == ((id < 0) != RecValue(ns, NodeNumber(id), w))
    {
      RecordsValue(s, all, order, vars, x.to, v, w);
    }
  }

  /** The support variables have the same values in both valuations. */
  ghost predicate SameValuation(vars: seq<Level>, v: set<Level>, levels: seq<Level>, w: set<Level>) {
    |levels| == |vars| && forall i :: 0 <= i < |vars| ==> (vars[i] in v <==> levels[i] in w)
  }

  lemma AllStored(s: Store, all: set<nat>)
    requires ClosedFrom(s, all, 0)
    ensures all <= s.Keys
  {
  }

  lemma IsExportable(s: Store, all: set<nat>, order: seq<nat>, vars: seq<Level>)
    requires Canonical(s) && ClosedFrom(s, all, 0) && Numbering(s, all, order, vars)
    ensures Exportable(s, all, order, vars)
  {
  }

  lemma {:induction false} IncreasingSize(vars: seq<Level>, n: nat, i: nat)
    requires Increasing(vars) && i < |vars| && forall j :: 0 <= j < |vars| ==> vars[j] < n
    ensures i <= vars[i]
  {
    if i > 0 {
      IncreasingSize(vars, n, i - 1);
    }
  }

  lemma SizesFit(s: Store, all: set<nat>, order: seq<nat>, vars: seq<Level>, n: nat)
    requires Numbering(s, all, order, vars) && forall i :: 0 <= i < |vars| ==> vars[i] < n
    ensures |order| == |all| <= |s| && |vars| <= n
  {
    DistinctSize(order, all);
    SubsetSize(all, s.Keys);
    if |vars| > 0 {
      IncreasingSize(vars, n, |vars| - 1);
    }
  }

  lemma RootNumber(s: Store, all: set<nat>, order: seq<nat>, vars: seq<Level>, x: Edge)
    requires Exportable(s, all, order, vars) && Has(all, x.to)
    ensures (x.to.Ref? ==> x.to.id in order) && Valid(s, x.to) && 1 <= NodeNumber(RootId(order, x)) <= |order| + 1
  {
  }

  // --- The export loop -------------------------------------------------------

  /** Write the node records one after the other. */
  method ExportBin(ns: seq<Rec>, nvars: nat) returns (out: seq<Byte>)
    requires DumpOrdered(ns, nvars)
    ensures out == DumpBytes(ns, 0, nvars)
  {
    hide RecBytes;
    out := [];
    for k := 0 to |ns|
      invariant out + DumpBytes(ns, k, nvars) == DumpBytes(ns, 0, nvars)
    {
      assert RecOrdered(ns, k, nvars);
      var bytes := RecBytes(ns, k, nvars);
      assert out + (bytes + DumpBytes(ns, k + 1, nvars)) == out + bytes + DumpBytes(ns, k + 1, nvars);
      out := out + bytes;
    }
    assert out + [] == out;
  }

  // --- Export and import -----------------------------------------------------

  /** What a file holds: the node section, the number of nodes, the support variables (as
      levels of the exporting manager), and the root ids. */
  datatype Exported = Exported(bytes: seq<Byte>, nnodes: nat, vars: seq<Level>, rootIds: seq<int>)

  /** The bytes are records of the nodes `ns`. */
  ghost predicate FileOf(d: Exported, ns: seq<Rec>) {
    Remaining(d.bytes, ns, 0, |d.vars|, []) && d.nnodes == |ns|
  }

  /** The root ids name the functions of the edges, at the levels of the support variables. */
  ghost predicate RootsDenote(s: Store, roots: seq<Edge>, vars: seq<Level>, ns: seq<Rec>, ids: seq<int>) {
    && Ordered(s) && Numbered(ns) && |ids| == |roots|
    && forall k :: 0 <= k < |roots| ==>
         Valid(s, roots[k].to) && RootIn(ns, ids[k]) && RootDenotes(s, roots[k], vars, ns, ids[k])
  }

  method RootIds(s: Store, roots: seq<Edge>, ghost all: set<nat>, order: seq<nat>, ghost vars: seq<Level>)
    returns (ids: seq<int>)
    requires Exportable(s, all, order, vars) && forall k :: 0 <= k < |roots| ==> Has(all, roots[k].to)
    ensures RootsDenote(s, roots, vars, Records(s, all, order, vars), ids)
    ensures |ids| == |roots| && forall k :: 0 <= k < |roots| ==> (ids[k] < 0 <==> roots[k].neg)
  {
    hide Exportable, IdOf, Records, RootDenotes, Ordered, Numbered, Has;
    ids := [];
    ExportedOrdered(s, all, order, vars);
    RecordsNumbered(s, all, order, vars);
    ghost var ns := Records(s, all, order, vars);
    for k := 0 to |roots|
      invariant |ids| == k && forall j :: 0 <= j < k ==> (ids[j] < 0 <==> roots[j].neg)
      invariant forall j :: 0 <= j < k ==>
                  Valid(s, roots[j].to) && RootIn(ns, ids[j]) && RootDenotes(s, roots[j], vars, ns, ids[j])
    {
      RootWritten(s, all, order, vars, roots[k]);
      ids := ids + [RootId(order, roots[k])];
    }
  }

  /** Export the roots. The support variables are the levels of the nodes below the roots, and
      there is a record for each of these nodes and the terminal. Every root id has the
      function of its root, and is negative exactly for a complemented root. */
  method Export(s: Store, roots: seq<Edge>, numLevels: nat)
    returns (d: Exported, ghost all: set<nat>, ghost ns: seq<Rec>)
    requires Canonical(s) && LevelsBelow(s, numLevels) && |s| + 1 < WORD && numLevels < WORD
    requires forall k :: 0 <= k < |roots| ==> Valid(s, roots[k].to)
    ensures FileOf(d, ns) && RootsDenote(s, roots, d.vars, ns, d.rootIds)
    ensures forall k :: 0 <= k < |roots| ==> (d.rootIds[k] < 0 <==> roots[k].neg)
    ensures Ordered(s) && Populated(s, all, d.vars) && forall i :: i in all <==> UnderRoots(s, roots, i)
    ensures Support(s, all, d.vars) && forall j :: 0 <= j < |d.vars| ==> d.vars[j] < numLevels
    ensures d.nnodes == |all| + 1 <= |s| + 1
  {
    hide Canonical, Numbering, Exportable, Records, Dump, DumpBytes, ClosedFrom, UnderRoots, Has, Populated;
    hide RootsDenote, Support;
    CanonicalOrdered(s);
    var nodes := CollectRoots(s, roots);
    AllStored(s, nodes);
    var order, vars := Number(s, nodes, numLevels);
    all := nodes;
    IsExportable(s, all, order, vars);
    SizesFit(s, all, order, vars, numLevels);
    RecordsAreDump(s, all, order, vars);
    RecordsOrdered(s, all, order, vars);
    ns := Records(s, nodes, order, vars);
    var bytes := ExportBin(Records(s, nodes, order, vars), |vars|);
    DumpWritten(ns, 0, |vars|, []);
    assert bytes + [] == bytes;
    var ids := RootIds(s, roots, all, order, vars);
    d := Exported(bytes, |order| + 1, vars, ids);
    RootCount(s, roots, vars, ns, ids);
    ExportedOrdered(s, all, order, vars);
  }

  lemma RootCount(s: Store, roots: seq<Edge>, vars: seq<Level>, ns: seq<Rec>, ids: seq<int>)
    requires RootsDenote(s, roots, vars, ns, ids)
    ensures |ids| == |roots|
  {
  }

  lemma ExportedOrdered(s: Store, all: set<nat>, order: seq<nat>, vars: seq<Level>)
    requires Exportable(s, all, order, vars)
    ensures Ordered(s) && Support(s, all, vars)
  {
  }

  /** The edges for the root ids, with the complement of a negative id; `None` if an id is out of range. */
  method SelectRoots(nodes: seq<Edge>, ids: seq<int>) returns (x: Option<seq<Edge>>)
    ensures x.Some? <==> forall k :: 0 <= k < |ids| ==> 1 <= NodeNumber(ids[k]) <= |nodes|
    ensures x.Some? ==>
              && |x.value| == |ids|
              && forall k :: 0 <= k < |ids| ==>
                   && x.value[k].to == nodes[NodeNumber(ids[k]) - 1].to
                   && x.value[k].neg == ((ids[k] < 0) != nodes[NodeNumber(ids[k]) - 1].neg)
  {
    var roots: seq<Edge> := [];
    for k := 0 to |ids|
      invariant |roots| == k && forall j :: 0 <= j < k ==> 1 <= NodeNumber(ids[j]) <= |nodes|
      invariant forall j :: 0 <= j < k ==> roots[j].to == nodes[NodeNumber(ids[j]) - 1].to
      invariant forall j :: 0 <= j < k ==> roots[j].neg == ((ids[j] < 0) != nodes[NodeNumber(ids[j]) - 1].neg)
    {
      var index := NodeNumber(ids[k]) - 1;
      if !(0 <= index < |nodes|) {
        return None;
      }
      roots := roots + [if ids[k] > 0 then nodes[index] else Not(nodes[index])];
    }
    x := Some(roots);
  }

  lemma SelectedDenote(s: Store, nodes: seq<Edge>, levels: seq<Level>, ns: seq<Rec>, ids: seq<int>, x: seq<Edge>)
    requires Copies(s, nodes, levels, ns) && |x| == |ids|
    requires forall k :: 0 <= k < |ids| ==>
               && 1 <= NodeNumber(ids[k]) <= |nodes|
               && x[k].to == nodes[NodeNumber(ids[k]) - 1].to
               && x[k].neg == ((ids[k] < 0) != nodes[NodeNumber(ids[k]) - 1].neg)
    ensures RootsDenote(s, x, levels, ns, ids)
  {
    hide Ordered, Numbered, Value, RecValue, Corresponds;
    forall k | 0 <= k < |x|
      ensures Valid(s, x[k].to) && RootIn(ns, ids[k]) && RootDenotes(s, x[k], levels, ns, ids[k])
    {
      var id := NodeNumber(ids[k]);
      assert Denotes(s, nodes[id - 1], levels, ns, id);
    }
  }

  /** Import a file into a manager that has its support variables at the given levels.
      Whatever the file, the store stays canonical and keeps its nodes, and the imported roots
      denote what the root ids say about the nodes `file` that were read. It fails only at a node
      that cannot be read, is refused or finds the store full, or at a root id that names no node. If
      the bytes are records of a dump, the nodes read are its nodes, and the import succeeds exactly
      if all root ids name one of them, unless the store gets full. */
  method Import(d: Exported, r: Store, levels: seq<Level>, numLevels: nat, limit: nat, ghost ns: seq<Rec>)
    returns (r': Store, copies: Option<seq<Edge>>, ghost file: seq<Rec>)
    requires Canonical(r) && LevelMap(levels, numLevels) && LevelsBelow(r, numLevels) && |levels| == |d.vars|
    ensures Canonical(r') && Extends(r, r') && Ordered(r')
    ensures copies.Some? ==> RootsDenote(r', copies.value, levels, file, d.rootIds)
    ensures copies.Some? ==> ReadAll(d.bytes, d.nnodes).Ok? && exists nodes ::
              File(r', nodes, levels, numLevels, ReadAll(d.bytes, d.nnodes).value, file)
    ensures copies.None? ==>
              || (|file| < d.nnodes && exists nodes :: Stops(d.bytes, r', nodes, levels, numLevels, file, limit))
              || (|file| == d.nnodes && exists k :: 0 <= k < |d.rootIds| && !RootIn(file, d.rootIds[k]))
    ensures FileOf(d, ns) && copies.Some? ==> file == ns
    ensures FileOf(d, ns) && |r| + d.nnodes <= limit ==>
              (copies.Some? <==> forall k :: 0 <= k < |d.rootIds| ==> RootIn(ns, d.rootIds[k]))
  {
    hide Canonical, Mirrors, Remaining, Ordered, Copies, ReadAll, RootsDenote, Extends, LevelMap, LevelsBelow, Stops;
    hide Stands;
    var res;
    r', res, file := ImportBin(d.bytes, d.nnodes, r, levels, numLevels, limit, ns, []);
    CanonicalOrdered(r');
    if res.Err? {
      return r', None, file;
    }
    CopyCount(r', res.value, levels, file);
    copies := SelectRoots(res.value, d.rootIds);
    if copies.Some? {
      SelectedDenote(r', res.value, levels, file, d.rootIds, copies.value);
    }
  }

  lemma CopyCount(s: Store, nodes: seq<Edge>, levels: seq<Level>, ns: seq<Rec>)
    requires Copies(s, nodes, levels, ns)
    ensures |nodes| == |ns|
  {
  }

  /** The copy of a root denotes what the root denotes. */
  ghost predicate RootCopied(s: Store, x: Edge, vars: seq<Level>, r: Store, y: Edge, levels: seq<Level>)
    requires Ordered(s) && Ordered(r) && Valid(s, x.to) && Valid(r, y.to)
  {
    forall v, w :: SameValuation(vars, v, levels, w) ==> Eval(r, y, w) == Eval(s, x, v)
  }

  /** Export and import preserve the function of every root, for every valuation and
      for every way in which the importing manager places the support variables. */
  lemma RootsPreserved(s: Store, roots: seq<Edge>, vars: seq<Level>,
                       r: Store, copies: seq<Edge>, levels: seq<Level>, ns: seq<Rec>, ids: seq<int>, k: nat)
    requires RootsDenote(s, roots, vars, ns, ids) && RootsDenote(r, copies, levels, ns, ids)
    requires |levels| == |vars| && k < |ids|
    ensures Valid(s, roots[k].to) && Valid(r, copies[k].to) && RootCopied(s, roots[k], vars, r, copies[k], levels)
  {
    hide Ordered, Numbered, Eval, RecValue;
    assert RootDenotes(s, roots[k], vars, ns, ids[k]) && RootDenotes(r, copies[k], levels, ns, ids[k]);
    forall v, w | SameValuation(vars, v, levels, w)
      ensures Eval(r, copies[k], w) == Eval(s, roots[k], v)
    {
      var u := set i | 0 <= i < |vars| && vars[i] in v;
      assert Corresponds(vars, v, u) && Corresponds(levels, w, u);
    }
  }

  /** Round trip: importing an export into the manager it comes from, at the same levels,
      yields the very edges that were exported. */
  method RoundTrip(s: Store, roots: seq<Edge>, numLevels: nat, limit: nat) returns (r: Store, copies: Option<seq<Edge>>)
    requires Canonical(s) && LevelsBelow(s, numLevels) && |s| + 1 < WORD && numLevels <= TERMINAL_LEVEL
    requires forall k :: 0 <= k < |roots| ==> Valid(s, roots[k].to)
    ensures Canonical(r) && Extends(s, r)
    ensures 2 * |s| + 1 <= limit ==> copies.Some?
    ensures copies.Some? ==> copies.value == roots
  {
    hide Canonical, Ordered, FileOf, RootCopied, Increasing, UnderRoots, RootDenotes, Numbered, Populated, ReadAll;
    hide File;
    var d, all, ns := Export(s, roots, numLevels);
    ghost var file;
    r, copies, file := Import(d, s, d.vars, numLevels, limit, ns);
    if copies.Some? {
      forall k | 0 <= k < |roots|
        ensures copies.value[k] == roots[k]
      {
        RootsPreserved(s, roots, d.vars, r, copies.value, d.vars, ns, d.rootIds, k);
        SameRoot(s, roots[k], d.vars, r, copies.value[k]);
      }
    }
  }

  lemma SameRoot(s: Store, x: Edge, vars: seq<Level>, r: Store, y: Edge)
    requires Canonical(s) && Canonical(r) && Ordered(s) && Ordered(r) && Extends(s, r)
    requires Valid(s, x.to) && Valid(r, y.to) && RootCopied(s, x, vars, r, y, vars)
    ensures y == x
  {
    hide Canonical, Ordered, Value;
    forall v
      ensures Eval(r, y, v) == Eval(r, x, v)
    {
      assert SameValuation(vars, v, vars, v);
      ValueFrame(s, r, x.to, v);
    }
    Canonicity(r, y, x);
  }
}
