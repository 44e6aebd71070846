/** ASCII AIGER files: renumbering of the variables, topological normalisation of the
    gates, and the proof that every literal keeps its value. */
module Aiger {
  import opened Toposort

  /** Marks variables without a definition (`usize::MAX`). */
  const UNDEF: nat := 0xFFFF_FFFF_FFFF_FFFF

  const WORD: nat := UNDEF + 1

  /** What an even literal without a definition is mapped to. */
  const GARBAGE: Lit := UNDEF - 1

  /** The parser rejects larger numbers (`MAX_CAPACITY`). */
  const MAX_NUMBER: nat := UNDEF / 2 / 8

  /** A parsed file: the definitions of inputs, latches and gates, and the referencing
      literals (latch inputs, outputs, bad states, invariants, justice, fairness), by kind. */
  datatype File = File(
    maxVar: nat, inputs: seq<Lit>, latches: seq<Lit>, gates: seq<(Lit, Lit, Lit)>, groups: seq<seq<Lit>>) {

    /** The number of definitions. */
    function Size(): nat {
      |inputs| + |latches| + |gates|
    }

    /** The variable of the p-th definition. It becomes the variable p + 1. */
    function Def(p: nat): nat
      requires p < Size()
    {
      if p < |inputs| then inputs[p] / 2
      else if p < |inputs| + |latches| then latches[p - |inputs|] / 2
      else gates[p - |inputs| - |latches|].0 / 2
    }

    /** The first variable of a gate, after renumbering. */
    function First(): nat {
      1 + |inputs| + |latches|
    }

    /** What the literal and header parsers check. */
    predicate InRange() {
      && Size() <= maxVar <= MAX_NUMBER && (forall p :: 0 <= p < Size() ==> Def(p) <= maxVar)
      && (forall i :: 0 <= i < |gates| ==> gates[i].1 / 2 <= maxVar && gates[i].2 / 2 <= maxVar)
      && (forall g, k :: 0 <= g < |groups| && 0 <= k < |groups[g]| ==> groups[g][k] / 2 <= maxVar)
    }

    predicate Defines(v: nat) {
      v == 0 || exists p :: 0 <= p < Size() && Def(p) == v
    }

    /** The inputs of all gates are defined. */
    predicate InputsDefined() {
      forall i :: 0 <= i < |gates| ==> Defines(gates[i].1 / 2) && Defines(gates[i].2 / 2)
    }

    /** The referencing literals are defined. */
    predicate GroupsDefined() {
      forall g, k :: 0 <= g < |groups| && 0 <= k < |groups[g]| ==> Defines(groups[g][k] / 2)
    }

    /** A gate input or a referencing literal. */
    predicate References(l: Lit) {
      || (exists i :: 0 <= i < |gates| && (gates[i].1 == l || gates[i].2 == l))
      || (exists g, k :: 0 <= g < |groups| && 0 <= k < |groups[g]| && groups[g][k] == l)
    }

    /** Some referenced literal is odd and has no definition. */
    ghost predicate OddUndefined() {
      exists l: Lit :: References(l) && !Defines(l / 2) && l % 2 == 1
    }

    /** No variable is defined twice, and the constant 0 is not defined at all. */
    predicate DefinedOnce() {
      && (forall p :: 0 <= p < Size() ==> Def(p) != 0)
      && (forall p, q :: 0 <= p < q < Size() ==> Def(p) != Def(q))
    }

    predicate GatesPositive() {
      forall i :: 0 <= i < |gates| ==> gates[i].0 % 2 == 0
    }
  }

  /** An and-inverter graph: variable 0 is false, then the inputs, the latches and the gates. */
  datatype Aig = Aig(inputs: nat, latches: nat, gates: seq<(Lit, Lit)>, groups: seq<seq<Lit>>) {
    function First(): nat {
      1 + inputs + latches
    }

    /** The inputs of every gate precede it, the larger one comes first. */
    predicate Topological() {
      forall j :: 0 <= j < |gates| ==> gates[j].1 <= gates[j].0 < 2 * (First() + j)
    }
  }

  /** The multiplication wraps around for undefined variables. */
  function MapLit(m: seq<nat>, l: Lit): Lit
    requires l / 2 < |m|
  {
    m[l / 2] * 2 % WORD + l % 2
  }

  /** Variables are mapped to variables of the graph or marked as undefined. */
  predicate Bounded(m: seq<nat>) {
    forall v :: 0 <= v < |m| ==> m[v] <= MAX_NUMBER || m[v] == UNDEF
  }

  function Descending(a: Lit, b: Lit): (Lit, Lit) {
    if a >= b then (a, b) else (b, a)
  }

  /** `a` is the file `f` with its variables renamed by `m`. */
  ghost predicate Renamed(f: File, a: Aig, m: seq<nat>)
    requires f.InRange()
  {
    && |m| == f.maxVar + 1 && m[0] == 0 && Bounded(m)
    && a.inputs == |f.inputs| && a.latches == |f.latches| && |a.gates| == |f.gates|
    && (forall p :: 0 <= p < |f.inputs| + |f.latches| ==> m[f.Def(p)] == p + 1)
    && (forall i :: 0 <= i < |f.gates| ==> GateRenamed(f, a, m, i))
    && |a.groups| == |f.groups|
    && (forall g :: 0 <= g < |f.groups| ==> GroupRenamed(f, a, m, g))
  }

  ghost predicate GateRenamed(f: File, a: Aig, m: seq<nat>, i: nat)
    requires f.InRange() && |m| == f.maxVar + 1 && i < |f.gates| == |a.gates|
  {
    var p := f.First() - 1 + i;
    && f.First() <= m[f.Def(p)] < f.First() + |f.gates|
    && a.gates[m[f.Def(p)] - f.First()] == Descending(MapLit(m, f.gates[i].1), MapLit(m, f.gates[i].2))
  }

  ghost predicate GroupRenamed(f: File, a: Aig, m: seq<nat>, g: nat)
    requires f.InRange() && |m| == f.maxVar + 1 && g < |f.groups| == |a.groups|
  {
    && |a.groups[g]| == |f.groups[g]|
    && forall k :: 0 <= k < |f.groups[g]| ==> a.groups[g][k] == MapLit(m, f.groups[g][k])
  }

  // --- Meaning ---------------------------------------------------------------

  predicate LitValue(val: seq<bool>, l: Lit)
    requires l / 2 < |val|
  {
    val[l / 2] != (l % 2 == 1)
  }

  /** A valuation of the file's variables that satisfies all gates and agrees with the
      values `base` of inputs and latches. */
  ghost predicate Solution(f: File, val: seq<bool>, base: seq<bool>)
    requires f.InRange()
  {
    && |val| == f.maxVar + 1 && !val[0] && |base| == |f.inputs| + |f.latches|
    && (forall p :: 0 <= p < |base| ==> val[f.Def(p)] == base[p])
    && (forall i :: 0 <= i < |f.gates| ==>
          val[f.Def(f.First() - 1 + i)] == (LitValue(val, f.gates[i].1) && LitValue(val, f.gates[i].2)))
  }

  /** The value of a variable of a graph, given the values of inputs and latches. */
  predicate Value(a: Aig, base: seq<bool>, v: nat)
    requires a.Topological() && |base| == a.inputs + a.latches && v < a.First() + |a.gates|
    decreases v
  {
    if v == 0 then false
    else if v < a.First() then base[v - 1]
    else
      var g := a.gates[v - a.First()];
      ValueOf(a, base, v, g.0) && ValueOf(a, base, v, g.1)
  }

  predicate ValueOf(a: Aig, base: seq<bool>, bound: nat, l: Lit)
    requires a.Topological() && |base| == a.inputs + a.latches && bound <= a.First() + |a.gates| && l / 2 < bound
    decreases bound, 0
  {
    Value(a, base, l / 2) != (l % 2 == 1)
  }

  lemma MapLitParts(m: seq<nat>, l: Lit)
    requires l / 2 < |m| && (m[l / 2] <= MAX_NUMBER || m[l / 2] == UNDEF)
    ensures m[l / 2] != UNDEF ==> MapLit(m, l) / 2 == m[l / 2] && MapLit(m, l) % 2 == l % 2
    ensures m[l / 2] == UNDEF ==> MapLit(m, l) == GARBAGE + l % 2
  {
    if m[l / 2] == UNDEF {
      assert UNDEF * 2 % WORD == GARBAGE;
    }
  }

  /** A renamed gate comes after its inputs and is their conjunction. */
  lemma GateValue(f: File, a: Aig, m: seq<nat>, base: seq<bool>, i: nat)
    requires f.InRange() && Renamed(f, a, m) && a.Topological() && |base| == a.inputs + a.latches && i < |f.gates|
    ensures var v, x, y := m[f.Def(f.First() - 1 + i)], f.gates[i].1, f.gates[i].2;
            && m[x / 2] < v && m[y / 2] < v < a.First() + |a.gates|
            && (Value(a, base, v) <==>
                  Value(a, base, m[x / 2]) != (x % 2 == 1) && Value(a, base, m[y / 2]) != (y % 2 == 1))
  {
    assert GateRenamed(f, a, m, i);
    hide MapLit;
    MapLitParts(m, f.gates[i].1);
    MapLitParts(m, f.gates[i].2);
  }

  lemma BasePreserved(f: File, a: Aig, m: seq<nat>, val: seq<bool>, base: seq<bool>, v: nat)
    requires f.InRange() && Renamed(f, a, m) && a.Topological() && Solution(f, val, base) && v <= f.maxVar
    requires v == 0 || exists p :: 0 <= p < f.First() - 1 && f.Def(p) == v
    ensures m[v] < a.First() && Value(a, base, m[v]) == val[v]
  {
    hide GateRenamed, GroupRenamed, Aig.Topological;
  }

  lemma GatePreserved(f: File, a: Aig, m: seq<nat>, val: seq<bool>, base: seq<bool>, i: nat)
    requires f.InRange() && Renamed(f, a, m) && a.Topological() && Solution(f, val, base) && i < |f.gates|
    requires var x, y, n := f.gates[i].1 / 2, f.gates[i].2 / 2, a.First() + |a.gates|;
             && m[x] < n && Value(a, base, m[x]) == val[x]
             && m[y] < n && Value(a, base, m[y]) == val[y]
    ensures var v := f.Def(f.First() - 1 + i);
            m[v] < a.First() + |a.gates| && Value(a, base, m[v]) == val[v]
  {
    hide GateRenamed, GroupRenamed, Aig.Topological, Value;
    GateValue(f, a, m, base, i);
  }

  lemma FindGate(f: File, v: nat) returns (i: nat)
    requires f.Defines(v) && v != 0 && forall p :: 0 <= p < f.First() - 1 ==> f.Def(p) != v
    ensures i < |f.gates| && f.Def(f.First() - 1 + i) == v
  {
    var p :| 0 <= p < f.Size() && f.Def(p) == v;
    i := p - (f.First() - 1);
  }

  /** In every solution of the file, a defined variable has the value of its renamed variable. */
  lemma {:induction false} VariablePreserved(f: File, a: Aig, m: seq<nat>, val: seq<bool>, base: seq<bool>, v: nat)
    requires f.InRange() && f.InputsDefined() && Renamed(f, a, m) && a.Topological() && Solution(f, val, base)
    requires v <= f.maxVar && f.Defines(v)
    ensures m[v] < a.First() + |a.gates| && Value(a, base, m[v]) == val[v]
    decreases m[v]
  {
    hide GateRenamed, GroupRenamed, Aig.Topological, Value, File.Def, File.Defines;
    if v == 0 || exists p :: 0 <= p < f.First() - 1 && f.Def(p) == v {
      BasePreserved(f, a, m, val, base, v);
    } else {
      var i := FindGate(f, v);
      GateValue(f, a, m, base, i);
      VariablePreserved(f, a, m, val, base, f.gates[i].1 / 2);
      VariablePreserved(f, a, m, val, base, f.gates[i].2 / 2);
      GatePreserved(f, a, m, val, base, i);
    }
  }

  lemma ValueBase(a: Aig, base: seq<bool>)
    requires a.Topological() && |base| == a.inputs + a.latches
    ensures !Value(a, base, 0) && forall k :: 0 < k <= |base| ==> Value(a, base, k) == base[k - 1]
  {
    hide Aig.Topological;
  }

  /** Give every variable of the file the value of its renamed variable. */
  ghost function Induced(f: File, a: Aig, m: seq<nat>, base: seq<bool>): (val: seq<bool>)
    requires f.InRange() && |m| == f.maxVar + 1 && a.Topological() && |base| == a.inputs + a.latches
    ensures |val| == |m|
    ensures forall v :: 0 <= v < |m| ==> (val[v] <==> m[v] < a.First() + |a.gates| && Value(a, base, m[v]))
  {
    seq(|m|, v requires 0 <= v < |m| => m[v] < a.First() + |a.gates| && Value(a, base, m[v]))
  }

  lemma InducedGate(f: File, a: Aig, m: seq<nat>, base: seq<bool>, i: nat)
    requires f.InRange() && Renamed(f, a, m) && a.Topological() && |base| == a.inputs + a.latches && i < |f.gates|
    ensures var val := Induced(f, a, m, base);
            val[f.Def(f.First() - 1 + i)] == (LitValue(val, f.gates[i].1) && LitValue(val, f.gates[i].2))
  {
    hide GateRenamed, GroupRenamed, Aig.Topological, Value, Induced;
    GateValue(f, a, m, base, i);
  }

  /** The file has a solution for all values of inputs and latches. */
  lemma SolutionExists(f: File, a: Aig, m: seq<nat>, base: seq<bool>)
    requires f.InRange() && Renamed(f, a, m) && a.Topological() && |base| == a.inputs + a.latches
    ensures Solution(f, Induced(f, a, m, base), base)
  {
    hide GateRenamed, GroupRenamed, Aig.Topological, Value, Induced, LitValue;
    ValueBase(a, base);
    forall i | 0 <= i < |f.gates|
      ensures var val := Induced(f, a, m, base);
              val[f.Def(f.First() - 1 + i)] == (LitValue(val, f.gates[i].1) && LitValue(val, f.gates[i].2))
    {
      InducedGate(f, a, m, base, i);
    }
  }

  lemma SolutionSize(f: File, val: seq<bool>, base: seq<bool>)
    requires f.InRange() && Solution(f, val, base)
    ensures |val| == f.maxVar + 1 && |base| == |f.inputs| + |f.latches|
  {
  }

  /** Every defined referencing literal of the produced graph has the value it has in the
      file, for all values of inputs and latches. */
  lemma LiteralPreserved(f: File, a: Aig, m: seq<nat>, val: seq<bool>, base: seq<bool>, g: nat, k: nat)
    requires f.InRange() && f.InputsDefined() && Renamed(f, a, m) && a.Topological() && Solution(f, val, base)
    requires g < |f.groups| && k < |f.groups[g]| && f.Defines(f.groups[g][k] / 2)
    ensures |a.groups| == |f.groups| && |a.groups[g]| == |f.groups[g]|
    ensures a.groups[g][k] / 2 < a.First() + |a.gates|
    ensures ValueOf(a, base, a.First() + |a.gates|, a.groups[g][k]) == LitValue(val, f.groups[g][k])
  {
    hide Value, Aig.Topological, GateRenamed, Solution, File.Defines;
    assert GroupRenamed(f, a, m, g);
    hide MapLit;
    MapLitParts(m, f.groups[g][k]);
    SolutionSize(f, val, base);
    VariablePreserved(f, a, m, val, base, f.groups[g][k] / 2);
  }

  // --- Renumbering -----------------------------------------------------------

  /** The first `n` definitions have been numbered, everything else is undefined. */
  ghost predicate Numbered(f: File, m: seq<nat>, n: nat)
    requires f.InRange() && n <= f.Size()
  {
    && |m| == f.maxVar + 1 && m[0] == 0
    && (forall p :: 0 <= p < n ==> f.Def(p) != 0 && m[f.Def(p)] == p + 1)
    && (forall p, q :: 0 <= p < q < n ==> f.Def(p) != f.Def(q))
    && (forall v :: 0 < v < |m| && (forall p :: 0 <= p < n ==> f.Def(p) != v) ==> m[v] == UNDEF)
  }

  /** Number the p-th definition; fails on a second definition of its variable. */
  method Define(f: File, varMap: array<nat>, p: nat) returns (ok: bool)
    requires f.InRange() && p < f.Size() && Numbered(f, varMap[..], p)
    modifies varMap
    ensures ok ==> Numbered(f, varMap[..], p + 1)
    ensures !ok ==> !f.DefinedOnce()
  {
    var v := f.Def(p);
    if varMap[v] != UNDEF {
      if v != 0 {
        assert exists q :: 0 <= q < p && f.Def(q) == v;
      }
      return false;
    }
    assert forall q :: 0 <= q < p ==> f.Def(q) != v;
    varMap[v] := p + 1;
    assert varMap[..] == old(varMap[..])[v := p + 1];
    ok := true;
  }

  datatype DefineResult = Defined | SecondDefinition | NegativeGate

  /** Number inputs, latches and gates, in this order. */
  method DefineAll(f: File, varMap: array<nat>) returns (r: DefineResult)
    requires f.InRange() && varMap.Length == f.maxVar + 1 && varMap[0] == 0
    requires forall v :: 0 < v < varMap.Length ==> varMap[v] == UNDEF
    modifies varMap
    ensures r.Defined? ==> Numbered(f, varMap[..], f.Size()) && f.GatesPositive()
    ensures r.SecondDefinition? ==> !f.DefinedOnce()
    ensures r.NegativeGate? ==> !f.GatesPositive()
  {
    hide Numbered, File.Def, File.DefinedOnce;
    NoneNumbered(f, varMap[..]);
    for i := 0 to |f.inputs|
      invariant Numbered(f, varMap[..], i)
    {
      var ok := Define(f, varMap, i);
      if !ok {
        return SecondDefinition;
      }
    }
    for i := 0 to |f.latches|
      invariant Numbered(f, varMap[..], |f.inputs| + i)
    {
      var ok := Define(f, varMap, |f.inputs| + i);
      if !ok {
        return SecondDefinition;
      }
    }
    for i := 0 to |f.gates|
      invariant Numbered(f, varMap[..], |f.inputs| + |f.latches| + i)
      invariant forall j :: 0 <= j < i ==> f.gates[j].0 % 2 == 0
    {
      if f.gates[i].0 % 2 == 1 {
        return NegativeGate;
      }
      var ok := Define(f, varMap, |f.inputs| + |f.latches| + i);
      if !ok {
        return SecondDefinition;
      }
    }
    r := Defined;
  }

  lemma NoneNumbered(f: File, m: seq<nat>)
    requires f.InRange() && |m| == f.maxVar + 1 && m[0] == 0 && forall v :: 0 < v < |m| ==> m[v] == UNDEF
    ensures Numbered(f, m, 0)
  {
  }

  lemma NumberedOnce(f: File, m: seq<nat>)
    requires f.InRange() && Numbered(f, m, f.Size())
    ensures f.DefinedOnce()
  {
  }

  // --- Mapping literals ------------------------------------------------------

  method MapSlice(m: seq<nat>, slice: seq<Lit>) returns (out: seq<Lit>)
    requires forall k :: 0 <= k < |slice| ==> slice[k] / 2 < |m|
    ensures |out| == |slice| && forall k :: 0 <= k < |slice| ==> out[k] == MapLit(m, slice[k])
  {
    out := [];
    for k := 0 to |slice|
      invariant |out| == k && forall j :: 0 <= j < k ==> out[j] == MapLit(m, slice[j])
    {
      out := out + [MapLit(m, slice[k])];
    }
  }

  ghost predicate GroupsMapped(f: File, m: seq<nat>, groups: seq<seq<Lit>>, n: nat)
    requires f.InRange() && |m| == f.maxVar + 1
  {
    && n <= |groups| && n <= |f.groups|
    && (forall g :: 0 <= g < n ==> |groups[g]| == |f.groups[g]|)
    && (forall g, k :: 0 <= g < n && 0 <= k < |groups[g]| ==> groups[g][k] == MapLit(m, f.groups[g][k]))
  }

  method MapGroups(f: File, m: seq<nat>) returns (groups: seq<seq<Lit>>)
    requires f.InRange() && |m| == f.maxVar + 1
    ensures |groups| == |f.groups| && GroupsMapped(f, m, groups, |groups|)
  {
    groups := [];
    for g := 0 to |f.groups|
      invariant |groups| == g && GroupsMapped(f, m, groups, g)
    {
      var slice := MapSlice(m, f.groups[g]);
      groups := groups + [slice];
    }
  }

  ghost predicate GatesMapped(f: File, m: seq<nat>, gates: seq<(Lit, Lit)>, n: nat)
    requires f.InRange() && |m| == f.maxVar + 1
  {
    && n <= |gates| && n <= |f.gates|
    && forall i :: 0 <= i < n ==> gates[i] == Descending(MapLit(m, f.gates[i].1), MapLit(m, f.gates[i].2))
  }

  /** Map the gate inputs and find out whether the gates are in topological order already. */
  method MapGates(f: File, m: seq<nat>) returns (gates: seq<(Lit, Lit)>, sorted: bool)
    requires f.InRange() && |m| == f.maxVar + 1
    ensures |gates| == |f.gates| && GatesMapped(f, m, gates, |gates|)
    ensures sorted <==> forall i :: 0 <= i < |gates| ==> gates[i].0 < 2 * (f.First() + i)
  {
    gates, sorted := [], true;
    for i := 0 to |f.gates|
      invariant |gates| == i && GatesMapped(f, m, gates, i)
      invariant sorted <==> forall j :: 0 <= j < i ==> gates[j].0 < 2 * (f.First() + j)
    {
      gates := gates + [Descending(MapLit(m, f.gates[i].1), MapLit(m, f.gates[i].2))];
      sorted := sorted && gates[i].0 < 2 * (f.First() + i);
    }
  }

  // --- Undefined literals ----------------------------------------------------

  lemma NumberedBounded(f: File, m: seq<nat>)
    requires f.InRange() && Numbered(f, m, f.Size())
    ensures Bounded(m) && forall v :: 0 <= v < |m| ==> (m[v] == UNDEF <==> !f.Defines(v))
  {
    forall v | 0 <= v < |m|
      ensures if f.Defines(v) then m[v] <= f.Size() else m[v] == UNDEF
    {
      if v != 0 && f.Defines(v) {
        var p :| 0 <= p < f.Size() && f.Def(p) == v;
      }
    }
  }

  /** The code takes a literal for undefined if all bits of the mapped literal are set. Of
      the undefined literals these are only the odd ones. */
  lemma OddRecognised(f: File, m: seq<nat>, l: Lit)
    requires f.InRange() && Numbered(f, m, f.Size()) && l / 2 < |m|
    ensures MapLit(m, l) == UNDEF <==> !f.Defines(l / 2) && l % 2 == 1
    ensures !f.Defines(l / 2) && l % 2 == 0 ==> MapLit(m, l) == GARBAGE
  {
    hide MapLit, Numbered, File.Defines;
    NumberedBounded(f, m);
    MapLitParts(m, l);
  }

  /** What has been seen in a part of the file. */
  ghost predicate Seen(f: File, lits: set<Lit>, odd: bool) {
    odd <==> exists l: Lit :: l in lits && !f.Defines(l / 2) && l % 2 == 1
  }

  method SeeLiteral(f: File, m: seq<nat>, l: Lit, ghost lits: set<Lit>, odd: bool) returns (odd': bool)
    requires f.InRange() && Numbered(f, m, f.Size()) && l / 2 < |m| && Seen(f, lits, odd)
    ensures Seen(f, lits + {l}, odd')
  {
    hide MapLit, Numbered, File.Defines;
    OddRecognised(f, m, l);
    odd' := odd || MapLit(m, l) == UNDEF;
  }

  /** Look for literals that are recognised as undefined. */
  method FindUndefined(f: File, m: seq<nat>) returns (odd: bool)
    requires f.InRange() && Numbered(f, m, f.Size()) && |m| == f.maxVar + 1
    ensures odd <==> f.OddUndefined()
  {
    hide Numbered, Seen, File.Defines, File.Def;
    odd := false;
    ghost var lits: set<Lit> := {};
    NothingSeen(f);
    for g := 0 to |f.groups|
      invariant Seen(f, lits, odd)
      invariant forall l: Lit :: l in lits <==>
                  exists h, k :: 0 <= h < g && 0 <= k < |f.groups[h]| && f.groups[h][k] == l
    {
      for k := 0 to |f.groups[g]|
        invariant Seen(f, lits, odd)
        invariant forall l: Lit :: l in lits <==>
                    ((exists h, j :: 0 <= h < g && 0 <= j < |f.groups[h]| && f.groups[h][j] == l)
                     || (exists j :: 0 <= j < k && f.groups[g][j] == l))
      {
        odd := SeeLiteral(f, m, f.groups[g][k], lits, odd);
        lits := lits + {f.groups[g][k]};
      }
    }
    ghost var inGroups := lits;
    for i := 0 to |f.gates|
      invariant Seen(f, lits, odd)
      invariant forall l: Lit :: l in lits <==>
                  l in inGroups || exists j :: 0 <= j < i && (f.gates[j].1 == l || f.gates[j].2 == l)
    {
      odd := SeeLiteral(f, m, f.gates[i].1, lits, odd);
      odd := SeeLiteral(f, m, f.gates[i].2, lits + {f.gates[i].1}, odd);
      lits := lits + {f.gates[i].1} + {f.gates[i].2};
    }
    AllSeen(f, lits, odd);
  }

  lemma NothingSeen(f: File)
    ensures Seen(f, {}, false)
  {
  }

  lemma AllSeen(f: File, lits: set<Lit>, odd: bool)
    requires Seen(f, lits, odd) && forall l: Lit :: l in lits <==> f.References(l)
    ensures odd <==> f.OddUndefined()
  {
  }

  // --- Normalisation ---------------------------------------------------------

  /** Gate `j` of the file is an input of gate `i`. */
  predicate Uses(f: File, i: nat, j: nat) {
    i < |f.gates| && j < |f.gates| && (f.gates[i].1 / 2 == f.gates[j].0 / 2 || f.gates[i].2 / 2 == f.gates[j].0 / 2)
  }

  predicate RanksGates(f: File, rank: seq<nat>) {
    |rank| == |f.gates| && forall i, j :: 0 <= i < |rank| && 0 <= j < |rank| && Uses(f, i, j) ==> rank[j] < rank[i]
  }

  /** The gates are in topological order already. */
  predicate InOrder(f: File) {
    forall i, j :: 0 <= i < |f.gates| && 0 <= j < |f.gates| && Uses(f, i, j) ==> j < i
  }

  /** No gate depends on itself. */
  ghost predicate GatesAcyclic(f: File) {
    exists rank :: RanksGates(f, rank)
  }

  /** The mapped number of a variable, which is that of a gate exactly if it is the gate. */
  lemma DefinedNumber(f: File, m: seq<nat>, v: nat)
    requires f.InRange() && Numbered(f, m, f.Size()) && v <= f.maxVar
    ensures if f.Defines(v) then m[v] <= f.Size() else m[v] == UNDEF
    ensures forall i :: 0 <= i < |f.gates| ==> (m[v] == f.First() + i <==> v == f.gates[i].0 / 2)
  {
    NumberedBounded(f, m);
    forall i | 0 <= i < |f.gates|
      ensures m[v] == f.First() + i <==> v == f.gates[i].0 / 2
    {
      assert f.Def(f.First() - 1 + i) == f.gates[i].0 / 2;
      if v != 0 && f.Defines(v) {
        var p :| 0 <= p < f.Size() && f.Def(p) == v;
      }
    }
    if v != 0 && f.Defines(v) {
      var p :| 0 <= p < f.Size() && f.Def(p) == v;
    }
  }

  /** A mapped literal: its variable exists in the graph exactly if it is defined. */
  lemma MappedLit(f: File, m: seq<nat>, l: Lit)
    requires f.InRange() && Numbered(f, m, f.Size()) && |m| == f.maxVar + 1 && l / 2 <= f.maxVar
    ensures MapLit(m, l) / 2 < f.First() + |f.gates| <==> f.Defines(l / 2)
    ensures forall j :: 0 <= j < |f.gates| ==> (MapLit(m, l) / 2 == f.First() + j <==> l / 2 == f.gates[j].0 / 2)
    ensures f.Defines(l / 2) ==> MapLit(m, l) / 2 == m[l / 2] && MapLit(m, l) % 2 == l % 2
    ensures !f.Defines(l / 2) ==> MapLit(m, l) == GARBAGE + l % 2
  {
    hide Numbered, File.Defines, MapLit;
    NumberedBounded(f, m);
    DefinedNumber(f, m, l / 2);
    MapLitParts(m, l);
  }

  lemma MappedGate(f: File, m: seq<nat>, gates: seq<(Lit, Lit)>, i: nat)
    requires f.InRange() && Numbered(f, m, f.Size()) && |m| == f.maxVar + 1
    requires |gates| == |f.gates| && GatesMapped(f, m, gates, |gates|) && i < |gates|
    ensures gates[i].1 <= gates[i].0
    ensures Graph(gates, f.First()).GateDefined(i) <==> f.Defines(f.gates[i].1 / 2) && f.Defines(f.gates[i].2 / 2)
    ensures forall j :: 0 <= j < |gates| ==>
              (gates[i].0 / 2 == f.First() + j || gates[i].1 / 2 == f.First() + j <==> Uses(f, i, j))
  {
    hide Numbered, File.Defines, MapLit;
    MappedLit(f, m, f.gates[i].1);
    MappedLit(f, m, f.gates[i].2);
  }

  /** The graph of the mapped gates is the graph of the file's gates. */
  lemma SameGraph(f: File, m: seq<nat>, gates: seq<(Lit, Lit)>)
    requires f.InRange() && Numbered(f, m, f.Size()) && |m| == f.maxVar + 1
    requires |gates| == |f.gates| && GatesMapped(f, m, gates, |gates|)
    ensures var g := Graph(gates, f.First());
            && (g.Defined() <==> f.InputsDefined()) && (forall i, j :: g.Edge(i, j) <==> Uses(f, i, j))
            && (g.Acyclic() <==> GatesAcyclic(f))
  {
    hide Numbered, GatesMapped, File.Defines, Graph.GateDefined;
    var g := Graph(gates, f.First());
    forall i | 0 <= i < |gates|
      ensures g.GateDefined(i) <==> f.Defines(f.gates[i].1 / 2) && f.Defines(f.gates[i].2 / 2)
      ensures forall j :: 0 <= j < |gates| ==> (g.Edge(i, j) <==> Uses(f, i, j))
    {
      MappedGate(f, m, gates, i);
    }
    assert forall i, j :: g.Edge(i, j) <==> Uses(f, i, j);
    if g.Acyclic() {
      var rank: seq<nat> :| |rank| == |g.gates| && g.Ranked(rank);
      assert RanksGates(f, rank);
    }
    if GatesAcyclic(f) {
      var rank :| RanksGates(f, rank);
      assert g.Ranked(rank);
    }
  }

  /** The outcome of parsing; `OutOfRange` stands for an access beyond the end of a vector. */
  datatype Parsed = Parsed(aig: Aig) | SecondDef | NegativeGateLit | UndefinedLit | DependsOnItself | OutOfRange

  /** The renaming of the file's variables once the gates have been renumbered by `num`. */
  ghost function Composed(f: File, m: seq<nat>, num: seq<nat>): (r: seq<nat>)
    requires |num| >= f.First() + |f.gates|
    ensures |r| == |m| && forall v :: 0 <= v < |m| ==> r[v] == Renumber(f, num, m[v])
  {
    seq(|m|, v requires 0 <= v < |m| => Renumber(f, num, m[v]))
  }

  function Renumber(f: File, num: seq<nat>, v: nat): nat
    requires |num| >= f.First() + |f.gates|
  {
    if f.First() <= v < f.First() + |f.gates| then num[v] else v
  }

  /** Map a literal whose variable is a gate. */
  function Remap(first: nat, num: seq<nat>, l: Lit): Lit
    requires l / 2 < first || l / 2 < |num|
  {
    if l / 2 >= first then MapLit(num, l) else l
  }

  /** The gates in their new places, with renumbered inputs. */
  ghost predicate Placed(g: Graph, num: seq<nat>, mapped: seq<(Lit, Lit)>, n: nat)
    requires g.Defined() && g.first + |g.gates| <= |num|
  {
    && |mapped| == |g.gates| && n <= |g.gates|
    && forall i :: 0 <= i < n ==>
         && g.GateDefined(i) && g.first <= Var(g, num, i) < g.first + |g.gates|
         && mapped[Var(g, num, i) - g.first]
            == Descending(Remap(g.first, num, g.gates[i].0), Remap(g.first, num, g.gates[i].1))
  }

  method PlaceGates(g: Graph, num: seq<nat>) returns (mapped: seq<(Lit, Lit)>)
    requires g.Defined() && Sorted(g, num)
    ensures Placed(g, num, mapped, |g.gates|)
  {
    hide Graph.Edge, Remap;
    mapped := seq(|g.gates|, _ => (0, 0));
    for i := 0 to |g.gates|
      invariant Placed(g, num, mapped, i)
    {
      assert g.GateDefined(i);
      var j := Var(g, num, i) - g.first;
      mapped := mapped[j := Descending(Remap(g.first, num, g.gates[i].0), Remap(g.first, num, g.gates[i].1))];
    }
  }

  /** A renumbered input precedes its gate. */
  lemma InputBefore(g: Graph, num: seq<nat>, i: nat, l: Lit)
    requires g.GateDefined(i) && Sorted(g, num) && (l == g.gates[i].0 || l == g.gates[i].1)
    requires g.first + |g.gates| <= MAX_NUMBER + 1
    ensures Remap(g.first, num, l) < 2 * Var(g, num, i)
  {
    hide MapLit;
    if l / 2 >= g.first {
      assert g.Edge(i, l / 2 - g.first);
      assert Var(g, num, l / 2 - g.first) == num[l / 2];
      MapLitParts(num, l);
    }
  }

  lemma PlacedTopological(g: Graph, num: seq<nat>, mapped: seq<(Lit, Lit)>, j: nat)
    requires g.Defined() && Sorted(g, num) && Placed(g, num, mapped, |g.gates|) && j < |mapped|
    requires g.first + |g.gates| <= MAX_NUMBER + 1
    ensures mapped[j].1 <= mapped[j].0 < 2 * (g.first + j)
  {
    hide Sorted, Remap;
    SortedSize(g, num);
    var i := SortedOnto(g, num, g.first + j);
    assert g.GateDefined(i);
    InputBefore(g, num, i, g.gates[i].0);
    InputBefore(g, num, i, g.gates[i].1);
  }

  lemma SortedSize(g: Graph, num: seq<nat>)
    requires Sorted(g, num)
    ensures g.first + |g.gates| <= |num|
    ensures forall v :: g.first <= v < g.first + |g.gates| ==> g.first <= num[v] < g.first + |g.gates|
  {
    forall v | g.first <= v < g.first + |g.gates|
      ensures g.first <= num[v] < g.first + |g.gates|
    {
      assert Var(g, num, v - g.first) == num[v];
    }
  }

  /** The numbers of the gates stay within the gates. */
  predicate Permutes(f: File, num: seq<nat>) {
    && f.First() + |f.gates| <= |num|
    && forall v :: f.First() <= v < f.First() + |f.gates| ==> f.First() <= num[v] < f.First() + |f.gates|
  }

  /** Mapping twice is mapping with the composed renaming. */
  lemma RemapComposed(f: File, m: seq<nat>, num: seq<nat>, l: Lit)
    requires f.InRange() && Numbered(f, m, f.Size()) && f.Defines(l / 2) && l / 2 < |m| == f.maxVar + 1
    requires Permutes(f, num)
    ensures MapLit(m, l) / 2 < f.First() + |f.gates|
    ensures Remap(f.First(), num, MapLit(m, l)) == MapLit(Composed(f, m, num), l)
  {
    hide Numbered, MapLit, File.Defines, Composed;
    MappedLit(f, m, l);
    var k, c := MapLit(m, l), Composed(f, m, num);
    DefinedNumber(f, m, l / 2);
    assert c[l / 2] == Renumber(f, num, m[l / 2]) <= MAX_NUMBER;
    MapLitParts(c, l);
    if k / 2 >= f.First() {
      MapLitParts(num, k);
    }
  }

  /** Remap the referencing literals. This accesses the map out of range exactly if one of
      them is undefined. */
  method RemapGroups(f: File, ghost m: seq<nat>, num: seq<nat>, groups: seq<seq<Lit>>)
    returns (ok: bool, out: seq<seq<Lit>>)
    requires f.InRange() && Numbered(f, m, f.Size()) && |m| == f.maxVar + 1 == |num|
    requires Permutes(f, num) && |groups| == |f.groups| && GroupsMapped(f, m, groups, |groups|)
    ensures ok <==> f.GroupsDefined()
    ensures ok ==> |out| == |f.groups| && GroupsMapped(f, Composed(f, m, num), out, |out|)
  {
    hide Numbered, Composed, Remap, File.Defines, MapLit;
    ok, out := true, [];
    for g := 0 to |groups|
      invariant |out| == g && GroupsMapped(f, Composed(f, m, num), out, g)
      invariant forall h, k :: 0 <= h < g && 0 <= k < |f.groups[h]| ==> f.Defines(f.groups[h][k] / 2)
    {
      var slice: seq<Lit> := [];
      for k := 0 to |groups[g]|
        invariant |slice| == k
        invariant forall j :: 0 <= j < k ==> slice[j] == MapLit(Composed(f, m, num), f.groups[g][j])
        invariant forall j :: 0 <= j < k ==> f.Defines(f.groups[g][j] / 2)
      {
        MappedLit(f, m, f.groups[g][k]);
        if groups[g][k] / 2 >= |num| {
          return false, [];
        }
        RemapComposed(f, m, num, f.groups[g][k]);
        slice := slice + [Remap(f.First(), num, groups[g][k])];
      }
      out := out + [slice];
    }
  }

  // --- The parser ------------------------------------------------------------

  /** Gates that are in topological order already keep their numbers. */
  lemma KeptRenamed(f: File, m: seq<nat>, gates: seq<(Lit, Lit)>, groups: seq<seq<Lit>>)
    requires f.InRange() && Numbered(f, m, f.Size()) && |m| == f.maxVar + 1
    requires |gates| == |f.gates| && GatesMapped(f, m, gates, |gates|)
    requires |groups| == |f.groups| && GroupsMapped(f, m, groups, |groups|)
    ensures Renamed(f, Aig(|f.inputs|, |f.latches|, gates, groups), m)
  {
    hide MapLit, Descending, Bounded;
    var a := Aig(|f.inputs|, |f.latches|, gates, groups);
    NumberedBounded(f, m);
    forall i | 0 <= i < |f.gates|
      ensures GateRenamed(f, a, m, i)
    {
      assert m[f.Def(f.First() - 1 + i)] == f.First() + i;
    }
    assert forall g :: 0 <= g < |f.groups| ==> GroupRenamed(f, a, m, g);
  }

  /** The inputs of the gate are defined, and come before it if they are gates. */
  predicate GateInOrder(f: File, i: nat) {
    && i < |f.gates| && f.Defines(f.gates[i].1 / 2) && f.Defines(f.gates[i].2 / 2)
    && forall j :: 0 <= j < |f.gates| && Uses(f, i, j) ==> j < i
  }

  lemma GatesInOrder(f: File)
    ensures (forall i :: 0 <= i < |f.gates| ==> GateInOrder(f, i)) <==> f.InputsDefined() && InOrder(f)
  {
    hide Uses, File.Defines;
    if forall i :: 0 <= i < |f.gates| ==> GateInOrder(f, i) {
      forall i | 0 <= i < |f.gates|
        ensures f.Defines(f.gates[i].1 / 2) && f.Defines(f.gates[i].2 / 2)
      {
        assert GateInOrder(f, i);
      }
      forall i, j | 0 <= i < |f.gates| && 0 <= j < |f.gates| && Uses(f, i, j)
        ensures j < i
      {
        assert GateInOrder(f, i);
      }
    }
  }

  /** The test for sortedness: a gate's larger input is smaller than the gate exactly if its
      inputs are defined and none of them is the gate itself or a later one. */
  lemma SortedGate(f: File, m: seq<nat>, gates: seq<(Lit, Lit)>, i: nat)
    requires f.InRange() && Numbered(f, m, f.Size()) && |m| == f.maxVar + 1
    requires |gates| == |f.gates| && GatesMapped(f, m, gates, |gates|) && i < |gates|
    ensures gates[i].1 <= gates[i].0
    ensures gates[i].0 < 2 * (f.First() + i) <==> GateInOrder(f, i)
  {
    hide Numbered, GatesMapped, File.Defines;
    MappedGate(f, m, gates, i);
    var g := Graph(gates, f.First());
    if g.GateDefined(i) && f.First() + i <= gates[i].0 / 2 {
      assert Uses(f, i, gates[i].0 / 2 - f.First());
    }
  }

  lemma SortedInOrder(f: File, m: seq<nat>, gates: seq<(Lit, Lit)>)
    requires f.InRange() && Numbered(f, m, f.Size()) && |m| == f.maxVar + 1
    requires |gates| == |f.gates| && GatesMapped(f, m, gates, |gates|)
    ensures (forall i :: 0 <= i < |gates| ==> gates[i].0 < 2 * (f.First() + i)) <==> f.InputsDefined() && InOrder(f)
    ensures forall i :: 0 <= i < |gates| ==> gates[i].1 <= gates[i].0
  {
    hide Numbered, GatesMapped, GateInOrder, File.InputsDefined, InOrder;
    GatesInOrder(f);
    forall i | 0 <= i < |gates|
      ensures gates[i].1 <= gates[i].0 && (gates[i].0 < 2 * (f.First() + i) <==> GateInOrder(f, i))
    {
      SortedGate(f, m, gates, i);
    }
  }

  /** Gates in topological order do not depend on themselves. */
  lemma InOrderAcyclic(f: File)
    requires InOrder(f)
    ensures GatesAcyclic(f)
  {
    hide Uses;
    var rank: seq<nat> := seq(|f.gates|, i => i);
    assert RanksGates(f, rank);
  }

  lemma PlacedGateRenamed(f: File, m: seq<nat>, gates: seq<(Lit, Lit)>, num: seq<nat>, a: Aig, i: nat)
    requires f.InRange() && f.InputsDefined() && Numbered(f, m, f.Size()) && |m| == f.maxVar + 1
    requires |gates| == |f.gates| && GatesMapped(f, m, gates, |gates|) && Permutes(f, num)
    requires Graph(gates, f.First()).Defined() && Placed(Graph(gates, f.First()), num, a.gates, |gates|) && i < |gates|
    ensures GateRenamed(f, a, Composed(f, m, num), i)
  {
    hide Remap, Composed, MapLit, Numbered, Graph.Defined, File.Def, File.Defines;
    NumberOfGate(f, m, i);
    var x, y := f.gates[i].1, f.gates[i].2;
    RemapComposed(f, m, num, x);
    RemapComposed(f, m, num, y);
    assert gates[i] == Descending(MapLit(m, x), MapLit(m, y));
    assert Var(Graph(gates, f.First()), num, i) == num[f.First() + i];
  }

  lemma NumberOfGate(f: File, m: seq<nat>, i: nat)
    requires f.InRange() && Numbered(f, m, f.Size()) && |m| == f.maxVar + 1 && i < |f.gates|
    ensures m[f.Def(f.First() - 1 + i)] == f.First() + i
  {
  }

  lemma ComposedBounded(f: File, m: seq<nat>, num: seq<nat>)
    requires f.InRange() && Numbered(f, m, f.Size()) && Permutes(f, num)
    ensures Bounded(Composed(f, m, num))
  {
    hide Numbered, Composed, File.Defines;
    NumberedBounded(f, m);
  }

  /** Placing the gates in their new order renames the variables by the composed renaming. */
  lemma PlacedRenamed(f: File, m: seq<nat>, gates: seq<(Lit, Lit)>, num: seq<nat>, a: Aig)
    requires f.InRange() && f.InputsDefined() && Numbered(f, m, f.Size()) && |m| == f.maxVar + 1
    requires |gates| == |f.gates| && GatesMapped(f, m, gates, |gates|) && Permutes(f, num)
    requires Graph(gates, f.First()).Defined() && Placed(Graph(gates, f.First()), num, a.gates, |gates|)
    requires a.inputs == |f.inputs| && a.latches == |f.latches|
    requires |a.groups| == |f.groups| && GroupsMapped(f, Composed(f, m, num), a.groups, |a.groups|)
    ensures Renamed(f, a, Composed(f, m, num))
  {
    hide GatesMapped, GateRenamed, File.InputsDefined, MapLit, Bounded;
    ComposedBounded(f, m, num);
    forall i | 0 <= i < |f.gates|
      ensures GateRenamed(f, a, Composed(f, m, num), i)
    {
      PlacedGateRenamed(f, m, gates, num, a, i);
    }
    assert forall g :: 0 <= g < |f.groups| ==> GroupRenamed(f, a, Composed(f, m, num), g);
  }

  /** Sort gates that are not in topological order. */
  method Normalise(f: File, varMap: array<nat>, gates: seq<(Lit, Lit)>, groups: seq<seq<Lit>>)
    returns (r: Parsed, ghost m: seq<nat>)
    requires f.InRange() && varMap.Length == f.maxVar + 1 && Numbered(f, varMap[..], f.Size())
    requires |gates| == |f.gates| && GatesMapped(f, varMap[..], gates, |gates|)
    requires |groups| == |f.groups| && GroupsMapped(f, varMap[..], groups, |groups|)
    modifies varMap
    ensures r.Parsed? <==> GatesAcyclic(f) && f.InputsDefined() && f.GroupsDefined()
    ensures r.Parsed? || (r.DependsOnItself? && !GatesAcyclic(f))
            || (r.OutOfRange? && !(f.InputsDefined() && f.GroupsDefined()))
    ensures r.Parsed? ==> Renamed(f, r.aig, m) && r.aig.Topological()
  {
    hide Numbered, GatesMapped, GroupsMapped, Graph.Acyclic, Graph.Defined, File.InputsDefined, File.GroupsDefined;
    hide GatesAcyclic, Sorted, Renamed, Placed;
    ghost var m0 := varMap[..];
    m := [];
    var g := Graph(gates, f.First());
    SameGraph(f, m0, gates);
    var o := Sort(g, varMap);
    match o {
      case Cycle => return DependsOnItself, m;
      case OutOfRange => return Parsed.OutOfRange, m;
      case Done =>
    }
    var num := varMap[..];
    SortedSize(g, num);
    var ok, out := RemapGroups(f, m0, num, groups);
    if !ok {
      return Parsed.OutOfRange, m;
    }
    var mapped := PlaceGates(g, num);
    r := Parsed(Aig(|f.inputs|, |f.latches|, mapped, out));
    m := Composed(f, m0, num);
    PlacedRenamed(f, m0, gates, num, r.aig);
    PlacedSize(g, num, mapped);
    forall j | 0 <= j < |mapped|
      ensures mapped[j].1 <= mapped[j].0 < 2 * (g.first + j)
    {
      PlacedTopological(g, num, mapped, j);
    }
  }

  lemma PlacedSize(g: Graph, num: seq<nat>, mapped: seq<(Lit, Lit)>)
    requires g.Defined() && g.first + |g.gates| <= |num| && Placed(g, num, mapped, |g.gates|)
    ensures |mapped| == |g.gates|
  {
  }

  /** What the parser accepts. Undefined literals are reported if one of them is odd; an even
      one makes an access out of range if it is a gate input or the gates must be sorted,
      and otherwise goes unnoticed. */
  ghost predicate Accepted(f: File) {
    && f.DefinedOnce() && f.GatesPositive() && !f.OddUndefined()
    && f.InputsDefined() && GatesAcyclic(f) && (InOrder(f) || f.GroupsDefined())
  }

  /** Undefined referencing literals of an accepted file become a literal that is not one of
      the graph. */
  ghost predicate GarbageIn(f: File, a: Aig) {
    && |a.groups| == |f.groups|
    && (forall g :: 0 <= g < |f.groups| ==> |a.groups[g]| == |f.groups[g]|)
    && (forall g, k :: 0 <= g < |f.groups| && 0 <= k < |f.groups[g]| && !f.Defines(f.groups[g][k] / 2) ==>
          a.groups[g][k] == GARBAGE)
  }

  lemma KeptGarbage(f: File, m: seq<nat>, a: Aig)
    requires f.InRange() && Numbered(f, m, f.Size()) && |m| == f.maxVar + 1 && !f.OddUndefined()
    requires |a.groups| == |f.groups| && GroupsMapped(f, m, a.groups, |a.groups|)
    ensures GarbageIn(f, a)
  {
    hide Numbered, MapLit, File.Defines;
    forall g, k | 0 <= g < |f.groups| && 0 <= k < |f.groups[g]| && !f.Defines(f.groups[g][k] / 2)
      ensures a.groups[g][k] == GARBAGE
    {
      var l := f.groups[g][k];
      assert f.References(l);
      MappedLit(f, m, l);
    }
  }

  lemma NoGarbage(f: File, a: Aig, m: seq<nat>)
    requires f.InRange() && Renamed(f, a, m) && f.GroupsDefined()
    ensures GarbageIn(f, a)
  {
    hide GateRenamed, MapLit, File.Defines;
    forall g | 0 <= g < |f.groups|
      ensures |a.groups[g]| == |f.groups[g]|
    {
      assert GroupRenamed(f, a, m, g);
    }
  }

  /** Parse a file. The result is the file with its variables renamed, gates after their
      inputs. */
  method Parse(f: File) returns (r: Parsed, ghost m: seq<nat>)
    requires f.InRange()
    ensures r.Parsed? <==> Accepted(f)
    ensures r.SecondDef? ==> !f.DefinedOnce()
    ensures r.NegativeGateLit? ==> !f.GatesPositive()
    ensures r.UndefinedLit? <==> f.DefinedOnce() && f.GatesPositive() && f.OddUndefined()
    ensures r.DependsOnItself? ==> !GatesAcyclic(f)
    ensures r.OutOfRange? ==> !f.InputsDefined() || (!f.GroupsDefined() && !InOrder(f))
    ensures r.Parsed? ==> Renamed(f, r.aig, m) && r.aig.Topological() && GarbageIn(f, r.aig)
  {
    hide Numbered, GatesMapped, GroupsMapped, GatesAcyclic, Renamed, GarbageIn, InOrder;
    hide File.InputsDefined, File.GroupsDefined, File.DefinedOnce, File.GatesPositive, File.OddUndefined;
    m := [];
    var varMap := new nat[f.maxVar + 1](_ => UNDEF);
    varMap[0] := 0;
    var d := DefineAll(f, varMap);
    match d {
      case SecondDefinition => return SecondDef, m;
      case NegativeGate => return NegativeGateLit, m;
      case Defined =>
    }
    m := varMap[..];
    NumberedOnce(f, m);
    var groups := MapGroups(f, varMap[..]);
    var gates, sorted := MapGates(f, varMap[..]);
    var odd := FindUndefined(f, varMap[..]);
    if odd {
      return UndefinedLit, m;
    }
    SortedInOrder(f, m, gates);
    if sorted {
      r := Parsed(Aig(|f.inputs|, |f.latches|, gates, groups));
      KeptRenamed(f, m, gates, groups);
      KeptGarbage(f, m, r.aig);
      InOrderAcyclic(f);
    } else {
      r, m := Normalise(f, varMap, gates, groups);
      if r.Parsed? {
        NoGarbage(f, r.aig, m);
      }
    }
  }

  /** One output, which is the even literal of an undefined variable: the file is accepted,
      and the output of the graph refers to nothing. */
  method UnnoticedExample() returns (r: Parsed)
    ensures r.Parsed? && r.aig.groups == [[GARBAGE]]
  {
    var f := File(1, [], [], [], [[2]]);
    assert f.InRange() && !f.Defines(f.groups[0][0] / 2);
    assert GatesAcyclic(f) by {
      InOrderAcyclic(f);
    }
    ghost var m;
    r, m := Parse(f);
    assert |r.aig.groups| == 1 && |r.aig.groups[0]| == |f.groups[0]| == 1 && r.aig.groups[0][0] == GARBAGE;
    assert r.aig.groups[0] == [GARBAGE];
  }
}
