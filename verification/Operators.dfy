/** The terminal cases of the binary operators and the function that the apply
    algorithm computes for each operator. */
module Operators {
  import opened Numbers
  import opened Diagrams

  /** What `terminal_bin` decides: fetch a terminal, share an operand, or recurse
      using a cache key. */
  datatype Case =
    | Fetch(value: Int64)
    | Share(x: Edge)
    | Binary(key: Op, f: Edge, g: Edge)

  predicate Is(x: Edge, c: Int64) {
    x == Terminal(c)
  }

  function Ascending(key: Op, f: Edge, g: Edge, greater: bool): Case {
    if greater then Binary(key, g, f) else Binary(key, f, g)
  }

  /** `greater` is the outcome of comparing the raw edge words, `f > g`. */
  function TerminalBin(op: Op, f: Edge, g: Edge, greater: bool): Case {
    if (op == Min || op == Max) && f == g then Share(f)
    else if f.Terminal? && g.Terminal? then
      match op
      case Min =>
        (match Compare(f.value, g.value)
         case Less => Share(f)
         case Equal => Share(f)
         case Greater => Share(g)
         case Incomparable => Fetch(NaN))
      case Max =>
        (match Compare(f.value, g.value)
         case Greater => Share(f)
         case Equal => Share(f)
         case Less => Share(g)
         case Incomparable => Fetch(NaN))
      case _ => Fetch(Eval2(op, f.value, g.value))
    else if f.Terminal? && (LeftNeutral(op, f.value) || (op == Sub && f.value == ZERO)) then Share(g)
    else if g.Terminal? && RightNeutral(op, g.value) then Share(f)
    else if Is(f, NaN) || Is(g, NaN) then Fetch(NaN)
    else
      match op
      case Sub => Binary(Sub, f, g)
      case Div => Binary(Div, f, g)
      case Max => Ascending(Min, f, g, greater)  // the key is Min, not Max
      case _ => Ascending(op, f, g, greater)
  }

  /** Only the order of the operands in the cache key depends on the comparison. */
  lemma CaseIndependent(op: Op, f: Edge, g: Edge, greater: bool, greater': bool)
    ensures var c, c' := TerminalBin(op, f, g, greater), TerminalBin(op, f, g, greater');
            c == c' || (c.Binary? && c'.Binary? && c.key == c'.key && {c.f, c.g} == {c'.f, c'.g} == {f, g})
  {
  }

  /** One past the level of the last variable tested on the path selected by `v`;
      0 if none is tested. */
  ghost function Depth(s: Store, x: Edge, v: Valuation): nat
    requires Ordered(s) && Valid(s, x)
    decreases TERMINAL_LEVEL - LevelOf(s, x)
  {
    match x
    case Terminal(_) => 0
    case Inner(i) =>
      var c := if s[i].level in v then s[i].t else s[i].e;
      if c.Terminal? then s[i].level + 1 else Depth(s, c, v)
  }

  lemma {:induction false} DepthAboveLevel(s: Store, x: Edge, v: Valuation)
    requires Ordered(s) && Valid(s, x) && x.Inner?
    ensures Depth(s, x, v) > s[x.id].level
    decreases TERMINAL_LEVEL - LevelOf(s, x)
  {
    var c := if s[x.id].level in v then s[x.id].t else s[x.id].e;
    if c.Inner? {
      DepthAboveLevel(s, c, v);
    }
  }

  lemma {:induction false} DepthFrame(s: Store, r: Store, x: Edge, v: Valuation)
    requires Ordered(s) && Ordered(r) && Extends(s, r) && Valid(s, x)
    ensures Depth(r, x, v) == Depth(s, x, v)
    decreases TERMINAL_LEVEL - LevelOf(s, x)
  {
    if x.Inner? {
      DepthFrame(s, r, s[x.id].t, v);
      DepthFrame(s, r, s[x.id].e, v);
    }
  }

  /** Does subtraction return `g` unnegated at `v`? This happens where the path of
      `f` ends in 0 while the path of `g` still tests variables. */
  ghost predicate Unnegated(s: Store, f: Edge, g: Edge, v: Valuation)
    requires Ordered(s) && Valid(s, f) && Valid(s, g)
  {
    Eval(s, f, v) == ZERO && Depth(s, f, v) < Depth(s, g, v)
  }

  /** The value at `v` of the function that apply computes for `op`. */
  ghost function Computed(op: Op, s: Store, f: Edge, g: Edge, v: Valuation): Int64
    requires Ordered(s) && Valid(s, f) && Valid(s, g)
  {
    if op == Sub && Unnegated(s, f, g, v) then Eval(s, g, v)
    else Eval2(op, Eval(s, f, v), Eval(s, g, v))
  }

  /** Apply is the pointwise operator at `v`, except for the missing negation. */
  lemma ComputedExact(op: Op, s: Store, f: Edge, g: Edge, v: Valuation)
    requires Ordered(s) && Valid(s, f) && Valid(s, g)
    ensures Computed(op, s, f, g, v) == Eval2(op, Eval(s, f, v), Eval(s, g, v))
       <==> !(op == Sub && Unnegated(s, f, g, v) && Eval(s, g, v) !in {ZERO, NaN})
  {
    NegationFixedPoints(Eval(s, g, v));
  }

  lemma ComputedFrame(op: Op, s: Store, r: Store, f: Edge, g: Edge, v: Valuation)
    requires Ordered(s) && Ordered(r) && Extends(s, r) && Valid(s, f) && Valid(s, g)
    ensures Computed(op, r, f, g, v) == Computed(op, s, f, g, v)
  {
    EvalFrame(s, r, f, v);
    EvalFrame(s, r, g, v);
    DepthFrame(s, r, f, v);
    DepthFrame(s, r, g, v);
  }

  /** A terminal case is right at `v`: the chosen result has the computed value;
      otherwise some operand is an inner node and the key names equivalent operands. */
  ghost predicate CaseRight(c: Case, op: Op, s: Store, f: Edge, g: Edge, v: Valuation)
    requires Ordered(s) && Valid(s, f) && Valid(s, g)
  {
    match c
    case Fetch(n) => n == Computed(op, s, f, g, v)
    case Share(x) => (x == f || x == g) && Eval(s, x, v) == Computed(op, s, f, g, v)
    case Binary(key, a, b) =>
      && (f.Inner? || g.Inner?)
      && ((a == f && b == g) || (a == g && b == f))
      && key == (if op == Max then Min else op)
      && Computed(op, s, a, b, v) == Computed(op, s, f, g, v)
  }

  lemma ConstantsRight(op: Op, s: Store, f: Edge, g: Edge, greater: bool, v: Valuation)
    requires Ordered(s) && f.Terminal? && g.Terminal?
    ensures CaseRight(TerminalBin(op, f, g, greater), op, s, f, g, v)
  {
  }

  lemma FetchRight(op: Op, s: Store, f: Edge, g: Edge, greater: bool, v: Valuation)
    requires Ordered(s) && Valid(s, f) && Valid(s, g) && (f.Inner? || g.Inner?)
    requires TerminalBin(op, f, g, greater).Fetch?
    ensures CaseRight(TerminalBin(op, f, g, greater), op, s, f, g, v)
  {
    assert TerminalBin(op, f, g, greater) == Fetch(NaN);
    NanAbsorbs(op, if Is(f, NaN) then Eval(s, g, v) else Eval(s, f, v));
  }

  lemma ShareRight(op: Op, s: Store, f: Edge, g: Edge, greater: bool, v: Valuation)
    requires Ordered(s) && Valid(s, f) && Valid(s, g) && (f.Inner? || g.Inner?)
    requires TerminalBin(op, f, g, greater).Share?
    ensures CaseRight(TerminalBin(op, f, g, greater), op, s, f, g, v)
  {
    var a, b := Eval(s, f, v), Eval(s, g, v);
    if f == g {
      OrderIdempotent(op, a);
    } else if op == Sub && Is(f, ZERO) {
      DepthAboveLevel(s, g, v);
    } else {
      NeutralElements(op, a, b);
      assert Depth(s, g, v) == 0 || op != Sub;
    }
  }

  lemma BinaryRight(op: Op, s: Store, f: Edge, g: Edge, greater: bool, v: Valuation)
    requires Ordered(s) && Valid(s, f) && Valid(s, g)
    requires TerminalBin(op, f, g, greater).Binary?
    ensures CaseRight(TerminalBin(op, f, g, greater), op, s, f, g, v)
  {
    if op != Sub && op != Div {
      Commutes(op, Eval(s, f, v), Eval(s, g, v));
    }
  }

  lemma TerminalBinCorrect(op: Op, s: Store, f: Edge, g: Edge, greater: bool, v: Valuation)
    requires Ordered(s) && Valid(s, f) && Valid(s, g)
    ensures CaseRight(TerminalBin(op, f, g, greater), op, s, f, g, v)
  {
    if f.Terminal? && g.Terminal? {
      ConstantsRight(op, s, f, g, greater, v);
    } else {
      match TerminalBin(op, f, g, greater)
      case Fetch(_) => FetchRight(op, s, f, g, greater, v);
      case Share(_) => ShareRight(op, s, f, g, greater, v);
      case Binary(_, _, _) => BinaryRight(op, s, f, g, greater, v);
    }
  }

  function Choose(l: Level, v: Valuation, c: (Edge, Edge)): Edge {
    if l in v then c.0 else c.1
  }

  /** The level at which apply splits its operands. */
  function TopLevel(s: Store, f: Edge, g: Edge): Level
    requires Valid(s, f) && Valid(s, g)
  {
    if LevelOf(s, f) <= LevelOf(s, g) then LevelOf(s, f) else LevelOf(s, g)
  }

  lemma DepthDescends(s: Store, x: Edge, l: Level, v: Valuation)
    requires Ordered(s) && Valid(s, x) && l <= LevelOf(s, x) && l < TERMINAL_LEVEL
    ensures var c := Choose(l, v, Cofactors(s, x, l));
            Valid(s, c) && Depth(s, c, v) == if x.Inner? && LevelOf(s, x) == l && c.Terminal? then 0 else Depth(s, x, v)
  {
    CofactorsDescend(s, x, l);
  }

  lemma UnnegatedDescends(s: Store, f: Edge, g: Edge, l: Level, v: Valuation)
    requires Ordered(s) && Valid(s, f) && Valid(s, g) && l == TopLevel(s, f, g) < TERMINAL_LEVEL
    requires !Is(f, ZERO)
    ensures var f', g' := Choose(l, v, Cofactors(s, f, l)), Choose(l, v, Cofactors(s, g, l));
            Valid(s, f') && Valid(s, g') && (Unnegated(s, f', g', v) <==> Unnegated(s, f, g, v))
  {
    CofactorsDescend(s, f, l);
    CofactorsDescend(s, g, l);
    DepthDescends(s, f, l, v);
    DepthDescends(s, g, l, v);
    var f', g' := Choose(l, v, Cofactors(s, f, l)), Choose(l, v, Cofactors(s, g, l));
    if f'.Inner? { DepthAboveLevel(s, f', v); }
    if g'.Inner? { DepthAboveLevel(s, g', v); }
  }

  /** Splitting both operands at the top level preserves the computed function. */
  lemma ComputedDescends(op: Op, s: Store, f: Edge, g: Edge, greater: bool, v: Valuation)
    requires Ordered(s) && Valid(s, f) && Valid(s, g)
    requires TerminalBin(op, f, g, greater).Binary?
    ensures var l := TopLevel(s, f, g);
            var f', g' := Choose(l, v, Cofactors(s, f, l)), Choose(l, v, Cofactors(s, g, l));
            Below(s, f', l) && Below(s, g', l) && Computed(op, s, f', g', v) == Computed(op, s, f, g, v)
  {
    var l := TopLevel(s, f, g);
    assert l < TERMINAL_LEVEL by {
      assert f.Inner? ==> NodeOrdered(s, s[f.id]);
      assert g.Inner? ==> NodeOrdered(s, s[g.id]);
    }
    CofactorsDescend(s, f, l);
    CofactorsDescend(s, g, l);
    if op == Sub {
      UnnegatedDescends(s, f, g, l, v);
    }
  }

  // --- Cache entries ---------------------------------------------------------

  datatype Entry = Empty | Filled(key: Op, f: Edge, g: Edge, value: Edge)

  /** Min and Max cache under the same key. Which of them has been used with a cache? */
  datatype Use = OnlyMin | OnlyMax | Mixed

  predicate Permits(use: Use, op: Op) {
    (op == Min ==> use != OnlyMax) && (op == Max ==> use != OnlyMin)
  }

  /** The operator an entry stands for. */
  function Meant(key: Op, use: Use): Op {
    if key == Min && use == OnlyMax then Max else key
  }

  /** `y` is a value at `v` that apply may return. Once Min and Max have been mixed, both
      the minimum and the maximum may be returned for either. */
  ghost predicate Acceptable(use: Use, op: Op, s: Store, f: Edge, g: Edge, v: Valuation, y: Int64)
    requires Ordered(s) && Valid(s, f) && Valid(s, g)
  {
    if use == Mixed && (op == Min || op == Max)
    then y == Computed(Min, s, f, g, v) || y == Computed(Max, s, f, g, v)
    else y == Computed(op, s, f, g, v)
  }

  /** `x` denotes in `s` what apply may return for the operands `f` and `g` of `r`, and
      does not lie above them. */
  ghost predicate Denotes(use: Use, s: Store, x: Edge, op: Op, r: Store, f: Edge, g: Edge)
    requires Ordered(s) && Ordered(r) && Valid(r, f) && Valid(r, g)
  {
    && Valid(s, x) && TopLevel(r, f, g) <= LevelOf(s, x)
    && forall v :: Acceptable(use, op, r, f, g, v, Eval(s, x, v))
  }

  /** All edges of an entry are stored. */
  predicate Live(s: Store, n: Entry) {
    n.Filled? ==> Valid(s, n.f) && Valid(s, n.g) && Valid(s, n.value)
  }

  /** The value of an entry is what apply may return for its operands. */
  ghost predicate Sound(s: Store, use: Use, n: Entry)
    requires Ordered(s)
  {
    Live(s, n) && (n.Filled? ==> Denotes(use, s, n.value, Meant(n.key, use), s, n.f, n.g))
  }

  lemma AcceptableFrame(use: Use, op: Op, s: Store, r: Store, f: Edge, g: Edge, v: Valuation, y: Int64)
    requires Ordered(s) && Ordered(r) && Extends(s, r) && Valid(s, f) && Valid(s, g)
    ensures Acceptable(use, op, r, f, g, v, y) == Acceptable(use, op, s, f, g, v, y)
  {
    ComputedFrame(op, s, r, f, g, v);
    ComputedFrame(Min, s, r, f, g, v);
    ComputedFrame(Max, s, r, f, g, v);
  }

  lemma SoundFrame(s: Store, r: Store, use: Use, n: Entry)
    requires Ordered(s) && Ordered(r) && Extends(s, r) && Sound(s, use, n)
    ensures Sound(r, use, n)
  {
    if n.Filled? {
      forall v
        ensures Acceptable(use, Meant(n.key, use), r, n.f, n.g, v, Eval(r, n.value, v))
      {
        EvalFrame(s, r, n.value, v);
        AcceptableFrame(use, Meant(n.key, use), s, r, n.f, n.g, v, Eval(s, n.value, v));
      }
    }
  }

  /** What is right for one of Min and Max is acceptable once both have been used. */
  lemma SoundMixed(s: Store, use: Use, n: Entry)
    requires Ordered(s) && Sound(s, use, n) && (n.Filled? ==> n.key != Max)
    ensures Sound(s, Mixed, n)
  {
    if n.Filled? {
      forall v
        ensures Acceptable(Mixed, n.key, s, n.f, n.g, v, Eval(s, n.value, v))
      {
        assert Acceptable(use, Meant(n.key, use), s, n.f, n.g, v, Eval(s, n.value, v));
      }
    }
  }

  ghost predicate AgreeOrNaN(s: Store, f: Edge, g: Edge, v: Valuation)
    requires Ordered(s) && Valid(s, f) && Valid(s, g)
  {
    Eval(s, f, v) == Eval(s, g, v) || Eval(s, f, v) == NaN || Eval(s, g, v) == NaN
  }

  // --- Terminal cases and entries --------------------------------------------

  /** What a terminal case returns is acceptable; the operands of a binary case are
      equivalent to the given ones. */
  lemma CaseDenotes(use: Use, op: Op, s: Store, f: Edge, g: Edge, greater: bool)
    requires Ordered(s) && Valid(s, f) && Valid(s, g)
    ensures var c := TerminalBin(op, f, g, greater);
            && (c.Fetch? ==> Denotes(use, s, Terminal(c.value), op, s, f, g))
            && (c.Share? ==> Valid(s, c.x) && Denotes(use, s, c.x, op, s, f, g))
            && (c.Binary? ==> CaseOperands(op, s, f, g, c))
  {
    hide TerminalBin, Denotes, CaseOperands;
    match TerminalBin(op, f, g, greater)
    case Fetch(n) => FetchDenotes(use, op, s, f, g, greater);
    case Share(x) => ShareDenotes(use, op, s, f, g, greater);
    case Binary(_, _, _) => BinaryOperands(op, s, f, g, greater);
  }

  lemma FetchDenotes(use: Use, op: Op, s: Store, f: Edge, g: Edge, greater: bool)
    requires Ordered(s) && Valid(s, f) && Valid(s, g) && TerminalBin(op, f, g, greater).Fetch?
    ensures Denotes(use, s, Terminal(TerminalBin(op, f, g, greater).value), op, s, f, g)
  {
    hide TerminalBin, Computed;
    CaseLevels(s, f, g);
    var n := TerminalBin(op, f, g, greater).value;
    forall v
      ensures Acceptable(use, op, s, f, g, v, Eval(s, Terminal(n), v))
    {
      TerminalBinCorrect(op, s, f, g, greater, v);
    }
  }

  lemma ShareDenotes(use: Use, op: Op, s: Store, f: Edge, g: Edge, greater: bool)
    requires Ordered(s) && Valid(s, f) && Valid(s, g) && TerminalBin(op, f, g, greater).Share?
    ensures var x := TerminalBin(op, f, g, greater).x; Valid(s, x) && Denotes(use, s, x, op, s, f, g)
  {
    hide TerminalBin, Computed;
    CaseLevels(s, f, g);
    var x := TerminalBin(op, f, g, greater).x;
    TerminalBinCorrect(op, s, f, g, greater, {});
    forall v
      ensures Acceptable(use, op, s, f, g, v, Eval(s, x, v))
    {
      TerminalBinCorrect(op, s, f, g, greater, v);
    }
  }

  /** The operands of the cache key stand for the operands of the call. */
  ghost predicate CaseOperands(op: Op, s: Store, f: Edge, g: Edge, c: Case)
    requires Ordered(s) && Valid(s, f) && Valid(s, g) && c.Binary?
  {
    && Valid(s, c.f) && Valid(s, c.g) && (f.Inner? || g.Inner?)
    && c.key == (if op == Max then Min else op) && TopLevel(s, c.f, c.g) == TopLevel(s, f, g)
    && forall use, v, y :: Acceptable(use, op, s, c.f, c.g, v, y) == Acceptable(use, op, s, f, g, v, y)
  }

  lemma BinaryOperands(op: Op, s: Store, f: Edge, g: Edge, greater: bool)
    requires Ordered(s) && Valid(s, f) && Valid(s, g) && TerminalBin(op, f, g, greater).Binary?
    ensures CaseOperands(op, s, f, g, TerminalBin(op, f, g, greater))
  {
    var c := TerminalBin(op, f, g, greater);
    TerminalBinCorrect(op, s, f, g, greater, {});
    forall use, v, y
      ensures Acceptable(use, op, s, c.f, c.g, v, y) == Acceptable(use, op, s, f, g, v, y)
    {
      TerminalBinCorrect(op, s, f, g, greater, v);
      Commutes(Min, Eval(s, f, v), Eval(s, g, v));
      Commutes(Max, Eval(s, f, v), Eval(s, g, v));
    }
  }

  /** A shared operand does not lie above the operands. */
  lemma CaseLevels(s: Store, f: Edge, g: Edge)
    requires Ordered(s) && Valid(s, f) && Valid(s, g)
    ensures TopLevel(s, f, g) <= LevelOf(s, f) && TopLevel(s, f, g) <= LevelOf(s, g)
    ensures TopLevel(s, f, g) <= TERMINAL_LEVEL
  {
    assert f.Inner? ==> NodeOrdered(s, s[f.id]);
    assert g.Inner? ==> NodeOrdered(s, s[g.id]);
  }

  /** An entry for the operands of a binary case is sound once its value is acceptable. */
  lemma EntrySound(use: Use, op: Op, s: Store, r: Store, f: Edge, g: Edge, greater: bool, h: Edge)
    requires Ordered(s) && Ordered(r) && Extends(s, r) && Valid(s, f) && Valid(s, g) && Permits(use, op)
    requires TerminalBin(op, f, g, greater).Binary? && Denotes(use, r, h, op, s, f, g)
    ensures var c := TerminalBin(op, f, g, greater);
            Sound(r, use, Filled(c.key, c.f, c.g, h))
  {
    var c := TerminalBin(op, f, g, greater);
    BinaryOperands(op, s, f, g, greater);
    forall v
      ensures Acceptable(use, Meant(c.key, use), r, c.f, c.g, v, Eval(r, h, v))
    {
      assert Acceptable(use, op, s, f, g, v, Eval(r, h, v));
      assert Acceptable(use, op, s, c.f, c.g, v, Eval(r, h, v));
      AcceptableFrame(use, op, s, r, c.f, c.g, v, Eval(r, h, v));
    }
  }

  /** A hit on a sound entry answers the query acceptably. */
  lemma HitDenotes(use: Use, op: Op, s: Store, f: Edge, g: Edge, greater: bool, h: Edge)
    requires Ordered(s) && Valid(s, f) && Valid(s, g) && Permits(use, op)
    requires TerminalBin(op, f, g, greater).Binary?
    requires var c := TerminalBin(op, f, g, greater);
             Sound(s, use, Filled(c.key, c.f, c.g, h))
    ensures Denotes(use, s, h, op, s, f, g)
  {
    var c := TerminalBin(op, f, g, greater);
    BinaryOperands(op, s, f, g, greater);
    forall v
      ensures Acceptable(use, op, s, f, g, v, Eval(s, h, v))
    {
      assert Acceptable(use, Meant(c.key, use), s, c.f, c.g, v, Eval(s, h, v));
      assert Acceptable(use, op, s, c.f, c.g, v, Eval(s, h, v));
    }
  }

  /** With Min and Max mixed, the result is still the operation wherever the operands
      agree or one is NaN, and elsewhere it is the minimum or the maximum. */
  lemma MixedPointwise(s: Store, x: Edge, op: Op, r: Store, f: Edge, g: Edge, v: Valuation)
    requires Ordered(s) && Ordered(r) && Valid(r, f) && Valid(r, g)
    requires (op == Min || op == Max) && Denotes(Mixed, s, x, op, r, f, g)
    ensures var a, b, y := Eval(r, f, v), Eval(r, g, v), Eval(s, x, v);
            && (y == Eval2(Min, a, b) || y == Eval2(Max, a, b))
            && (AgreeOrNaN(r, f, g, v) ==> y == Eval2(op, a, b))
  {
    assert Acceptable(Mixed, op, r, f, g, v, Eval(s, x, v));
    MinMeetsMax(Eval(r, f, v), Eval(r, g, v));
  }

  /** A result of one operator answers a query of the other correctly exactly where the
      operands agree or one is NaN. */
  lemma OtherOperator(s: Store, x: Edge, op: Op, other: Op, r: Store, f: Edge, g: Edge, v: Valuation)
    requires Ordered(s) && Ordered(r) && Valid(r, f) && Valid(r, g) && {op, other} == {Min, Max}
    requires Denotes(if op == Min then OnlyMin else OnlyMax, s, x, op, r, f, g)
    ensures Eval(s, x, v) == Eval2(other, Eval(r, f, v), Eval(r, g, v)) <==> AgreeOrNaN(r, f, g, v)
  {
    var use := if op == Min then OnlyMin else OnlyMax;
    assert op in {Min, Max} && other in {Min, Max} && Min in {op, other} && Max in {op, other};
    assert Acceptable(use, op, r, f, g, v, Eval(s, x, v));
    MinMeetsMax(Eval(r, f, v), Eval(r, g, v));
  }

  /** `h` is the pointwise operation of `f` and `g` everywhere. */
  ghost predicate Answers(s: Store, h: Edge, op: Op, f: Edge, g: Edge)
    requires Ordered(s) && Valid(s, f) && Valid(s, g) && Valid(s, h)
  {
    forall v :: Eval(s, h, v) == Eval2(op, Eval(s, f, v), Eval(s, g, v))
  }

  ghost predicate AlwaysAgree(s: Store, f: Edge, g: Edge)
    requires Ordered(s) && Valid(s, f) && Valid(s, g)
  {
    forall v :: AgreeOrNaN(s, f, g, v)
  }

  lemma OtherAnswers(s: Store, op: Op, other: Op, f: Edge, g: Edge, h: Edge)
    requires Ordered(s) && Valid(s, f) && Valid(s, g) && {op, other} == {Min, Max}
    requires Denotes(if op == Min then OnlyMin else OnlyMax, s, h, op, s, f, g)
    ensures Answers(s, h, other, f, g) <==> AlwaysAgree(s, f, g)
  {
    hide AgreeOrNaN, Eval2, Acceptable;
    forall v
      ensures Eval(s, h, v) == Eval2(other, Eval(s, f, v), Eval(s, g, v)) <==> AgreeOrNaN(s, f, g, v)
    {
      OtherOperator(s, h, op, other, s, f, g, v);
    }
  }

  /** Both operators look up the same entry, so whichever comes second gets the result of
      the first. That result is right for the second exactly if the operands agree, or
      one is NaN, at every valuation. */
  lemma SharedKeyConflict(s: Store, op: Op, other: Op, f: Edge, g: Edge, greater: bool, h: Edge)
    requires Ordered(s) && Valid(s, f) && Valid(s, g) && {op, other} == {Min, Max}
    requires TerminalBin(op, f, g, greater).Binary?
    requires Denotes(if op == Min then OnlyMin else OnlyMax, s, h, op, s, f, g)
    ensures TerminalBin(other, f, g, greater) == TerminalBin(op, f, g, greater)
    ensures var c := TerminalBin(op, f, g, greater); Sound(s, Mixed, Filled(c.key, c.f, c.g, h))
    ensures Answers(s, h, other, f, g) <==> AlwaysAgree(s, f, g)
  {
    hide Answers, AlwaysAgree, Sound, Denotes;
    assert op in {Min, Max} && other in {Min, Max} && Min in {op, other} && Max in {op, other};
    OtherAnswers(s, op, other, f, g, h);
    var use := if op == Min then OnlyMin else OnlyMax;
    EntrySound(use, op, s, s, f, g, greater, h);
    var c := TerminalBin(op, f, g, greater);
    SoundMixed(s, use, Filled(c.key, c.f, c.g, h));
  }

  /** One variable, compared with the constant 0: the cached maximum is not the minimum. */
  lemma SharedKeyExample()
    ensures var s: Store := map[0 := Node(0, Terminal(ONE), Terminal(ZERO))];
            var n := Filled(Min, Inner(0), Terminal(ZERO), Inner(0));
            && Canonical(s) && Sound(s, OnlyMax, n) && Sound(s, Mixed, n) && !Sound(s, OnlyMin, n)
            && TerminalBin(Min, Inner(0), Terminal(ZERO), false) == Binary(n.key, n.f, n.g)
  {
    var s: Store := map[0 := Node(0, Terminal(ONE), Terminal(ZERO))];
    var n := Filled(Min, Inner(0), Terminal(ZERO), Inner(0));
    assert Regular(s);
    assert Eval(s, Inner(0), {0}) == ONE;
    assert Sound(s, OnlyMax, n);
    SoundMixed(s, OnlyMax, n);
    assert !Acceptable(OnlyMin, Min, s, n.f, n.g, {0}, Eval(s, n.value, {0}));
  }

  /** The constant 0 minus one variable: apply yields the variable, not its negation. */
  lemma UnnegatedExample()
    ensures var s: Store := map[0 := Node(0, Terminal(ONE), Terminal(ZERO))];
            && Canonical(s)
            && TerminalBin(Sub, Terminal(ZERO), Inner(0), false) == Share(Inner(0))
            && Eval(s, Inner(0), {0}) == ONE != SubNum(ZERO, Eval(s, Inner(0), {0}))
  {
  }
}
