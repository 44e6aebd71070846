/** Binary export and import of decision diagrams: numbering, relative and absolute
    codes, and the reconstruction of the diagram. */
module Dddmp {
  import opened Options
  import opened Codec
  import opened Bcdd

  /** Two bits. */
  type Bits = x: nat | x < 4

  datatype Code = TerminalCode | AbsoluteID | RelativeID | Relative1

  /** A numbered node. The node with the id k (from 1) is element k - 1 of a dump:
      the terminal, or a support variable, then-id, complement of the else-edge, else-id. */
  datatype Rec = Top | Inner(v: nat, t: nat, neg: bool, e: nat)

  predicate ValidId(ns: seq<Rec>, id: nat) {
    1 <= id <= |ns|
  }

  /** The support variable of a node, none for the terminal. */
  function VarAt(ns: seq<Rec>, id: nat): Option<nat>
    requires ValidId(ns, id)
  {
    var r := ns[id - 1];
    if r.Top? then None else Some(r.v)
  }

  predicate Above(v: nat, w: Option<nat>) {
    w.Some? ==> v < w.value
  }

  /** Children are numbered before their parents and test later variables. */
  predicate RecOrdered(ns: seq<Rec>, k: nat, nvars: nat)
    requires k < |ns|
  {
    ns[k].Inner? ==>
      && 1 <= ns[k].t <= k && 1 <= ns[k].e <= k && ns[k].v < nvars
      && Above(ns[k].v, VarAt(ns, ns[k].t)) && Above(ns[k].v, VarAt(ns, ns[k].e))
  }

  ghost predicate DumpOrdered(ns: seq<Rec>, nvars: nat) {
    forall k :: 0 <= k < |ns| ==> RecOrdered(ns, k, nvars)
  }

  /** The numbered form of a reduced diagram. */
  ghost predicate Dump(ns: seq<Rec>, nvars: nat) {
    && DumpOrdered(ns, nvars) && |ns| < WORD && nvars < WORD
    && (forall k :: 0 <= k < |ns| ==> (ns[k].Top? <==> k == 0))
    && (forall k :: 0 <= k < |ns| && ns[k].Inner? ==> ns[k].neg || ns[k].t != ns[k].e)
    && (forall j, k :: 0 <= j < k < |ns| ==> ns[j] != ns[k])
  }

  // --- Meaning ---------------------------------------------------------------

  /** Every node refers to nodes with smaller ids. */
  ghost predicate Numbered(ns: seq<Rec>) {
    forall k :: 0 <= k < |ns| && ns[k].Inner? ==> 1 <= ns[k].t <= k && 1 <= ns[k].e <= k
  }

  /** The value of the node with the given id; `w` holds the true support variables. */
  ghost function RecValue(ns: seq<Rec>, id: nat, w: set<nat>): bool
    requires Numbered(ns) && ValidId(ns, id)
    decreases id
  {
    match ns[id - 1]
    case Top => true
    case Inner(v, t, neg, e) => if v in w then RecValue(ns, t, w) else neg != RecValue(ns, e, w)
  }

  /** The variables with the indices `w` are the ones at the levels `v`. */
  ghost predicate Corresponds(vars: seq<Level>, v: set<Level>, w: set<nat>) {
    forall i :: 0 <= i < |vars| ==> (i in w <==> vars[i] in v)
  }

  /** The edge denotes the function of the node with the given id. */
  ghost predicate Denotes(s: Store, x: Edge, levels: seq<Level>, ns: seq<Rec>, id: nat)
    requires Ordered(s) && Valid(s, x.to) && Numbered(ns) && ValidId(ns, id)
  {
    forall v, w :: Corresponds(levels, v, w) ==> Eval(s, x, v) == RecValue(ns, id, w)
  }

  /** The edge leads to the terminal or to the level of a support variable. */
  predicate Supported(s: Store, x: Edge, levels: seq<Level>) {
    x.to.Ref? ==> x.to.id in s && s[x.to.id].level in levels
  }

  /** The edges denote the functions of the nodes, one after the other. */
  ghost predicate Copies(s: Store, nodes: seq<Edge>, levels: seq<Level>, ns: seq<Rec>) {
    && Ordered(s) && Numbered(ns) && |nodes| == |ns|
    && forall j :: 0 <= j < |nodes| ==>
         Valid(s, nodes[j].to) && Supported(s, nodes[j], levels) && Denotes(s, nodes[j], levels, ns, j + 1)
  }

  // --- Writing ---------------------------------------------------------------

  function CodeNumber(c: Code): Bits {
    match c
    case TerminalCode => 0
    case AbsoluteID => 1
    case RelativeID => 2
    case Relative1 => 3
  }

  function CodeOf(n: Bits): (c: Code)
    ensures CodeNumber(c) == n
  {
    if n == 0 then TerminalCode else if n == 1 then AbsoluteID else if n == 2 then RelativeID else Relative1
  }

  /** Two bits each for variable and then-node, one for the complement, two for the else-node. */
  function NodeCode(v: Code, t: Code, neg: bool, e: Code): Byte {
    CodeNumber(v) * 32 + CodeNumber(t) * 8 + (if neg then 4 else 0) + CodeNumber(e)
  }

  /** How a node refers to a child, and the number that goes with the code. */
  function ChildCode(ns: seq<Rec>, node: nat, id: nat): (Code, nat)
    requires ValidId(ns, id) && id < node
  {
    if ns[id - 1].Top? then (TerminalCode, 0)
    else if id == node - 1 then (Relative1, 0)
    else if node - id < id then (RelativeID, node - id)
    else (AbsoluteID, id)
  }

  function MinVar(a: Option<nat>, b: Option<nat>): Option<nat> {
    if a.None? then b
    else if b.None? || a.value <= b.value then a
    else b
  }

  function VarCode(v: nat, below: Option<nat>): (Code, nat)
    requires Above(v, below)
  {
    if below.None? then (AbsoluteID, v)
    else if v == below.value - 1 then (Relative1, v)
    else if below.value - v < v then (RelativeID, below.value - v)
    else (AbsoluteID, v)
  }

  /** The number that follows a code, if the code takes one. */
  function Operand(c: (Code, nat)): seq<Byte> {
    if c.0 == AbsoluteID || c.0 == RelativeID then EscapeAll(Encoded(c.1)) else []
  }

  function RecBytes(ns: seq<Rec>, k: nat, nvars: nat): seq<Byte>
    requires k < |ns| && RecOrdered(ns, k, nvars)
  {
    match ns[k]
    case Top => Escape(NodeCode(TerminalCode, TerminalCode, false, TerminalCode))
    case Inner(v, t, neg, e) =>
      var vc := VarCode(v, MinVar(VarAt(ns, t), VarAt(ns, e)));
      var tc := ChildCode(ns, k + 1, t);
      var ec := ChildCode(ns, k + 1, e);
      Escape(NodeCode(vc.0, tc.0, neg, ec.0)) + (Operand(vc) + (Operand(tc) + Operand(ec)))
  }

  /** The bytes of the nodes from index `k` on. */
  ghost function DumpBytes(ns: seq<Rec>, k: nat, nvars: nat): seq<Byte>
    requires DumpOrdered(ns, nvars) && k <= |ns|
    decreases |ns| - k
  {
    if k == |ns| then [] else RecBytes(ns, k, nvars) + DumpBytes(ns, k + 1, nvars)
  }

  // --- Reading ---------------------------------------------------------------

  /** The id of a child (from 1) of the node `node`. */
  function ReadId(input: seq<Byte>, node: nat, code: Code): (r: Result<nat>)
    ensures r.Ok? ==> 1 <= r.value < node
  {
    match code
    case TerminalCode => CheckId(1, node, input)
    case Relative1 => if node == 0 then Err else CheckId(node - 1, node, input)
    case AbsoluteID =>
      (match DecodeFrom(input, 0)
       case Err => Err
       case Ok(n, rest) => CheckId(n, node, rest))
    case RelativeID =>
      (match DecodeFrom(input, 0)
       case Err => Err
       case Ok(n, rest) => if n > node then Err else CheckId(node - n, node, rest))
  }

  function CheckId(id: nat, node: nat, rest: seq<Byte>): (r: Result<nat>)
    ensures r.Ok? ==> 1 <= r.value < node
  {
    if id == 0 || id >= node then Err else Ok(id, rest)
  }

  /** The number that comes with the variable code. */
  function ReadVar(input: seq<Byte>, code: Code): Result<nat> {
    if code == AbsoluteID || code == RelativeID then DecodeFrom(input, 0) else Ok(1, input)
  }

  /** The support variable: absolute, or relative to the topmost child's variable
      (`bottom` if both children are terminals). */
  function ResolveVar(code: Code, n: nat, below: Option<nat>, bottom: nat): Option<nat> {
    if code == AbsoluteID then Some(n)
    else
      var base := if below.Some? then below.value else bottom;
      if n <= base then Some(base - n) else None
  }

  /** One node record, read up to its codes: variable code and number, then-id, complement, else-id. */
  datatype Raw = RawTop | RawInner(code: Code, n: nat, t: nat, neg: bool, e: nat)

  function ReadRec(input: seq<Byte>, node: nat): (r: Result<Raw>)
    ensures r.Ok? && r.value.RawInner? ==>
              1 <= r.value.t < node && 1 <= r.value.e < node && r.value.code != TerminalCode
  {
    match ReadUnescape(input)
    case Err => Err
    case Ok(b, rest0) =>
      var code := CodeOf(b / 32 % 4);
      if code == TerminalCode then Ok(RawTop, rest0)
      else
        match ReadVar(rest0, code)
        case Err => Err
        case Ok(n, rest1) =>
          match ReadId(rest1, node, CodeOf(b / 8 % 4))
          case Err => Err
          case Ok(t, rest2) =>
            match ReadId(rest2, node, CodeOf(b % 4))
            case Err => Err
            case Ok(e, rest3) => Ok(RawInner(code, n, t, b / 4 % 2 == 1, e), rest3)
  }

  /** The first `n` node records of the input. */
  ghost function ReadAll(input: seq<Byte>, n: nat): (r: Result<seq<Raw>>)
    ensures r.Ok? ==> |r.value| == n
  {
    if n == 0 then Ok([], input)
    else
      match ReadAll(input, n - 1)
      case Err => Err
      case Ok(raws, rest) =>
        match ReadRec(rest, n)
        case Err => Err
        case Ok(raw, rest') => Ok(raws + [raw], rest')
  }

  // --- The format ------------------------------------------------------------

  /** Reference to the child `id` of the node `node`: code 0 is the terminal, 1 is followed by
      the id, 2 by its distance from the node, and 3 stands for the preceding node. */
  predicate ChildFormat(node: nat, id: nat, code: Bits, operand: seq<Byte>) {
    || (code == 0 && id == 1 && operand == [])
    || (code == 1 && operand == EscapeAll(Encoded(id)))
    || (code == 2 && id <= node && operand == EscapeAll(Encoded(node - id)))
    || (code == 3 && id + 1 == node && operand == [])
  }

  /** The variable of a node: code 1 is followed by its index, 2 by the distance from the
      topmost variable of the children, and 3 stands for the variable right above it. */
  predicate VarFormat(v: nat, below: Option<nat>, code: Bits, operand: seq<Byte>) {
    || (code == 1 && operand == EscapeAll(Encoded(v)))
    || (code == 2 && below.Some? && v <= below.value && operand == EscapeAll(Encoded(below.value - v)))
    || (code == 3 && below.Some? && v + 1 == below.value && operand == [])
  }

  /** The parts of a record: the codes and operands of the variable, the then- and the else-edge. */
  datatype Parts = Parts(vc: Bits, tc: Bits, ec: Bits, v: seq<Byte>, t: seq<Byte>, e: seq<Byte>)

  /** The first byte holds, from the highest bit: one unused bit, two bits for the variable, two for
      the then-edge, one for the complement of the else-edge, and two for the else-edge. */
  function PartsBytes(p: Parts, neg: bool): seq<Byte> {
    Escape(32 * p.vc + 8 * p.tc + (if neg then 4 else 0) + p.ec) + (p.v + (p.t + p.e))
  }

  predicate PartsFormat(ns: seq<Rec>, k: nat, p: Parts)
    requires k < |ns| && ns[k].Inner? && ValidId(ns, ns[k].t) && ValidId(ns, ns[k].e)
  {
    && VarFormat(ns[k].v, MinVar(VarAt(ns, ns[k].t), VarAt(ns, ns[k].e)), p.vc, p.v)
    && ChildFormat(k + 1, ns[k].t, p.tc, p.t) && ChildFormat(k + 1, ns[k].e, p.ec, p.e)
  }

  /** The bytes are a record of the node with the index `k`. */
  ghost predicate RecFormat(ns: seq<Rec>, k: nat, bytes: seq<Byte>)
    requires k < |ns|
  {
    match ns[k]
    case Top => bytes == [0, 0]
    case Inner(v, t, neg, e) =>
      && ValidId(ns, t) && ValidId(ns, e)
      && exists p :: PartsFormat(ns, k, p) && bytes == PartsBytes(p, neg)
  }

  lemma ChildWritten(ns: seq<Rec>, node: nat, id: nat)
    requires ValidId(ns, id) && id < node && (ns[id - 1].Top? ==> id == 1)
    ensures var c := ChildCode(ns, node, id); ChildFormat(node, id, CodeNumber(c.0), Operand(c))
  {
    hide EscapeAll, Encoded;
  }

  lemma VarWritten(v: nat, below: Option<nat>)
    requires Above(v, below)
    ensures var c := VarCode(v, below); VarFormat(v, below, CodeNumber(c.0), Operand(c))
  {
    hide EscapeAll, Encoded;
  }

  lemma InnerWritten(ns: seq<Rec>, k: nat, nvars: nat) returns (p: Parts)
    requires Dump(ns, nvars) && k < |ns| && RecOrdered(ns, k, nvars) && ns[k].Inner?
    ensures ValidId(ns, ns[k].t) && ValidId(ns, ns[k].e) && PartsFormat(ns, k, p)
    ensures RecBytes(ns, k, nvars) == PartsBytes(p, ns[k].neg)
  {
    hide ChildCode, VarCode, Operand, ChildFormat, VarFormat, Escape, CodeNumber;
    var Inner(v, t, neg, e) := ns[k];
    var below := MinVar(VarAt(ns, t), VarAt(ns, e));
    var vc, tc, ec := VarCode(v, below), ChildCode(ns, k + 1, t), ChildCode(ns, k + 1, e);
    VarWritten(v, below);
    ChildWritten(ns, k + 1, t);
    ChildWritten(ns, k + 1, e);
    p := Parts(CodeNumber(vc.0), CodeNumber(tc.0), CodeNumber(ec.0), Operand(vc), Operand(tc), Operand(ec));
    SameCode(vc.0, tc.0, neg, ec.0);
  }

  lemma SameCode(v: Code, t: Code, neg: bool, e: Code)
    ensures NodeCode(v, t, neg, e) == 32 * CodeNumber(v) + 8 * CodeNumber(t) + (if neg then 4 else 0) + CodeNumber(e)
  {
  }

  /** Records are written in the format. */
  lemma RecWritten(ns: seq<Rec>, k: nat, nvars: nat)
    requires Dump(ns, nvars) && k < |ns| && RecOrdered(ns, k, nvars)
    ensures RecFormat(ns, k, RecBytes(ns, k, nvars))
  {
    if ns[k].Inner? {
      hide RecBytes, PartsBytes, PartsFormat;
      var p := InnerWritten(ns, k, nvars);
    }
  }

  // --- Reading the format ----------------------------------------------------

  lemma Fields(v: nat, t: nat, c: nat, e: nat)
    requires v < 4 && t < 4 && c < 2 && e < 4
    ensures var b := 32 * v + 8 * t + 4 * c + e;
            b / 32 % 4 == v && b / 8 % 4 == t && b / 4 % 2 == c && b % 4 == e
  {
    var b := 32 * v + 8 * t + 4 * c + e;
    assert b / 32 == v && b / 8 == v * 4 + t && b / 4 == v * 8 + t * 2 + c;
  }

  /** References in the format are read as what they stand for, and no subtraction underflows. */
  lemma ReadChild(node: nat, id: nat, code: Bits, operand: seq<Byte>, rest: seq<Byte>)
    requires ChildFormat(node, id, code, operand) && 1 <= id < node < WORD
    ensures ReadId(operand + rest, node, CodeOf(code)) == Ok(id, rest)
  {
    hide DecodeFrom, EscapeAll, Encoded;
    if code == 1 {
      DecodeEncoded(id, rest);
    } else if code == 2 {
      DecodeEncoded(node - id, rest);
    } else {
      assert operand + rest == rest;
    }
  }

  /** Variables in the format are read as what they stand for. */
  lemma ReadVariable(v: nat, below: Option<nat>, code: Bits, operand: seq<Byte>, bottom: nat, rest: seq<Byte>)
    requires VarFormat(v, below, code, operand) && v < WORD && (below.Some? ==> below.value < WORD)
    ensures var r := ReadVar(operand + rest, CodeOf(code));
            && CodeOf(code) != TerminalCode && r.Ok? && r.rest == rest
            && ResolveVar(CodeOf(code), r.value, below, bottom) == Some(v)
  {
    hide DecodeFrom, EscapeAll, Encoded;
    if code == 1 {
      DecodeEncoded(v, rest);
    } else if code == 2 {
      DecodeEncoded(below.value - v, rest);
    } else {
      assert operand + rest == rest;
    }
  }

  /** A record reads back to the same children and, once the variable code is
      resolved against the children's variables, to the same variable. */
  ghost predicate ReadsBack(ns: seq<Rec>, k: nat, bottom: nat, raw: Raw)
    requires k < |ns|
  {
    match ns[k]
    case Top => raw == RawTop
    case Inner(v, t, neg, e) =>
      && 1 <= t <= k && 1 <= e <= k
      && raw.RawInner? && raw.t == t && raw.neg == neg && raw.e == e && raw.code != TerminalCode
      && ResolveVar(raw.code, raw.n, MinVar(VarAt(ns, t), VarAt(ns, e)), bottom) == Some(v)
  }

  lemma Regroup(a: seq<Byte>, b: seq<Byte>, c: seq<Byte>, d: seq<Byte>, rest: seq<Byte>)
    ensures a + (b + (c + d)) + rest == a + (b + (c + (d + rest)))
  {
    assert a + (b + (c + d)) + rest == a + (b + (c + d) + rest);
    assert b + (c + d) + rest == b + (c + d + rest);
    assert c + d + rest == c + (d + rest);
  }

  /** The parser on a code byte followed by the three operands. */
  lemma ReadParts(p: Parts, neg: bool, node: nat, n: nat, t: nat, e: nat, rest: seq<Byte>)
    requires CodeOf(p.vc) != TerminalCode
    requires ReadVar(p.v + (p.t + (p.e + rest)), CodeOf(p.vc)) == Ok(n, p.t + (p.e + rest))
    requires ReadId(p.t + (p.e + rest), node, CodeOf(p.tc)) == Ok(t, p.e + rest)
    requires ReadId(p.e + rest, node, CodeOf(p.ec)) == Ok(e, rest)
    ensures ReadRec(PartsBytes(p, neg) + rest, node) == Ok(RawInner(CodeOf(p.vc), n, t, neg, e), rest)
  {
    hide Escape, ReadUnescape, ReadId, ReadVar, CodeOf;
    var code: Byte := 32 * p.vc + 8 * p.tc + (if neg then 4 else 0) + p.ec;
    Regroup(Escape(code), p.v, p.t, p.e, rest);
    UnescapeEscape(code, p.v + (p.t + (p.e + rest)));
    Fields(p.vc, p.tc, if neg then 1 else 0, p.ec);
  }

  lemma ReadInner(ns: seq<Rec>, k: nat, nvars: nat, p: Parts, bottom: nat, rest: seq<Byte>)
    requires Dump(ns, nvars) && k < |ns| && ns[k].Inner? && RecOrdered(ns, k, nvars) && PartsFormat(ns, k, p)
    ensures var r := ReadRec(PartsBytes(p, ns[k].neg) + rest, k + 1);
            r.Ok? && r.rest == rest && ReadsBack(ns, k, bottom, r.value)
  {
    hide PartsBytes, ReadRec, ReadId, ReadVar, ChildFormat, VarFormat, ResolveVar, CodeOf;
    var Inner(v, t, neg, e) := ns[k];
    assert RecOrdered(ns, t - 1, nvars) && RecOrdered(ns, e - 1, nvars);
    ReadVariable(v, MinVar(VarAt(ns, t), VarAt(ns, e)), p.vc, p.v, bottom, p.t + (p.e + rest));
    ReadChild(k + 1, t, p.tc, p.t, p.e + rest);
    ReadChild(k + 1, e, p.ec, p.e, rest);
    var n := ReadVar(p.v + (p.t + (p.e + rest)), CodeOf(p.vc)).value;
    ReadParts(p, neg, k + 1, n, t, e, rest);
  }

  /** Every record in the format, by whatever writer, is read as the node it stands for. */
  lemma ReadBytes(ns: seq<Rec>, k: nat, nvars: nat, bytes: seq<Byte>, bottom: nat, rest: seq<Byte>)
    requires Dump(ns, nvars) && k < |ns| && RecFormat(ns, k, bytes)
    ensures var r := ReadRec(bytes + rest, k + 1);
            r.Ok? && r.rest == rest && ReadsBack(ns, k, bottom, r.value)
  {
    hide PartsFormat;
    assert RecOrdered(ns, k, nvars);
    if ns[k].Top? {
      UnescapeEscape(0, rest);
    } else {
      hide ReadRec, PartsBytes, ReadsBack;
      var p :| PartsFormat(ns, k, p) && bytes == PartsBytes(p, ns[k].neg);
      ReadInner(ns, k, nvars, p, bottom, rest);
    }
  }

  // --- Import ----------------------------------------------------------------

  predicate Increasing(levels: seq<Level>) {
    forall i, j :: 0 <= i < j < |levels| ==> levels[i] < levels[j]
  }

  /** The levels of the support variables in the importing manager. */
  predicate LevelMap(levels: seq<Level>, numLevels: nat) {
    && numLevels <= TERMINAL_LEVEL && Increasing(levels)
    && forall i :: 0 <= i < |levels| ==> levels[i] < numLevels
  }

  ghost predicate LevelsBelow(s: Store, numLevels: nat) {
    forall i :: i in s ==> s[i].level < numLevels
  }

  /** The imported edge `nodes[j]` is a copy of the node with the id j + 1. */
  ghost predicate MirrorsAt(s: Store, nodes: seq<Edge>, ns: seq<Rec>, levels: seq<Level>, j: nat)
    requires j < |nodes| <= |ns|
  {
    match ns[j]
    case Top => nodes[j] == TRUE
    case Inner(v, t, neg, e) =>
      && 1 <= t <= j && 1 <= e <= j && v < |levels| && !nodes[j].neg && nodes[j].to.Ref? && nodes[j].to.id in s
      && !nodes[t - 1].neg && !nodes[e - 1].neg
      && s[nodes[j].to.id] == Node(levels[v], nodes[t - 1], nodes[e - 1].(neg := neg))
  }

  ghost predicate Mirrors(s: Store, nodes: seq<Edge>, ns: seq<Rec>, levels: seq<Level>) {
    |nodes| <= |ns| && forall j :: 0 <= j < |nodes| ==> MirrorsAt(s, nodes, ns, levels, j)
  }

  /** Different nodes have different copies. */
  lemma {:induction false} CopiesDiffer(s: Store, nodes: seq<Edge>, ns: seq<Rec>, levels: seq<Level>, i: nat, j: nat)
    requires Dump(ns, |levels|) && Mirrors(s, nodes, ns, levels) && Increasing(levels)
    requires i < |nodes| && j < |nodes| && nodes[i].to == nodes[j].to
    ensures i == j
    decreases i + j
  {
    assert MirrorsAt(s, nodes, ns, levels, i) && MirrorsAt(s, nodes, ns, levels, j);
    if ns[i].Inner? && ns[j].Inner? {
      CopiesDiffer(s, nodes, ns, levels, ns[i].t - 1, ns[j].t - 1);
      CopiesDiffer(s, nodes, ns, levels, ns[i].e - 1, ns[j].e - 1);
      assert ns[i].v == ns[j].v;
      assert ns[i] == ns[j];
    }
  }

  lemma MirrorsFrame(s: Store, r: Store, nodes: seq<Edge>, ns: seq<Rec>, levels: seq<Level>)
    requires Mirrors(s, nodes, ns, levels) && Extends(s, r)
    ensures Mirrors(r, nodes, ns, levels)
  {
    forall j | 0 <= j < |nodes|
      ensures MirrorsAt(r, nodes, ns, levels, j)
    {
      assert MirrorsAt(s, nodes, ns, levels, j);
    }
  }

  lemma MirrorsAppend(s: Store, nodes: seq<Edge>, x: Edge, ns: seq<Rec>, levels: seq<Level>)
    requires Mirrors(s, nodes, ns, levels) && |nodes| < |ns| && MirrorsAt(s, nodes + [x], ns, levels, |nodes|)
    ensures Mirrors(s, nodes + [x], ns, levels)
  {
    forall j | 0 <= j < |nodes|
      ensures MirrorsAt(s, nodes + [x], ns, levels, j)
    {
      assert MirrorsAt(s, nodes, ns, levels, j);
    }
  }

  function Min(a: nat, b: nat): nat {
    if a <= b then a else b
  }

  /** The level of a copy tells its support variable. */
  lemma CopyLevel(s: Store, nodes: seq<Edge>, ns: seq<Rec>, levels: seq<Level>, id: nat)
    requires Mirrors(s, nodes, ns, levels) && 1 <= id <= |nodes|
    ensures Valid(s, nodes[id - 1].to) && !nodes[id - 1].neg
    ensures VarAt(ns, id).Some? ==> VarAt(ns, id).value < |levels|
    ensures LevelOf(s, nodes[id - 1].to) == if VarAt(ns, id).Some? then levels[VarAt(ns, id).value] else TERMINAL_LEVEL
  {
    assert MirrorsAt(s, nodes, ns, levels, id - 1);
  }

  /** The variable against which relative variable codes are resolved. */
  method ChildVar(s: Store, t: Edge, e: Edge, levelVar: seq<nat>) returns (base: nat)
    requires Valid(s, t.to) && Valid(s, e.to) && LevelsBelow(s, |levelVar|) && |levelVar| <= TERMINAL_LEVEL
    ensures var l := Min(LevelOf(s, t.to), LevelOf(s, e.to));
            if l == TERMINAL_LEVEL then base == |levelVar| else l < |levelVar| && base == levelVar[l]
  {
    var l := Min(LevelOf(s, t.to), LevelOf(s, e.to));
    if l == TERMINAL_LEVEL {
      base := |levelVar|;
    } else {
      base := levelVar[l];
    }
  }

  /** The copies so far are right and `raw` is the record of the next inner node. */
  ghost predicate Expected(s: Store, nodes: seq<Edge>, raw: Raw, levels: seq<Level>, bottom: nat, ns: seq<Rec>) {
    && Dump(ns, |levels|) && |nodes| < |ns| && ns[|nodes|].Inner? && Mirrors(s, nodes, ns, levels)
    && ReadsBack(ns, |nodes|, bottom, raw)
  }

  /** The record read for the next node says what `rec` says: its children, and its variable,
      absolute or counted upward from the variable of the topmost child's copy. */
  ghost predicate Stands(s: Store, nodes: seq<Edge>, levels: seq<Level>, bottom: nat, raw: Raw, rec: Rec) {
    match rec
    case Top => raw.RawTop?
    case Inner(v, t, neg, e) =>
      && raw.RawInner? && raw.t == t && raw.neg == neg && raw.e == e
      && 1 <= t <= |nodes| && 1 <= e <= |nodes| && v < |levels|
      && Valid(s, nodes[t - 1].to) && Valid(s, nodes[e - 1].to)
      && VarStands(levels, bottom, raw.code, raw.n, v, Min(LevelOf(s, nodes[t - 1].to), LevelOf(s, nodes[e - 1].to)))
  }

  ghost predicate VarStands(levels: seq<Level>, bottom: nat, code: Code, n: nat, v: nat, below: Level) {
    if code == AbsoluteID then v == n
    else if below == TERMINAL_LEVEL then v + n == bottom
    else v + n < |levels| && levels[v + n] == below
  }

  /** No variable above the children stands for the one that was read. */
  ghost predicate Refuses(s: Store, nodes: seq<Edge>, levels: seq<Level>, bottom: nat, raw: Raw) {
    && raw.RawInner? && 1 <= raw.t <= |nodes| && 1 <= raw.e <= |nodes|
    && Valid(s, nodes[raw.t - 1].to) && Valid(s, nodes[raw.e - 1].to)
    && var below := Min(LevelOf(s, nodes[raw.t - 1].to), LevelOf(s, nodes[raw.e - 1].to));
    forall v: nat :: v < |levels| && VarStands(levels, bottom, raw.code, raw.n, v, below) ==> below <= levels[v]
  }

  /** The records stand for the nodes of the file. */
  ghost predicate File(s: Store, nodes: seq<Edge>, levels: seq<Level>, bottom: nat, raws: seq<Raw>, ns: seq<Rec>) {
    && |nodes| == |raws| == |ns|
    && forall j :: 0 <= j < |ns| ==> Stands(s, nodes[..j], levels, bottom, raws[j], ns[j])
  }

  /** The variable that a code stands for is found by the importer's table. */
  lemma ResolvesVar(s: Store, t: Edge, e: Edge, code: Code, n: nat, levels: seq<Level>, levelVar: seq<nat>, base: nat)
    requires LevelMap(levels, |levelVar|) && forall i :: 0 <= i < |levels| ==> levelVar[levels[i]] == i
    requires Valid(s, t.to) && Valid(s, e.to) && Supported(s, t, levels) && Supported(s, e, levels)
    requires var l := Min(LevelOf(s, t.to), LevelOf(s, e.to));
             if l == TERMINAL_LEVEL then base == |levelVar| else l < |levelVar| && base == levelVar[l]
    ensures var below := Min(LevelOf(s, t.to), LevelOf(s, e.to));
            forall v: nat :: VarStands(levels, |levelVar|, code, n, v, below)
                             <==> if code == AbsoluteID then v == n else v + n == base
  {
    var below := Min(LevelOf(s, t.to), LevelOf(s, e.to));
    if below != TERMINAL_LEVEL {
      var i :| 0 <= i < |levels| && levels[i] == below;
      assert forall j :: 0 <= j < |levels| && j != i ==> levels[j] != below;
    }
  }

  /** The level of a node, if the record's variable is in range and above both children. */
  method ResolveLevel(s: Store, nodes: seq<Edge>, raw: Raw, levels: seq<Level>, levelVar: seq<nat>, ghost ns: seq<Rec>)
    returns (l: Option<Level>, ghost rec: Rec)
    requires Canonical(s) && LevelMap(levels, |levelVar|) && LevelsBelow(s, |levelVar|)
    requires forall i :: 0 <= i < |levels| ==> levelVar[levels[i]] == i
    requires raw.RawInner? && 1 <= raw.t <= |nodes| && 1 <= raw.e <= |nodes|
    requires forall j :: 0 <= j < |nodes| ==> Valid(s, nodes[j].to) && Supported(s, nodes[j], levels)
    ensures l.None? ==> Refuses(s, nodes, levels, |levelVar|, raw)
    ensures l.Some? ==> l.value < |levelVar| && l.value < TERMINAL_LEVEL
                        && Below(s, nodes[raw.t - 1].to, l.value) && Below(s, nodes[raw.e - 1].to, l.value)
    ensures l.Some? ==> Stands(s, nodes, levels, |levelVar|, raw, rec) && rec.Inner? && l.value == levels[rec.v]
    ensures Expected(s, nodes, raw, levels, |levelVar|, ns) ==>
              l.Some? && ExpectedLevel(nodes, raw, levels, ns, l.value) && rec == ns[|nodes|]
  {
    hide Dump, Mirrors, MirrorsAt, ReadsBack, Ordered, Canonical, VarStands, Supported;
    rec := Top;
    var t, e := nodes[raw.t - 1], nodes[raw.e - 1];
    var base := ChildVar(s, t, e, levelVar);
    ResolvesVar(s, t, e, raw.code, raw.n, levels, levelVar, base);
    if Expected(s, nodes, raw, levels, |levelVar|, ns) {
      ExpectedResolves(s, nodes, raw, levels, levelVar, ns, base);
    }
    var v: nat := 0;
    if raw.code == AbsoluteID {
      v := raw.n;
    } else if raw.n <= base {
      v := base - raw.n;
    } else {
      return None, rec;
    }
    rec := Inner(v, raw.t, raw.neg, raw.e);
    if v >= |levels| || levels[v] >= LevelOf(s, t.to) || levels[v] >= LevelOf(s, e.to) {
      return None, rec;
    }
    l := Some(levels[v]);
  }

  /** What the record that is read is for the record that was written. */
  ghost predicate ExpectedLevel(nodes: seq<Edge>, raw: Raw, levels: seq<Level>, ns: seq<Rec>, l: Level) {
    && raw.RawInner? && |nodes| < |ns| && ns[|nodes|].Inner?
    && var n := ns[|nodes|];
    && 1 <= n.t <= |nodes| && 1 <= n.e <= |nodes| && n.v < |levels| && l == levels[n.v]
    && raw.t == n.t && raw.e == n.e && raw.neg == n.neg
    && !nodes[n.t - 1].neg && !nodes[n.e - 1].neg
    && nodes[n.t - 1] != nodes[n.e - 1].(neg := n.neg)
  }

  /** The edge denotes `t` where the variable at the level is true, elsewhere `e` or its complement. */
  ghost predicate Chooses(s: Store, x: Edge, l: Level, t: Edge, neg: bool, e: Edge)
    requires Ordered(s)
  {
    && Valid(s, x.to) && Valid(s, t.to) && Valid(s, e.to)
    && forall v :: Eval(s, x, v) == if l in v then Eval(s, t, v) else neg != Eval(s, e, v)
  }

  lemma IsChoice(s: Store, x: Edge, l: Level, t: Edge, neg: bool, e: Edge)
    requires Ordered(s) && Valid(s, x.to) && Valid(s, t.to) && Valid(s, e.to)
    requires forall v :: Eval(s, x, v) == Eval(s, if l in v then t else if neg then Not(e) else e, v)
    ensures Chooses(s, x, l, t, neg, e)
  {
  }

  /** Rebuild one inner node; `None` stands for the error returns. */
  method ImportNode(s: Store, nodes: seq<Edge>, raw: Raw, levels: seq<Level>, levelVar: seq<nat>, limit: nat,
                    ghost ns: seq<Rec>)
    returns (r: Store, x: Option<Edge>, ghost rec: Rec)
    requires Canonical(s) && LevelMap(levels, |levelVar|) && LevelsBelow(s, |levelVar|)
    requires forall i :: 0 <= i < |levels| ==> levelVar[levels[i]] == i
    requires raw.RawInner? && 1 <= raw.t <= |nodes| && 1 <= raw.e <= |nodes|
    requires forall j :: 0 <= j < |nodes| ==> Valid(s, nodes[j].to) && Supported(s, nodes[j], levels)
    ensures Canonical(r) && Extends(s, r) && LevelsBelow(r, |levelVar|) && |r| <= |s| + 1
    ensures x.Some? ==> Valid(r, x.value.to) && Supported(r, x.value, levels)
    ensures x.None? ==> r == s && (|s| >= limit || Refuses(s, nodes, levels, |levelVar|, raw))
    ensures x.Some? ==> Stands(s, nodes, levels, |levelVar|, raw, rec) && rec.Inner? && Ordered(r)
                        && Chooses(r, x.value, levels[rec.v], nodes[rec.t - 1], rec.neg, nodes[rec.e - 1])
    ensures Expected(s, nodes, raw, levels, |levelVar|, ns) && x.Some? ==> rec == ns[|nodes|]
    ensures Expected(s, nodes, raw, levels, |levelVar|, ns) ==>
              if x.Some? then MirrorsAt(r, nodes + [x.value], ns, levels, |nodes|) else |s| >= limit
  {
    hide Expected, MirrorsAt, Canonical, Eval, LevelMap;
    var l;
    l, rec := ResolveLevel(s, nodes, raw, levels, levelVar, ns);
    if l.None? {
      return s, None, rec;
    }
    var t, e := nodes[raw.t - 1], nodes[raw.e - 1];
    var e' := if raw.neg then Not(e) else e;
    r, x := Reduce(s, l.value, t, e', limit);
    CanonicalOrdered(r);
    if x.Some? {
      IsChoice(r, x.value, l.value, t, raw.neg, e);
    }
    if Expected(s, nodes, raw, levels, |levelVar|, ns) && x.Some? {
      assert e' == e.(neg := raw.neg);
      CopyIsMirror(r, nodes, x.value, ns, levels);
    }
  }

  /** For the expected record all checks of the importer pass. */
  lemma ExpectedResolves(s: Store, nodes: seq<Edge>, raw: Raw, levels: seq<Level>, levelVar: seq<nat>,
                         ns: seq<Rec>, base: nat)
    requires Expected(s, nodes, raw, levels, |levelVar|, ns) && LevelMap(levels, |levelVar|)
    requires forall i :: 0 <= i < |levels| ==> levelVar[levels[i]] == i
    requires 1 <= raw.t <= |nodes| && 1 <= raw.e <= |nodes|
    requires var t, e := nodes[raw.t - 1].to, nodes[raw.e - 1].to;
             && Valid(s, t) && Valid(s, e)
             && var l := Min(LevelOf(s, t), LevelOf(s, e));
             if l == TERMINAL_LEVEL then base == |levelVar| else l < |levelVar| && base == levelVar[l]
    ensures var n := ns[|nodes|];
            && n.v < |levels| && raw.t == n.t && raw.e == n.e && raw.neg == n.neg
            && (if raw.code == AbsoluteID then raw.n == n.v else raw.n <= base && base - raw.n == n.v)
            && levels[n.v] < LevelOf(s, nodes[raw.t - 1].to) && levels[n.v] < LevelOf(s, nodes[raw.e - 1].to)
            && !nodes[raw.t - 1].neg && !nodes[raw.e - 1].neg
            && nodes[raw.t - 1] != nodes[raw.e - 1].(neg := raw.neg)
  {
    hide Mirrors;
    var n := ns[|nodes|];
    assert RecOrdered(ns, |nodes|, |levels|);
    CopyLevel(s, nodes, ns, levels, n.t);
    CopyLevel(s, nodes, ns, levels, n.e);
    if nodes[n.t - 1].to == nodes[n.e - 1].to {
      CopiesDiffer(s, nodes, ns, levels, n.t - 1, n.e - 1);
    }
    var tv, ev := VarAt(ns, n.t), VarAt(ns, n.e);
    var below := MinVar(tv, ev);
    assert base == if below.Some? then below.value else |levelVar|;
  }

  lemma CopyIsMirror(s: Store, nodes: seq<Edge>, x: Edge, ns: seq<Rec>, levels: seq<Level>)
    requires |nodes| < |ns| && ns[|nodes|].Inner?
    requires var n := ns[|nodes|];
             && 1 <= n.t <= |nodes| && 1 <= n.e <= |nodes| && n.v < |levels|
             && !nodes[n.t - 1].neg && !nodes[n.e - 1].neg && !x.neg && x.to.Ref? && x.to.id in s
             && s[x.to.id] == Node(levels[n.v], nodes[n.t - 1], nodes[n.e - 1].(neg := n.neg))
    ensures MirrorsAt(s, nodes + [x], ns, levels, |nodes|)
  {
  }

  /** The support variable of each level, and a dummy for the other levels. */
  method InvertLevels(levels: seq<Level>, numLevels: nat) returns (levelVar: seq<nat>)
    requires LevelMap(levels, numLevels)
    ensures |levelVar| == numLevels && forall i :: 0 <= i < |levels| ==> levelVar[levels[i]] == i
  {
    levelVar := seq(numLevels, _ => 0xFFFF_FFFF);
    for i := 0 to |levels|
      invariant |levelVar| == numLevels && forall j :: 0 <= j < i ==> levelVar[levels[j]] == j
    {
      levelVar := levelVar[levels[i] := i];
    }
  }

  /** The bytes are records of the nodes from index `k` on, followed by `tail`. */
  ghost predicate DumpFormat(rest: seq<Byte>, ns: seq<Rec>, k: nat, tail: seq<Byte>)
    requires k <= |ns|
    decreases |ns| - k
  {
    if k == |ns| then rest == tail
    else exists n: nat | n <= |rest| :: RecFormat(ns, k, rest[..n]) && DumpFormat(rest[n..], ns, k + 1, tail)
  }

  /** The bytes left once the nodes before `k` have been read. */
  ghost predicate Remaining(rest: seq<Byte>, ns: seq<Rec>, k: nat, nvars: nat, tail: seq<Byte>) {
    Dump(ns, nvars) && k <= |ns| && DumpFormat(rest, ns, k, tail)
  }

  /** A dump is written in the format. */
  lemma {:induction false} DumpWritten(ns: seq<Rec>, k: nat, nvars: nat, tail: seq<Byte>)
    requires Dump(ns, nvars) && k <= |ns|
    ensures Remaining(DumpBytes(ns, k, nvars) + tail, ns, k, nvars, tail)
    decreases |ns| - k
  {
    hide RecFormat, RecBytes, Dump;
    DumpIsOrdered(ns, nvars);
    var all := DumpBytes(ns, k, nvars) + tail;
    if k < |ns| {
      assert RecOrdered(ns, k, nvars);
      var bytes, after := RecBytes(ns, k, nvars), DumpBytes(ns, k + 1, nvars) + tail;
      RecWritten(ns, k, nvars);
      DumpWritten(ns, k + 1, nvars, tail);
      var n := |bytes|;
      assert all[..n] == bytes && all[n..] == after;
    }
  }

  lemma DumpIsOrdered(ns: seq<Rec>, nvars: nat)
    requires Dump(ns, nvars)
    ensures DumpOrdered(ns, nvars)
  {
  }

  lemma ReadNext(rest: seq<Byte>, ns: seq<Rec>, k: nat, nvars: nat, bottom: nat, tail: seq<Byte>)
    requires Remaining(rest, ns, k, nvars, tail) && k < |ns|
    ensures var r := ReadRec(rest, k + 1);
            r.Ok? && Dump(ns, nvars) && Remaining(r.rest, ns, k + 1, nvars, tail) && ReadsBack(ns, k, bottom, r.value)
  {
    hide ReadRec, ReadsBack, RecFormat, Dump;
    var n: nat :| n <= |rest| && RecFormat(ns, k, rest[..n]) && DumpFormat(rest[n..], ns, k + 1, tail);
    assert rest == rest[..n] + rest[n..];
    ReadBytes(ns, k, nvars, rest[..n], bottom, rest[n..]);
  }

  lemma DoneReading(rest: seq<Byte>, ns: seq<Rec>, nvars: nat, tail: seq<Byte>)
    requires Remaining(rest, ns, |ns|, nvars, tail)
    ensures rest == tail
  {
  }

  /** One round of the import: the terminal or an inner node. */
  method ImportRecord(s: Store, nodes: seq<Edge>, raw: Raw, levels: seq<Level>, levelVar: seq<nat>, limit: nat,
                      ghost raws: seq<Raw>, ghost file: seq<Rec>, ghost ns: seq<Rec>, ghost good: bool)
    returns (r: Store, x: Option<Edge>, ghost rec: Rec)
    requires Canonical(s) && LevelMap(levels, |levelVar|) && LevelsBelow(s, |levelVar|)
    requires forall i :: 0 <= i < |levels| ==> levelVar[levels[i]] == i
    requires raw.RawInner? ==> 1 <= raw.t <= |nodes| && 1 <= raw.e <= |nodes|
    requires File(s, nodes, levels, |levelVar|, raws, file) && Copies(s, nodes, levels, file)
    requires good ==> Dump(ns, |levels|) && Mirrors(s, nodes, ns, levels) && |nodes| < |ns|
                      && ReadsBack(ns, |nodes|, |levelVar|, raw)
    ensures Canonical(r) && Extends(s, r) && LevelsBelow(r, |levelVar|) && |r| <= |s| + 1
    ensures x.None? ==> r == s && (|s| >= limit || Refuses(s, nodes, levels, |levelVar|, raw))
    ensures x.Some? ==> File(r, nodes + [x.value], levels, |levelVar|, raws + [raw], file + [rec])
    ensures x.Some? ==> Copies(r, nodes + [x.value], levels, file + [rec])
    ensures good ==> if x.Some? then rec == ns[|nodes|] && Mirrors(r, nodes + [x.value], ns, levels) else |s| >= limit
  {
    hide Canonical, ReadsBack, Dump, MirrorsAt, Mirrors, Expected, LevelMap, LevelsBelow;
    hide Stands, Chooses, Copies, File, Ordered;
    CanonicalOrdered(s);
    CopiesValid(s, nodes, levels, file);
    if raw.RawTop? {
      r, x, rec := s, Some(TRUE), Top;
      if good {
        TopCopy(s, nodes, ns, levels, |levelVar|, raw);
      }
      TopStands(s, nodes, levels, |levelVar|, raw);
    } else {
      r, x, rec := ImportNode(s, nodes, raw, levels, levelVar, limit, ns);
      if good {
        InnerExpected(s, nodes, ns, levels, |levelVar|, raw);
        if x.Some? {
          InnerCopy(s, r, nodes, x.value, ns, levels);
        }
      }
      if x.Some? {
        StandsRange(s, nodes, levels, |levelVar|, raw, rec);
      }
    }
    if x.Some? {
      CanonicalOrdered(r);
      FileGrows(s, r, nodes, x.value, levels, |levelVar|, raws, raw, file, rec);
      CopiesGrow(s, r, nodes, x.value, levels, file, rec);
    }
  }

  lemma StandsRange(s: Store, nodes: seq<Edge>, levels: seq<Level>, bottom: nat, raw: Raw, rec: Rec)
    requires Stands(s, nodes, levels, bottom, raw, rec) && rec.Inner?
    ensures 1 <= rec.t <= |nodes| && 1 <= rec.e <= |nodes| && rec.v < |levels|
  {
  }

  /** The import stops before the node with the index |ns|: there is no record, its variable is
      refused, or the store is full. */
  ghost predicate Stops(input: seq<Byte>, s: Store, nodes: seq<Edge>, levels: seq<Level>, bottom: nat, ns: seq<Rec>,
                        limit: nat)
  {
    var k, read, next := |ns|, ReadAll(input, |ns|), ReadAll(input, |ns| + 1);
    && read.Ok? && File(s, nodes, levels, bottom, read.value, ns) && Copies(s, nodes, levels, ns)
    && (next.Err? || |s| >= limit || Refuses(s, nodes, levels, bottom, next.value[k]))
  }

  /** Import of the binary node section. Whatever the input, the store stays canonical
      and keeps its nodes. On a dump `ns` in the format the import succeeds unless the store gets
      full, stops exactly behind the dump, and every node gets its copy. */
  method ImportBin(input: seq<Byte>, nnodes: nat, s: Store, levels: seq<Level>, numLevels: nat, limit: nat,
                   ghost ns: seq<Rec>, ghost tail: seq<Byte>)
    returns (r: Store, res: Result<seq<Edge>>, ghost file: seq<Rec>)
    requires Canonical(s) && LevelMap(levels, numLevels) && LevelsBelow(s, numLevels)
    ensures Canonical(r) && Extends(s, r)
    ensures res.Err? ==> |file| < nnodes && exists nodes :: Stops(input, r, nodes, levels, numLevels, file, limit)
    ensures res.Ok? ==> ReadAll(input, nnodes).Ok? && ReadAll(input, nnodes).rest == res.rest
    ensures res.Ok? ==> File(r, res.value, levels, numLevels, ReadAll(input, nnodes).value, file)
    ensures res.Ok? ==> Copies(r, res.value, levels, file)
    ensures Remaining(input, ns, 0, |levels|, tail) && nnodes == |ns| ==>
              && (|s| + nnodes <= limit ==> res.Ok?)
              && (res.Ok? ==> res.rest == tail && file == ns && Mirrors(r, res.value, ns, levels))
  {
    hide Canonical, ReadRec, ReadsBack, Dump, MirrorsAt, Mirrors, Remaining, Expected, LevelMap, LevelsBelow;
    hide Stands, Chooses, Copies, File, Ordered, Extends, ReadAll, Refuses, Stops;
    var levelVar := InvertLevels(levels, numLevels);
    var rest, nodes: seq<Edge> := input, [];
    ghost var good := Remaining(input, ns, 0, |levels|, tail) && nnodes == |ns|;
    ghost var raws: seq<Raw> := [];
    r, file := s, [];
    CanonicalOrdered(s);
    NoCopies(s, ns, levels, numLevels);
    NothingRead(input);
    ExtendsSelf(s);
    for k := 0 to nnodes
      invariant Canonical(r) && Extends(s, r) && LevelsBelow(r, numLevels) && |r| <= |s| + k
      invariant |nodes| == |file| == k && ReadAll(input, k) == Ok(raws, rest)
      invariant File(r, nodes, levels, numLevels, raws, file) && Copies(r, nodes, levels, file)
      invariant good ==> Remaining(rest, ns, k, |levels|, tail) && Mirrors(r, nodes, ns, levels) && file == ns[..k]
    {
      if good {
        ReadNext(rest, ns, k, |levels|, numLevels, tail);
      }
      var rec := ReadRec(rest, k + 1);
      if rec.Err? {
        UnreadStops(input, r, nodes, levels, numLevels, file, raws, rest, limit);
        return r, Err, file;
      }
      NextRead(input, k, raws, rest, rec.value, rec.rest);
      rest := rec.rest;
      ghost var before := r;
      var x;
      ghost var entry;
      r, x, entry := ImportRecord(r, nodes, rec.value, levels, levelVar, limit, raws, file, ns, good);
      ExtendsMore(s, before, r);
      if x.None? {
        RefusedStops(input, r, nodes, levels, numLevels, file, raws, rec.value, rest, limit);
        return r, Err, file;
      }
      if good {
        assert ns[..k + 1] == ns[..k] + [ns[k]];
      }
      nodes, file, raws := nodes + [x.value], file + [entry], raws + [rec.value];
    }
    if good {
      DoneReading(rest, ns, |levels|, tail);
      assert ns[..|ns|] == ns;
    }
    res := Ok(nodes, rest);
  }

  lemma UnreadStops(input: seq<Byte>, s: Store, nodes: seq<Edge>, levels: seq<Level>, bottom: nat, ns: seq<Rec>,
                    raws: seq<Raw>, rest: seq<Byte>, limit: nat)
    requires File(s, nodes, levels, bottom, raws, ns) && Copies(s, nodes, levels, ns)
    requires ReadAll(input, |ns|) == Ok(raws, rest) && ReadRec(rest, |ns| + 1).Err?
    ensures Stops(input, s, nodes, levels, bottom, ns, limit)
  {
    hide File, Copies, ReadRec;
  }

  lemma RefusedStops(input: seq<Byte>, s: Store, nodes: seq<Edge>, levels: seq<Level>, bottom: nat, ns: seq<Rec>,
                     raws: seq<Raw>, raw: Raw, rest: seq<Byte>, limit: nat)
    requires File(s, nodes, levels, bottom, raws, ns) && Copies(s, nodes, levels, ns) && |nodes| == |ns|
    requires ReadAll(input, |ns|).Ok? && ReadAll(input, |ns|).value == raws
    requires ReadAll(input, |ns| + 1) == Ok(raws + [raw], rest)
    requires |s| >= limit || Refuses(s, nodes, levels, bottom, raw)
    ensures Stops(input, s, nodes, levels, bottom, ns, limit)
  {
    hide Copies, ReadAll, Refuses, Stands;
  }

  lemma ExtendsSelf(s: Store)
    ensures Extends(s, s)
  {
  }

  lemma ExtendsMore(s: Store, r: Store, r': Store)
    requires Extends(s, r) && Extends(r, r')
    ensures Extends(s, r')
  {
  }

  lemma NothingRead(input: seq<Byte>)
    ensures ReadAll(input, 0) == Ok([], input)
  {
  }

  lemma NextRead(input: seq<Byte>, n: nat, raws: seq<Raw>, rest: seq<Byte>, raw: Raw, rest': seq<Byte>)
    requires ReadAll(input, n) == Ok(raws, rest) && ReadRec(rest, n + 1) == Ok(raw, rest')
    ensures ReadAll(input, n + 1) == Ok(raws + [raw], rest')
  {
    hide ReadRec;
  }

  lemma CopiesValid(s: Store, nodes: seq<Edge>, levels: seq<Level>, ns: seq<Rec>)
    requires Copies(s, nodes, levels, ns)
    ensures forall j :: 0 <= j < |nodes| ==> Valid(s, nodes[j].to) && Supported(s, nodes[j], levels)
  {
  }

  lemma TopStands(s: Store, nodes: seq<Edge>, levels: seq<Level>, bottom: nat, raw: Raw)
    requires raw.RawTop?
    ensures Stands(s, nodes, levels, bottom, raw, Top)
  {
  }

  lemma StandsFrame(s: Store, r: Store, nodes: seq<Edge>, levels: seq<Level>, bottom: nat, raw: Raw, rec: Rec)
    requires Stands(s, nodes, levels, bottom, raw, rec) && Extends(s, r)
    ensures Stands(r, nodes, levels, bottom, raw, rec)
  {
  }

  lemma FileGrows(s: Store, r: Store, nodes: seq<Edge>, x: Edge, levels: seq<Level>, bottom: nat,
                  raws: seq<Raw>, raw: Raw, ns: seq<Rec>, rec: Rec)
    requires File(s, nodes, levels, bottom, raws, ns) && Extends(s, r)
    requires Stands(s, nodes, levels, bottom, raw, rec)
    ensures File(r, nodes + [x], levels, bottom, raws + [raw], ns + [rec])
  {
    hide Stands, Extends;
    var nodes', raws', ns' := nodes + [x], raws + [raw], ns + [rec];
    forall j | 0 <= j < |ns'|
      ensures Stands(r, nodes'[..j], levels, bottom, raws'[j], ns'[j])
    {
      assert nodes'[..j] == nodes[..j];
      assert nodes[..|nodes|] == nodes;
      StandsFrame(s, r, nodes[..j], levels, bottom, raws'[j], ns'[j]);
    }
  }

  /** Later nodes do not matter for the value of a node. */
  lemma {:induction false} RecValueFrame(ns: seq<Rec>, rec: Rec, id: nat, w: set<nat>)
    requires Numbered(ns) && Numbered(ns + [rec]) && ValidId(ns, id)
    ensures RecValue(ns + [rec], id, w) == RecValue(ns, id, w)
    decreases id
  {
    if ns[id - 1].Inner? {
      RecValueFrame(ns, rec, ns[id - 1].t, w);
      RecValueFrame(ns, rec, ns[id - 1].e, w);
    }
  }

  lemma DenotesFrame(s: Store, r: Store, x: Edge, levels: seq<Level>, ns: seq<Rec>, rec: Rec, id: nat)
    requires Ordered(s) && Ordered(r) && Extends(s, r) && Valid(s, x.to)
    requires Numbered(ns) && Numbered(ns + [rec]) && ValidId(ns, id) && Denotes(s, x, levels, ns, id)
    ensures Valid(r, x.to) && (Supported(s, x, levels) ==> Supported(r, x, levels))
    ensures Denotes(r, x, levels, ns + [rec], id)
  {
    hide Ordered, Numbered, Value, RecValue, Corresponds;
    forall v, w | Corresponds(levels, v, w)
      ensures Eval(r, x, v) == RecValue(ns + [rec], id, w)
    {
      ValueFrame(s, r, x.to, v);
      RecValueFrame(ns, rec, id, w);
    }
  }

  /** A choice between copies of the children is a copy of the node. */
  lemma ChoiceDenotes(s: Store, nodes: seq<Edge>, x: Edge, levels: seq<Level>, ns: seq<Rec>)
    requires Ordered(s) && Numbered(ns) && |ns| == |nodes| + 1 && ns[|nodes|].Inner?
    requires forall j :: 0 <= j < |nodes| ==> Valid(s, nodes[j].to) && Denotes(s, nodes[j], levels, ns, j + 1)
    requires var n := ns[|nodes|];
             n.v < |levels| && Chooses(s, x, levels[n.v], nodes[n.t - 1], n.neg, nodes[n.e - 1])
    ensures Denotes(s, x, levels, ns, |ns|)
  {
    hide Ordered, Eval;
    var n := ns[|nodes|];
    assert Denotes(s, nodes[n.t - 1], levels, ns, n.t) && Denotes(s, nodes[n.e - 1], levels, ns, n.e);
    forall v, w | Corresponds(levels, v, w)
      ensures Eval(s, x, v) == RecValue(ns, |ns|, w)
    {
      assert n.v in w <==> levels[n.v] in v;
    }
  }

  lemma CopiesGrow(s: Store, r: Store, nodes: seq<Edge>, x: Edge, levels: seq<Level>, ns: seq<Rec>, rec: Rec)
    requires Copies(s, nodes, levels, ns) && Extends(s, r) && Ordered(r) && Valid(r, x.to) && Supported(r, x, levels)
    requires rec.Top? ==> x == TRUE
    requires rec.Inner? ==>
               && 1 <= rec.t <= |nodes| && 1 <= rec.e <= |nodes| && rec.v < |levels|
               && Chooses(r, x, levels[rec.v], nodes[rec.t - 1], rec.neg, nodes[rec.e - 1])
    ensures Copies(r, nodes + [x], levels, ns + [rec])
  {
    hide Ordered, Chooses, Extends, Denotes;
    var ns' := ns + [rec];
    forall j | 0 <= j < |nodes|
      ensures Valid(r, nodes[j].to) && Supported(r, nodes[j], levels) && Denotes(r, nodes[j], levels, ns', j + 1)
    {
      DenotesFrame(s, r, nodes[j], levels, ns, rec, j + 1);
    }
    if rec.Top? {
      TopDenotes(r, levels, ns');
    } else {
      ChoiceDenotes(r, nodes, x, levels, ns');
    }
  }

  lemma TopDenotes(s: Store, levels: seq<Level>, ns: seq<Rec>)
    requires Ordered(s) && Numbered(ns) && |ns| > 0 && ns[|ns| - 1].Top?
    ensures Denotes(s, TRUE, levels, ns, |ns|)
  {
  }

  lemma InnerCopy(s: Store, r: Store, nodes: seq<Edge>, x: Edge, ns: seq<Rec>, levels: seq<Level>)
    requires Mirrors(s, nodes, ns, levels) && Extends(s, r)
    requires |nodes| < |ns| && MirrorsAt(r, nodes + [x], ns, levels, |nodes|)
    ensures Mirrors(r, nodes + [x], ns, levels)
  {
    MirrorsFrame(s, r, nodes, ns, levels);
    MirrorsAppend(r, nodes, x, ns, levels);
  }

  lemma NoCopies(s: Store, ns: seq<Rec>, levels: seq<Level>, bottom: nat)
    requires Ordered(s)
    ensures Mirrors(s, [], ns, levels) && Copies(s, [], levels, []) && File(s, [], levels, bottom, [], [])
  {
  }

  lemma TopCopy(s: Store, nodes: seq<Edge>, ns: seq<Rec>, levels: seq<Level>, bottom: nat, raw: Raw)
    requires Mirrors(s, nodes, ns, levels) && |nodes| < |ns| && raw.RawTop? && ReadsBack(ns, |nodes|, bottom, raw)
    ensures ns[|nodes|] == Top && Mirrors(s, nodes + [TRUE], ns, levels)
  {
    MirrorsAppend(s, nodes, TRUE, ns, levels);
  }

  lemma InnerExpected(s: Store, nodes: seq<Edge>, ns: seq<Rec>, levels: seq<Level>, bottom: nat, raw: Raw)
    requires Dump(ns, |levels|) && Mirrors(s, nodes, ns, levels) && |nodes| < |ns|
    requires raw.RawInner? && ReadsBack(ns, |nodes|, bottom, raw)
    ensures ns[|nodes|].Inner? && Expected(s, nodes, raw, levels, bottom, ns)
  {
  }
}
