/** Clause order trees of DIMACS files, and the conjunction of clauses along such a tree. */
module ClauseTree {
  import opened Options
  import opened Collections

  /** Trees with clause (or variable) numbers at the leaves. */
  datatype Tree = Leaf(n: nat) | Inner(sub: seq<Tree>)

  datatype Token = Num(n: nat) | Open | Close | Comma | Newline | Other

  const MAX_U64: nat := 0xFFFF_FFFF_FFFF_FFFF
  const MAX_CAPACITY: nat := MAX_U64 / 2 / 8

  /** The numbers at the leaves, from left to right. */
  function Flatten(t: Tree): seq<nat>
    decreases t, 0, 1
  {
    match t
    case Leaf(n) => [n]
    case Inner(sub) => FlattenFirst(t, |sub|)
  }

  /** The leaves below the first `k` children. */
  function FlattenFirst(t: Tree, k: nat): seq<nat>
    requires t.Inner? && k <= |t.sub|
    decreases t, 0, 0, k
  {
    if k == 0 then [] else FlattenFirst(t, k - 1) + Flatten(t.sub[k - 1])
  }

  method FlattenInto(t: Tree, into: seq<nat>) returns (r: seq<nat>)
    ensures r == into + Flatten(t)
  {
    match t {
      case Leaf(n) => r := into + [n];
      case Inner(sub) =>
        r := into;
        for k := 0 to |sub|
          invariant r == into + FlattenFirst(t, k)
        {
          r := FlattenInto(sub[k], r);
        }
    }
  }

  lemma {:induction false} FlattenPrefix(a: Tree, b: Tree, k: nat)
    requires a.Inner? && b.Inner? && k <= |a.sub| && a.sub <= b.sub
    ensures FlattenFirst(a, k) == FlattenFirst(b, k)
  {
    if k > 0 {
      FlattenPrefix(a, b, k - 1);
    }
  }

  lemma FlattenAppend(ts: seq<Tree>, t: Tree)
    ensures Flatten(Inner(ts + [t])) == Flatten(Inner(ts)) + Flatten(t)
  {
    FlattenPrefix(Inner(ts), Inner(ts + [t]), |ts|);
  }

  // --- Order trees -----------------------------------------------------------

  /** `[42]` stands for `42`. */
  function Collapse(ts: seq<Tree>): Tree {
    if |ts| == 1 then ts[0] else Inner(ts)
  }

  lemma FlattenCollapse(ts: seq<Tree>)
    ensures Flatten(Collapse(ts)) == Flatten(Inner(ts))
  {
    if |ts| == 1 {
      assert FlattenFirst(Inner(ts), 0) == [];
      assert Flatten(Inner(ts)) == FlattenFirst(Inner(ts), 0) + Flatten(ts[0]);
    }
  }

  function Value(tok: Token, oneBased: bool): (n: int)
    requires tok.Num?
  {
    if oneBased then tok.n - 1 else tok.n
  }

  /** The trees in brackets make the tree; brackets around a single one have no meaning. */
  predicate Brackets(t: Tree, ts: seq<Tree>) {
    (|ts| == 1 && ts == [t]) || (|ts| != 1 && t == Inner(ts))
  }

  /** The tokens from `a` to `b` are a spelling of the tree. */
  ghost predicate Spells(t: Tree, input: seq<Token>, a: nat, b: nat, oneBased: bool)
    decreases b - a
  {
    && a < b <= |input|
    && if input[a].Num? then b == a + 1 && t.Leaf? && input[a].n == t.n + (if oneBased then 1 else 0)
       else input[a] == Open && exists ts :: Brackets(t, ts) && SpellsList(ts, input, a + 1, b, oneBased)
  }

  /** The tokens from `a` to `b` are trees separated by commas, followed by a closing
      bracket; a trailing comma is allowed. */
  ghost predicate SpellsList(ts: seq<Tree>, input: seq<Token>, a: nat, b: nat, oneBased: bool)
    decreases b - a
  {
    && a < b <= |input|
    && if ts == [] then b == a + 1 && input[a] == Close
       else exists i :: a < i < b && Spells(ts[0], input, a, i, oneBased)
                        && ((|ts| == 1 && b == i + 1 && input[i] == Close)
                            || (input[i] == Comma && SpellsList(ts[1..], input, i + 1, b, oneBased)))
  }

  /** The tokens from `a` to `b` are trees, each followed by a comma. */
  ghost predicate Separated(ts: seq<Tree>, input: seq<Token>, a: nat, b: nat, oneBased: bool)
    decreases |ts|, 0
  {
    && a <= b <= |input|
    && if ts == [] then a == b
       else a < b && input[b - 1] == Comma && EndsWith(ts[..|ts| - 1], ts[|ts| - 1], input, a, b - 1, oneBased)
  }

  /** After the separated trees `ts` the tokens spell the tree `t`. */
  ghost predicate EndsWith(ts: seq<Tree>, t: Tree, input: seq<Token>, a: nat, b: nat, oneBased: bool)
    decreases |ts|, 1
  {
    exists i :: a <= i && Separated(ts, input, a, i, oneBased) && Spells(t, input, i, b, oneBased)
  }

  /** A list continues what has been read of it. */
  lemma {:induction false} Continue(ts: seq<Tree>, us: seq<Tree>, input: seq<Token>, a: nat, i: nat, b: nat,
                                    oneBased: bool)
    requires Separated(ts, input, a, i, oneBased) && SpellsList(us, input, i, b, oneBased)
    ensures SpellsList(ts + us, input, a, b, oneBased)
    decreases |ts|
  {
    if ts == [] {
      assert ts + us == us;
    } else {
      var n := |ts| - 1;
      assert EndsWith(ts[..n], ts[n], input, a, i - 1, oneBased);
      var j: nat :| a <= j && Separated(ts[..n], input, a, j, oneBased) && Spells(ts[n], input, j, i - 1, oneBased);
      var vs := [ts[n]] + us;
      assert vs[0] == ts[n] && vs[1..] == us;
      assert SpellsList(vs, input, j, b, oneBased);
      Continue(ts[..n], vs, input, a, j, b, oneBased);
      assert ts[..n] + vs == ts + us;
    }
  }

  /** A spelling determines its end and its tree. */
  lemma {:induction false} SpellsUnique(t: Tree, u: Tree, input: seq<Token>, a: nat, b: nat, c: nat, oneBased: bool)
    requires Spells(t, input, a, b, oneBased) && Spells(u, input, a, c, oneBased)
    ensures b == c && t == u
    decreases b - a
  {
    if !input[a].Num? {
      var ts :| Brackets(t, ts) && SpellsList(ts, input, a + 1, b, oneBased);
      var us :| Brackets(u, us) && SpellsList(us, input, a + 1, c, oneBased);
      ListUnique(ts, us, input, a + 1, b, c, oneBased);
    }
  }

  lemma {:induction false} ListUnique(ts: seq<Tree>, us: seq<Tree>, input: seq<Token>, a: nat, b: nat, c: nat,
                                      oneBased: bool)
    requires SpellsList(ts, input, a, b, oneBased) && SpellsList(us, input, a, c, oneBased)
    ensures b == c && ts == us
    decreases b - a
  {
    if ts != [] && us != [] {
      var i :| a < i < b && Spells(ts[0], input, a, i, oneBased)
               && ((|ts| == 1 && b == i + 1 && input[i] == Close)
                   || (input[i] == Comma && SpellsList(ts[1..], input, i + 1, b, oneBased)));
      var j :| a < j < c && Spells(us[0], input, a, j, oneBased)
               && ((|us| == 1 && c == j + 1 && input[j] == Close)
                   || (input[j] == Comma && SpellsList(us[1..], input, j + 1, c, oneBased)));
      SpellsUnique(ts[0], us[0], input, a, i, j, oneBased);
      if input[i] == Comma {
        ListUnique(ts[1..], us[1..], input, i + 1, b, c, oneBased);
        assert ts == [ts[0]] + ts[1..] && us == [us[0]] + us[1..];
      }
    }
  }

  predicate In(inserted: seq<bool>, n: nat) {
    n < |inserted| && inserted[n]
  }

  ghost predicate Largest(s: seq<nat>, max: nat) {
    (forall n :: n in s ==> n <= max) && (if s == [] then max == 0 else max in s)
  }

  /** `after` marks the distinct numbers `s` in addition to `before`. */
  ghost predicate Marked(before: seq<bool>, s: seq<nat>, after: seq<bool>) {
    && Distinct(s)
    && (forall n :: n in s ==> !In(before, n))
    && (forall n :: In(after, n) <==> In(before, n) || n in s)
  }

  lemma MarkedAppend(v0: seq<bool>, s: seq<nat>, v1: seq<bool>, s': seq<nat>, v2: seq<bool>)
    requires Marked(v0, s, v1) && Marked(v1, s', v2)
    ensures Marked(v0, s + s', v2)
  {
    var w := s + s';
    forall i, j | 0 <= i < j < |w|
      ensures w[i] != w[j]
    {
      if i < |s| <= j {
        assert w[i] in s && w[j] in s';
      }
    }
  }

  lemma LargestAppend(s: seq<nat>, max: nat, s': seq<nat>, max': nat)
    requires Largest(s, max) && Largest(s', max')
    ensures Largest(s + s', if max' >= max then max' else max)
  {
    if s == [] {
      assert s + s' == s';
    }
    if s' == [] {
      assert s + s' == s;
    }
  }

  datatype Outcome =
    | Read(next: nat, tree: Tree, max: nat)
    | TooLarge | ZeroNumber | SecondOccurrence | Expected

  /** Two tokens are the same number. */
  ghost predicate Twice(input: seq<Token>) {
    exists i, j :: 0 <= i < j < |input| && input[i].Num? && input[i] == input[j]
  }

  lemma Nothing(v: seq<bool>)
    ensures Flatten(Inner([])) == [] && Marked(v, [], v) && Largest([], 0)
  {
  }

  lemma SeparatorAdded(ts: seq<Tree>, input: seq<Token>, a: nat, i: nat, t: Tree, j: nat, oneBased: bool)
    requires Separated(ts, input, a, i, oneBased) && Spells(t, input, i, j, oneBased)
    requires j < |input| && input[j] == Comma
    ensures Separated(ts + [t], input, a, j + 1, oneBased)
  {
    assert (ts + [t])[..|ts + [t]| - 1] == ts;
    assert EndsWith(ts, t, input, a, j, oneBased);
  }

  /** The list ends with a tree, or after a comma. */
  lemma ListEnds(ts: seq<Tree>, input: seq<Token>, a: nat, i: nat, t: Tree, j: nat, oneBased: bool)
    requires Separated(ts, input, a + 1, i, oneBased) && Spells(t, input, i, j, oneBased)
    requires j < |input| && a < |input| && input[a] == Open && input[j] == Close
    ensures Spells(Collapse(ts + [t]), input, a, j + 1, oneBased)
  {
    assert [t][0] == t;
    assert SpellsList([t], input, i, j + 1, oneBased);
    Continue(ts, [t], input, a + 1, i, j + 1, oneBased);
    assert Brackets(Collapse(ts + [t]), ts + [t]);
  }

  lemma ListEndsEarly(ts: seq<Tree>, input: seq<Token>, a: nat, i: nat, oneBased: bool)
    requires Separated(ts, input, a + 1, i, oneBased)
    requires i < |input| && a < |input| && input[a] == Open && input[i] == Close
    ensures Spells(Collapse(ts), input, a, i + 1, oneBased)
  {
    Continue(ts, [], input, a + 1, i, i + 1, oneBased);
    assert ts + [] == ts && Brackets(Collapse(ts), ts);
  }

  /** The numbers before `b` are in range and different. */
  predicate Fine(input: seq<Token>, b: nat, oneBased: bool)
    requires b <= |input|
  {
    && (forall i :: 0 <= i < b && input[i].Num? ==> input[i].n <= MAX_CAPACITY && (oneBased ==> input[i].n > 0))
    && (forall i, j :: 0 <= i < j < b && input[i].Num? ==> input[i] != input[j])
  }

  /** The first subtree of a list that has one, and what follows it. */
  lemma ListSplit(ts: seq<Tree>, input: seq<Token>, a: nat, b: nat, oneBased: bool) returns (i: nat)
    requires SpellsList(ts, input, a, b, oneBased) && ts != []
    ensures a < i < b && Spells(ts[0], input, a, i, oneBased) && (input[a].Num? || input[a] == Open)
    ensures (|ts| == 1 && b == i + 1 && input[i] == Close)
            || (input[i] == Comma && SpellsList(ts[1..], input, i + 1, b, oneBased))
  {
    i :| a < i < b && Spells(ts[0], input, a, i, oneBased)
         && ((|ts| == 1 && b == i + 1 && input[i] == Close)
             || (input[i] == Comma && SpellsList(ts[1..], input, i + 1, b, oneBased)));
  }

  /** Another subtree contributes its numbers. */
  lemma Collected(ts: seq<Tree>, v0: seq<bool>, max: nat, v1: seq<bool>, t: Tree, v2: seq<bool>, max': nat)
    requires Marked(v0, Flatten(Inner(ts)), v1) && Largest(Flatten(Inner(ts)), max)
    requires Marked(v1, Flatten(t), v2) && Largest(Flatten(t), max')
    ensures Marked(v0, Flatten(Inner(ts + [t])), v2)
    ensures Largest(Flatten(Inner(ts + [t])), if max' >= max then max' else max)
  {
    FlattenAppend(ts, t);
    MarkedAppend(v0, Flatten(Inner(ts)), v1, Flatten(t), v2);
    LargestAppend(Flatten(Inner(ts)), max, Flatten(t), max');
  }

  class Reader {
    const input: seq<Token>
    const oneBased: bool
    var inserted: seq<bool>
    var buffer: seq<Tree>

    constructor (input: seq<Token>, oneBased: bool)
      ensures this.input == input && this.oneBased == oneBased && inserted == [] && buffer == []
    {
      this.input, this.oneBased := input, oneBased;
      inserted, buffer := [], [];
    }

    ghost predicate Occurs(n: nat, pos: nat) {
      exists i :: 0 <= i < pos && i < |input| && input[i].Num? && Value(input[i], oneBased) == n
    }

    /** Only numbers before `pos` are marked, and the last bit is always set. */
    ghost predicate Valid(pos: nat)
      reads this`inserted
    {
      && (inserted != [] ==> inserted[|inserted| - 1])
      && (forall n :: In(inserted, n) ==> Occurs(n, pos))
    }

    ghost predicate Explained(r: Outcome) {
      match r
      case Read(_, _, _) => true
      case TooLarge => exists i :: 0 <= i < |input| && input[i].Num? && input[i].n > MAX_CAPACITY
      case ZeroNumber => oneBased && Num(0) in input
      case SecondOccurrence => Twice(input)
      case Expected => true
    }

    /** The tokens from `pos` to `next` spell the tree, and all numbers up to `next` are fine. */
    ghost predicate Readable(t: Tree, pos: nat, next: nat) {
      Spells(t, input, pos, next, oneBased) && Fine(input, next, oneBased)
    }

    lemma ValidLater(pos: nat, pos': nat)
      requires Valid(pos) && pos <= pos'
      ensures Valid(pos')
    {
    }

    lemma NoError(r: Outcome)
      requires r.Read? || r.Expected?
      ensures Explained(r)
    {
    }

    /** Read a single number. */
    method ReadNumber(pos: nat) returns (r: Outcome)
      requires pos < |input| && input[pos].Num? && Valid(pos)
      modifies this
      ensures buffer == old(buffer) && Explained(r)
      ensures r.Read? ==> r.next == pos + 1 && r.tree == Leaf(r.max) && Spells(r.tree, input, pos, r.next, oneBased)
      ensures r.Read? ==> Valid(r.next) && Marked(old(inserted), [r.max], inserted)
      ensures Fine(input, pos + 1, oneBased) ==> r.Read?
    {
      var n := input[pos].n;
      if n > MAX_CAPACITY {
        return TooLarge;
      }
      if oneBased {
        if n == 0 {
          return ZeroNumber;
        }
        n := n - 1;
      }
      if |inserted| <= n {
        inserted := inserted + seq(n + 1 - |inserted|, _ => false);
      } else if inserted[n] {
        assert Occurs(n, pos);
        var i :| 0 <= i < pos && input[i].Num? && Value(input[i], oneBased) == n;
        assert input[i] == input[pos];
        return SecondOccurrence;
      }
      inserted := inserted[n := true];
      assert Value(input[pos], oneBased) == n;
      assert Occurs(n, pos + 1);
      assert forall k: nat :: Occurs(k, pos) ==> Occurs(k, pos + 1);
      assert forall k: nat :: In(inserted, k) <==> In(old(inserted), k) || k == n;
      return Read(pos + 1, Leaf(n), n);
    }

    /** Read a tree. The buffer holds the subtrees of all pending lists; it is restored. If the
        tokens spell the tree `t`, it is `t` that is read. */
    method ReadTree(pos: nat, ghost t: Tree, ghost next: nat) returns (r: Outcome)
      requires pos <= |input| && Valid(pos)
      modifies this
      ensures Explained(r)
      ensures r.Read? ==> buffer == old(buffer) && Spells(r.tree, input, pos, r.next, oneBased)
      ensures r.Read? ==> Valid(r.next) && Marked(old(inserted), Flatten(r.tree), inserted)
      ensures r.Read? ==> Largest(Flatten(r.tree), r.max)
      ensures Readable(t, pos, next) ==> r.Read? && r.next == next && r.tree == t
      decreases |input| - pos, 1
    {
      hide Fine, Reader.Valid;
      if pos < |input| && input[pos].Num? && input[pos].n <= MAX_U64 {
        r := ReadNumber(pos);
      } else if pos < |input| && input[pos] == Open {
        r := ReadList(pos, t, next);
      } else {
        r := Expected;
        NumberFits(t, pos, next);
      }
    }

    lemma NumberFits(t: Tree, pos: nat, next: nat)
      ensures Readable(t, pos, next) ==> pos < |input|
      ensures Readable(t, pos, next) ==> if input[pos].Num? then input[pos].n <= MAX_U64 else input[pos] == Open
    {
    }

    /** What the numbers of the subtrees `ts` have done to the marks since `before`. */
    ghost predicate Pending(ts: seq<Tree>, before: seq<bool>, max: nat, pos: nat)
      reads this`inserted
    {
      Valid(pos) && Marked(before, Flatten(Inner(ts)), inserted) && Largest(Flatten(Inner(ts)), max)
    }

    lemma PendingNext(ts: seq<Tree>, before: seq<bool>, max: nat, v: seq<bool>, sub: Outcome)
      requires sub.Read? && Valid(sub.next) && Marked(before, Flatten(Inner(ts)), v) && Largest(Flatten(Inner(ts)), max)
      requires Marked(v, Flatten(sub.tree), inserted) && Largest(Flatten(sub.tree), sub.max)
      ensures Pending(ts + [sub.tree], before, if sub.max >= max then sub.max else max, sub.next)
    {
      Collected(ts, before, max, v, sub.tree, inserted, sub.max);
    }

    lemma PendingFirst(before: seq<bool>, pos: nat)
      requires Valid(pos) && inserted == before
      requires pos < |input|
      ensures Pending([], before, 0, pos + 1) && Separated([], input, pos + 1, pos + 1, oneBased)
    {
      ValidLater(pos, pos + 1);
    }

    lemma PendingLater(ts: seq<Tree>, before: seq<bool>, max: nat, pos: nat)
      requires Pending(ts, before, max, pos)
      ensures Pending(ts, before, max, pos + 1)
    {
      ValidLater(pos, pos + 1);
    }

    lemma PendingParts(ts: seq<Tree>, before: seq<bool>, max: nat, pos: nat)
      requires Pending(ts, before, max, pos)
      ensures Valid(pos) && Marked(before, Flatten(Inner(ts)), inserted) && Largest(Flatten(Inner(ts)), max)
    {
    }

    /** What remains to be read of the list `us` once the trees `ts` have been read. */
    ghost predicate Remains(us: seq<Tree>, ts: seq<Tree>, pos: nat, next: nat) {
      && ts <= us && SpellsList(us[|ts|..], input, pos, next, oneBased) && Fine(input, next, oneBased)
    }

    lemma RemainsFirst(t: Tree, pos: nat, next: nat) returns (us: seq<Tree>)
      requires Readable(t, pos, next) && !input[pos].Num?
      ensures t == Collapse(us) && Remains(us, [], pos + 1, next)
    {
      us :| Brackets(t, us) && SpellsList(us, input, pos + 1, next, oneBased);
      assert us[0..] == us;
    }

    lemma RemainsNext(us: seq<Tree>, ts: seq<Tree>, pos: nat, next: nat) returns (i: nat)
      requires Remains(us, ts, pos, next) && input[pos] != Close
      ensures |ts| < |us| && pos < i < next && Readable(us[|ts|], pos, i)
      ensures (ts + [us[|ts|]] == us && next == i + 1 && input[i] == Close)
              || (input[i] == Comma && Remains(us, ts + [us[|ts|]], i + 1, next))
    {
      var rest := us[|ts|..];
      i := ListSplit(rest, input, pos, next, oneBased);
      assert rest[0] == us[|ts|] && rest[1..] == us[|ts| + 1..];
      FineBefore(i, next);
    }

    lemma FineBefore(i: nat, next: nat)
      requires i <= next <= |input| && Fine(input, next, oneBased)
      ensures Fine(input, i, oneBased)
    {
    }

    lemma RemainsNothing(us: seq<Tree>, ts: seq<Tree>, pos: nat, next: nat)
      requires Remains(us, ts, pos, next) && input[pos] == Close
      ensures ts == us && next == pos + 1
    {
      if |ts| < |us| {
        var i := ListSplit(us[|ts|..], input, pos, next, oneBased);
      }
    }

    /** Where reading a list has got to: the trees `ts` have been read, up to the token `i`,
        which is the closing bracket if the list is `done`. `us` are all its trees. */
    ghost predicate Halfway(pos: nat, ts: seq<Tree>, i: nat, done: bool, good: bool, us: seq<Tree>, next: nat) {
      && pos < i <= |input|
      && (!done ==> Separated(ts, input, pos + 1, i, oneBased) && (good ==> Remains(us, ts, i, next)))
      && (done ==> i < |input| && Spells(Collapse(ts), input, pos, i + 1, oneBased))
      && (done && good ==> ts == us && next == i + 1)
    }

    lemma HalfwayEnds(pos: nat, ts: seq<Tree>, i: nat, good: bool, us: seq<Tree>, next: nat)
      requires Halfway(pos, ts, i, false, good, us, next) && i < |input| && pos < |input|
      requires input[pos] == Open && input[i] == Close
      ensures Halfway(pos, ts, i, true, good, us, next)
    {
      hide Spells, SpellsList, Separated, Reader.Remains;
      ListEndsEarly(ts, input, pos, i, oneBased);
      if good {
        RemainsNothing(us, ts, i, next);
      }
    }

    /** One more tree has been read: it is the expected one, and a separator or the end follows. */
    lemma HalfwayNext(pos: nat, ts: seq<Tree>, i: nat, t: Tree, j: nat, good: bool, us: seq<Tree>, next: nat)
      requires Halfway(pos, ts, i, false, good, us, next) && pos < |input| && input[pos] == Open
      requires Spells(t, input, i, j, oneBased)
      requires good ==> ItemExpected(us, ts, i, t, j, next)
      ensures good ==> j < |input| && (input[j] == Close || input[j] == Comma)
      ensures j < |input| && input[j] == Close ==> Halfway(pos, ts + [t], j, true, good, us, next)
      ensures j < |input| && input[j] == Comma ==> Halfway(pos, ts + [t], j + 1, false, good, us, next)
    {
      hide Spells, SpellsList, Separated, Reader.Remains;
      SpellsBounds(t, input, i, j, oneBased);
      if j < |input| && input[j] == Close {
        ListEnds(ts, input, pos, i, t, j, oneBased);
      } else if j < |input| && input[j] == Comma {
        SeparatorAdded(ts, input, pos + 1, i, t, j, oneBased);
      }
    }

    /** The tree `t`, which ends before the token `j`, is the next one of the list. */
    ghost predicate ItemExpected(us: seq<Tree>, ts: seq<Tree>, i: nat, t: Tree, j: nat, next: nat) {
      && |ts| < |us| && t == us[|ts|] && i < j < next <= |input|
      && ((ts + [t] == us && next == j + 1 && input[j] == Close)
          || (input[j] == Comma && Remains(us, ts + [t], j + 1, next)))
    }

    /** The next tree of a list, as it is expected to be read. */
    lemma HalfwayExpects(pos: nat, ts: seq<Tree>, i: nat, us: seq<Tree>, next: nat) returns (t: Tree, j: nat)
      requires Halfway(pos, ts, i, false, true, us, next) && !(i < |input| && input[i] == Close)
      ensures Readable(t, i, j) && ItemExpected(us, ts, i, t, j, next)
    {
      hide Spells, SpellsList, Separated, Reader.Readable;
      RemainsBounds(us, ts, i, next);
      j := RemainsNext(us, ts, i, next);
      t := us[|ts|];
    }

    /** Read a list. A list of one tree is that tree. */
    method ReadList(pos: nat, ghost t: Tree, ghost next: nat) returns (r: Outcome)
      requires pos < |input| && input[pos] == Open && Valid(pos)
      modifies this
      ensures Explained(r)
      ensures r.Read? ==> buffer == old(buffer) && Spells(r.tree, input, pos, r.next, oneBased)
      ensures r.Read? ==> Valid(r.next) && Marked(old(inserted), Flatten(r.tree), inserted)
      ensures r.Read? ==> Largest(Flatten(r.tree), r.max)
      ensures Readable(t, pos, next) ==> r.Read? && r.next == next && r.tree == t
      decreases |input| - pos, 0
    {
      hide Marked, Largest, Spells, SpellsList, Separated, Flatten, Explained, Fine, Reader.Valid, Reader.Pending;
      hide Reader.Remains, Reader.Readable, Reader.Halfway, Reader.ItemExpected;
      ghost var good, us := Readable(t, pos, next), [];
      if good {
        us := RemainsFirst(t, pos, next);
      }
      var i, max, start, done := pos + 1, 0, |buffer|, false;
      ghost var ts: seq<Tree>, v0, b0 := [], inserted, buffer;
      PendingFirst(v0, pos);
      HalfwayStarts(pos, good, us, next);
      while !done
        invariant buffer == b0 + ts && |b0| == start && Pending(ts, v0, max, i)
        invariant Halfway(pos, ts, i, done, good, us, next) && pos < i <= |input|
        decreases |input| - i, !done
      {
        if i < |input| && input[i] == Close {
          HalfwayEnds(pos, ts, i, good, us, next);
          done := true;
        } else {
          ghost var u, j: nat := t, 0;
          if good {
            u, j := HalfwayExpects(pos, ts, i, us, next);
          }
          ghost var v1 := inserted;
          PendingParts(ts, v0, max, i);
          var sub := ReadTree(i, u, j);
          if !sub.Read? {
            return sub;
          }
          PendingNext(ts, v0, max, v1, sub);
          SpellsBounds(sub.tree, input, i, sub.next, oneBased);
          HalfwayNext(pos, ts, i, sub.tree, sub.next, good, us, next);
          buffer := buffer + [sub.tree];
          ts := ts + [sub.tree];
          assert buffer == b0 + ts;
          if sub.max >= max {
            max := sub.max;
          }
          i := sub.next;
          if i < |input| && input[i] == Close {
            done := true;
          } else if i < |input| && input[i] == Comma {
            PendingLater(ts, v0, max, i);
            i := i + 1;
          } else {
            r := Expected;
            NoError(r);
            return;
          }
        }
      }
      HalfwayDone(pos, ts, i, good, us, next);
      var tree;
      if |buffer| == start + 1 {
        tree := buffer[start];
      } else {
        tree := Inner(buffer[start..]);
      }
      buffer := buffer[..start];
      assert buffer == b0 && tree == Collapse(ts);
      FlattenCollapse(ts);
      PendingLater(ts, v0, max, i);
      PendingParts(ts, v0, max, i + 1);
      r := Read(i + 1, tree, max);
      NoError(r);
    }

    lemma HalfwayStarts(pos: nat, good: bool, us: seq<Tree>, next: nat)
      requires pos < |input| && (good ==> Remains(us, [], pos + 1, next))
      ensures Halfway(pos, [], pos + 1, false, good, us, next)
    {
    }

    lemma HalfwayDone(pos: nat, ts: seq<Tree>, i: nat, good: bool, us: seq<Tree>, next: nat)
      requires Halfway(pos, ts, i, true, good, us, next)
      ensures i < |input| && Spells(Collapse(ts), input, pos, i + 1, oneBased) && (good ==> ts == us && next == i + 1)
    {
    }

    lemma RemainsBounds(us: seq<Tree>, ts: seq<Tree>, pos: nat, next: nat)
      requires Remains(us, ts, pos, next)
      ensures pos < next <= |input|
    {
    }
  }

  lemma SpellsBounds(t: Tree, input: seq<Token>, a: nat, b: nat, oneBased: bool)
    requires Spells(t, input, a, b, oneBased)
    ensures a < b <= |input|
  {
  }

  datatype Parsed = Accepted(tree: Tree, max: nat, next: nat) | Missing(n: nat) | Rejected(why: Outcome)

  /** `s` lists each of the numbers below `n` once. */
  ghost predicate Permutation(s: seq<nat>, n: nat) {
    |s| == n && Distinct(s) && forall k: nat :: k in s <==> k < n
  }

  /** If the marks have no gap, the numbers are those up to the largest. */
  lemma NoGap(s: seq<nat>, max: nat, inserted: seq<bool>)
    requires Marked([], s, inserted) && Largest(s, max) && forall n :: 0 <= n < |inserted| ==> inserted[n]
    ensures if s == [] then max == 0 else Permutation(s, max + 1)
  {
    if s != [] {
      assert In(inserted, max);
      forall n: nat
        ensures n in s <==> n < max + 1
      {
        assert In(inserted, n) <==> n in s;
      }
      DistinctSize(s, Range(0, max + 1));
    }
  }

  /** The line holds the tree `t`, which ends before the token `next`: the numbers are in range,
      different, and without a gap. */
  ghost predicate WellFormed(input: seq<Token>, oneBased: bool, t: Tree, next: nat) {
    && Spells(t, input, 0, next, oneBased) && next < |input| && input[next] == Newline && Fine(input, next, oneBased)
    && forall n, m: nat :: n in Flatten(t) && m < n ==> m in Flatten(t)
  }

  /** Read a tree that fills the rest of a line. Every well-formed tree is accepted. */
  method ParseTree(input: seq<Token>, oneBased: bool) returns (r: Parsed)
    ensures forall t, next: nat :: WellFormed(input, oneBased, t, next) ==> r.Accepted? && r.tree == t && r.next == next
    ensures r.Accepted? ==> Spells(r.tree, input, 0, r.next, oneBased) && r.next < |input| && input[r.next] == Newline
    ensures r.Accepted? ==> if Flatten(r.tree) == [] then r.max == 0 else Permutation(Flatten(r.tree), r.max + 1)
    ensures r.Missing? ==> exists t, next: nat :: Spells(t, input, 0, next, oneBased)
                                                  && r.n !in Flatten(t) && exists k :: k in Flatten(t) && k > r.n
    ensures r.Rejected? ==> match r.why
                            case Read(_, _, _) => false
                            case TooLarge => exists i :: 0 <= i < |input| && input[i].Num? && input[i].n > MAX_CAPACITY
                            case ZeroNumber => oneBased && Num(0) in input
                            case SecondOccurrence => Twice(input)
                            case Expected => !exists t, next: nat :: WellFormed(input, oneBased, t, next)
  {
    hide Spells, Fine, Flatten;
    var reader := new Reader(input, oneBased);
    ghost var good := exists t, next: nat :: WellFormed(input, oneBased, t, next);
    ghost var t, next: nat := Leaf(0), 0;
    if good {
      t, next :| WellFormed(input, oneBased, t, next);
      OnlyOne(input, oneBased, t, next);
    }
    var o := reader.ReadTree(0, t, next);
    if !o.Read? {
      return Rejected(o);
    }
    SpellsBounds(o.tree, input, 0, o.next, oneBased);
    ghost var leaves := Flatten(o.tree);
    var inserted := reader.inserted;
    for n := 0 to |inserted|
      invariant reader.inserted == inserted
      invariant forall k :: 0 <= k < n ==> inserted[k]
    {
      if !inserted[n] {
        assert In(inserted, |inserted| - 1);
        assert !In(inserted, n);
        return Missing(n);
      }
    }
    NoGap(leaves, o.max, inserted);
    if o.next == |input| || input[o.next] != Newline {
      return Rejected(Expected);
    }
    r := Accepted(o.tree, o.max, o.next);
  }

  lemma OnlyOne(input: seq<Token>, oneBased: bool, t: Tree, next: nat)
    requires WellFormed(input, oneBased, t, next)
    ensures forall u, b: nat :: WellFormed(input, oneBased, u, b) ==> u == t && b == next
  {
    forall u, b: nat | WellFormed(input, oneBased, u, b)
      ensures u == t && b == next
    {
      SpellsUnique(u, t, input, 0, b, next, oneBased);
    }
  }

  // --- Conjunction of clauses ------------------------------------------------

  /** `f` conjoins what `e` evaluates. */
  ghost predicate Conjoins<T(!new), V(!new)>(f: (T, T) -> T, e: (T, V) -> bool) {
    forall x, y, v :: e(f(x, y), v) <==> e(x, v) && e(y, v)
  }

  /** All items hold under `v`. */
  ghost predicate ItemsHold<T(!new), V(!new)>(items: seq<T>, e: (T, V) -> bool, v: V) {
    forall i :: 0 <= i < |items| ==> e(items[i], v)
  }

  /** All values present in a slice hold under `v`. */
  ghost predicate AllHold<T(!new), V(!new)>(s: seq<Option<T>>, e: (T, V) -> bool, v: V) {
    forall k :: 0 <= k < |s| && s[k].Some? ==> e(s[k].value, v)
  }

  /** The result is the conjunction of the values present in the slice, if there is any. */
  ghost predicate Reduced<T(!new), V(!new)>(s: seq<Option<T>>, e: (T, V) -> bool, r: Option<T>) {
    && (r.None? <==> forall k :: 0 <= k < |s| ==> s[k].None?)
    && (r.Some? ==> forall v :: e(r.value, v) <==> AllHold(s, e, v))
  }

  lemma ReducedHalves<T(!new), V(!new)>(a: seq<Option<T>>, b: seq<Option<T>>, e: (T, V) -> bool, f: (T, T) -> T,
                                        l: Option<T>, r: Option<T>)
    requires Conjoins(f, e) && Reduced(a, e, l) && Reduced(b, e, r)
    ensures Reduced(a + b, e, if l.None? then r else if r.None? then l else Some(f(l.value, r.value)))
  {
    var s := a + b;
    assert forall k :: 0 <= k < |a| ==> s[k] == a[k];
    assert forall k :: 0 <= k < |b| ==> s[|a| + k] == b[k];
    forall v
      ensures AllHold(s, e, v) <==> AllHold(a, e, v) && AllHold(b, e, v)
    {
      if AllHold(s, e, v) {
        forall k | 0 <= k < |b| && b[k].Some?
          ensures e(b[k].value, v)
        {
          assert s[|a| + k].Some?;
        }
      }
    }
  }

  /** Reduce a slice as a balanced tree of conjunctions, taking the values out. */
  method ReduceSlice<T(!new), V(!new)>(leaves: array<Option<T>>, lo: nat, hi: nat, f: (T, T) -> T,
                                       ghost e: (T, V) -> bool)
    returns (r: Option<T>)
    requires lo <= hi <= leaves.Length && Conjoins(f, e)
    modifies leaves
    ensures Reduced(old(leaves[lo..hi]), e, r)
    ensures forall k :: lo <= k < hi ==> leaves[k].None?
    ensures forall k :: 0 <= k < leaves.Length && !(lo <= k < hi) ==> leaves[k] == old(leaves[k])
    decreases hi - lo
  {
    if lo == hi {
      r := None;
    } else if hi - lo == 1 {
      r := leaves[lo];
      leaves[lo] := None;
    } else {
      hide Reduced, Conjoins;
      var mid := lo + (hi - lo) / 2;
      ghost var a, b := leaves[lo..mid], leaves[mid..hi];
      assert a + b == leaves[lo..hi];
      var x := ReduceSlice(leaves, lo, mid, f, e);
      assert leaves[mid..hi] == b;
      var y := ReduceSlice(leaves, mid, hi, f, e);
      ReducedHalves(a, b, e, f, x, y);
      match (x, y) {
        case (None, _) => r := y;
        case (Some(_), None) => r := x;
        case (Some(u), Some(w)) => r := Some(f(u, w));
      }
    }
  }

  method BalancedReduce<T(!new), V(!new)>(items: seq<T>, f: (T, T) -> T, ghost e: (T, V) -> bool) returns (r: Option<T>)
    requires Conjoins(f, e)
    ensures r.None? <==> items == []
    ensures r.Some? ==> forall v :: e(r.value, v) <==> ItemsHold(items, e, v)
  {
    var leaves := new Option<T>[|items|](i requires 0 <= i < |items| => Some(items[i]));
    ghost var s := leaves[0..|items|];
    assert |s| == |items| && forall k :: 0 <= k < |s| ==> s[k] == Some(items[k]);
    r := ReduceSlice(leaves, 0, |items|, f, e);
    if items != [] {
      assert s[0].Some?;
    }
    forall v
      ensures AllHold(s, e, v) <==> ItemsHold(items, e, v)
    {
      if AllHold(s, e, v) {
        forall k | 0 <= k < |items|
          ensures e(items[k], v)
        {
          assert s[k].Some?;
        }
      }
    }
  }

  /** The clauses at the leaves. */
  ghost predicate LeavesHold<T(!new), V(!new)>(clauses: seq<T>, leaves: seq<nat>, e: (T, V) -> bool, v: V)
    requires forall n :: n in leaves ==> n < |clauses|
  {
    forall n :: n in leaves ==> e(clauses[n], v)
  }

  /** Conjoin the clauses below a tree. */
  method ConjoinTree<T(!new), V(!new)>(clauses: seq<T>, t: Tree, f: (T, T) -> T, ghost e: (T, V) -> bool)
    returns (r: Option<T>)
    requires Conjoins(f, e) && forall n :: n in Flatten(t) ==> n < |clauses|
    ensures r.None? <==> Flatten(t) == []
    ensures r.Some? ==> forall v :: e(r.value, v) <==> LeavesHold(clauses, Flatten(t), e, v)
    decreases t
  {
    match t {
      case Leaf(n) =>
        assert n in Flatten(t);
        r := Some(clauses[n]);
      case Inner(sub) =>
        var items: seq<T> := [];
        for k := 0 to |sub|
          invariant forall n :: n in FlattenFirst(t, k) ==> n < |clauses|
          invariant items == [] <==> FlattenFirst(t, k) == []
          invariant forall v :: ItemsHold(items, e, v) <==> LeavesHold(clauses, FlattenFirst(t, k), e, v)
        {
          FirstBelow(t, k);
          var c := ConjoinTree(clauses, sub[k], f, e);
          if c.Some? {
            forall v
              ensures ItemsHold(items + [c.value], e, v) <==>
                        ItemsHold(items, e, v) && LeavesHold(clauses, Flatten(sub[k]), e, v)
            {
              MoreHold(items, c.value, e, v);
            }
            items := items + [c.value];
          }
          MoreLeaves(clauses, FlattenFirst(t, k), Flatten(sub[k]), e);
        }
        r := BalancedReduce(items, f, e);
    }
  }

  lemma MoreLeaves<T(!new), V(!new)>(clauses: seq<T>, a: seq<nat>, b: seq<nat>, e: (T, V) -> bool)
    requires forall n :: n in a || n in b ==> n < |clauses|
    ensures forall v :: LeavesHold(clauses, a + b, e, v) <==>
                          LeavesHold(clauses, a, e, v) && LeavesHold(clauses, b, e, v)
  {
  }

  lemma FirstBelow(t: Tree, k: nat)
    requires t.Inner? && k < |t.sub|
    ensures forall n :: n in FlattenFirst(t, k) || n in Flatten(t.sub[k]) ==> n in Flatten(t)
  {
    PrefixBelow(t, k + 1, |t.sub|);
    assert FlattenFirst(t, k + 1) == FlattenFirst(t, k) + Flatten(t.sub[k]);
    assert forall n :: n in FlattenFirst(t, k + 1) ==> n in FlattenFirst(t, |t.sub|);
  }

  lemma {:induction false} PrefixBelow(t: Tree, k: nat, m: nat)
    requires t.Inner? && k <= m <= |t.sub|
    ensures FlattenFirst(t, k) <= FlattenFirst(t, m)
  {
    if k < m {
      PrefixBelow(t, k, m - 1);
    }
  }

  lemma MoreHold<T(!new), V(!new)>(items: seq<T>, c: T, e: (T, V) -> bool, v: V)
    ensures ItemsHold(items + [c], e, v) <==> ItemsHold(items, e, v) && e(c, v)
  {
    var w := items + [c];
    assert w[|items|] == c && forall i :: 0 <= i < |items| ==> w[i] == items[i];
  }

  /** Conjoin the clauses from the first to the last. */
  function LeftDeep<T>(clauses: seq<T>, f: (T, T) -> T): T
    requires clauses != []
  {
    var n := |clauses| - 1;
    if n == 0 then clauses[0] else f(LeftDeep(clauses[..n], f), clauses[n])
  }

  lemma {:induction false} LeftDeepHolds<T(!new), V(!new)>(clauses: seq<T>, f: (T, T) -> T, e: (T, V) -> bool, v: V)
    requires clauses != [] && Conjoins(f, e)
    ensures e(LeftDeep(clauses, f), v) <==> ItemsHold(clauses, e, v)
  {
    var n := |clauses| - 1;
    if n > 0 {
      LeftDeepHolds(clauses[..n], f, e, v);
      MoreHold(clauses[..n], clauses[n], e, v);
      assert clauses[..n] + [clauses[n]] == clauses;
    }
  }

  /** Conjoining along an accepted order tree with a leaf for every clause has the meaning
      of the left-deep conjunction. An empty tree, accepted for one clause, has no result. */
  method ConjoinAccepted<T(!new), V(!new)>(clauses: seq<T>, p: Parsed, f: (T, T) -> T, ghost e: (T, V) -> bool)
    returns (r: Option<T>)
    requires Conjoins(f, e) && p.Accepted? && |clauses| == p.max + 1
    requires if Flatten(p.tree) == [] then p.max == 0 else Permutation(Flatten(p.tree), p.max + 1)
    ensures r.None? <==> Flatten(p.tree) == []
    ensures r.Some? ==> forall v :: e(r.value, v) <==> e(LeftDeep(clauses, f), v)
    ensures r.Some? ==> forall v :: e(r.value, v) <==> ItemsHold(clauses, e, v)
  {
    r := ConjoinTree(clauses, p.tree, f, e);
    forall v
      ensures e(LeftDeep(clauses, f), v) <==> ItemsHold(clauses, e, v)
    {
      LeftDeepHolds(clauses, f, e, v);
    }
  }
}
