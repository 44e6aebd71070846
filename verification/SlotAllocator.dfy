/** Slot allocation of the index manager: shared free lists, per-thread free lists
    and per-thread chunks of uninitialised slots, used by any number of threads. */
module SlotAllocator {

  const CHUNK: nat := 64 * 1024

  type ThreadId = nat

  datatype Content = Uninit | Link(next: nat) | Node

  /** Thread-local state. A thread that is not attached to this store is foreign to it. */
  datatype Local = Local(attached: bool, nextFree: nat, initialized: nat, delta: int)

  datatype State = State(
    terminals: nat,           // ids below this are terminals; slot i has the id i + terminals
    slots: seq<Content>,
    heads: seq<nat>,          // shared: the first slot (id) of each shared free list
    reserved: nat,           // shared: the slots below are initialised or belong to a chunk
    count: int,               // shared: the node count
    locals: seq<Local>,
    // The members of the free lists. No step reads these, they only record what the links say.
    shared: seq<seq<nat>>,
    local: seq<seq<nat>>,
    // The number of threshold flushes and of failed allocations so far.
    flushes: nat,
    failures: nat)

  datatype Action =
    | Attach(t: ThreadId)
    | Detach(t: ThreadId)
    | Alloc(t: ThreadId)
    | Release(t: ThreadId, i: nat)
    | Flush(t: ThreadId)

  /** `Fault` stands for dereferencing an id that is not a slot on a free list. */
  datatype Outcome = Done(state: State) | Got(state: State, i: nat) | OutOfMemory(state: State) | Fault

  const DETACHED := Local(false, 0, 0, 0)

  predicate HasChunk(l: Local) {
    l.attached && l.initialized % CHUNK != 0
  }

  /** The next multiple of the chunk size above `index`. */
  function ChunkEnd(index: nat): (end: nat)
    ensures index < end <= index + CHUNK && end % CHUNK == 0
  {
    (index / CHUNK + 1) * CHUNK
  }

  predicate Enabled(s: State, a: Action) {
    && a.t < |s.locals|
    && match a
       case Attach(t) => !s.locals[t].attached
       case Detach(t) => s.locals[t].attached
       case Alloc(t) => true
       case Release(t, i) => i < |s.slots| && s.slots[i] == Node
       case Flush(t) => s.locals[t].attached
  }

  predicate IsFreeSlot(s: State, id: nat) {
    s.terminals <= id < s.terminals + |s.slots| && s.slots[id - s.terminals].Link?
  }

  function Last<T>(x: seq<T>): T
    requires x != []
  {
    x[|x| - 1]
  }

  function Front<T>(x: seq<T>): seq<T>
    requires x != []
  {
    x[..|x| - 1]
  }

  function Tail<T>(x: seq<T>): seq<T> {
    if x == [] then [] else x[1..]
  }

  // --- The actions -----------------------------------------------------------

  /** Take a slot from the thread's own free list or chunk. */
  function AllocLocal(s: State, t: ThreadId): Outcome
    requires t < |s.locals| && |s.local| == |s.locals|
  {
    var l := s.locals[t];
    if l.nextFree != 0 then
      if !IsFreeSlot(s, l.nextFree) then Fault else
      var i := l.nextFree - s.terminals;
      Got(s.(slots := s.slots[i := Node],
             locals := s.locals[t := l.(nextFree := s.slots[i].next, delta := l.delta + 1)],
             local := s.local[t := Tail(s.local[t])]), i)
    else if l.initialized < |s.slots| then
      var i := l.initialized;
      Got(s.(slots := s.slots[i := Node],
             locals := s.locals[t := l.(initialized := i + 1, delta := l.delta + 1)]), i)
    else Fault
  }

  /** An attached thread takes over a shared list, or a new chunk, or a single slot. */
  function AllocShared(s: State, t: ThreadId): Outcome
    requires t < |s.locals| && |s.local| == |s.locals| && |s.shared| == |s.heads|
  {
    var l := s.locals[t];
    var s1 := s.(count := s.count + l.delta + 1, locals := s.locals[t := l.(delta := 0)]);
    if s.heads != [] then
      var id := Last(s.heads);
      if !IsFreeSlot(s, id) then Fault else
      var i := id - s.terminals;
      Got(s1.(slots := s.slots[i := Node], heads := Front(s.heads),
              locals := s.locals[t := l.(delta := 0, nextFree := s.slots[i].next)],
              shared := Front(s.shared), local := s.local[t := Tail(Last(s.shared))]), i)
    else
      var i := s.reserved;
      if i + CHUNK < |s.slots| then
        Got(s1.(slots := s.slots[i := Node], reserved := ChunkEnd(i),
                locals := s.locals[t := l.(delta := 0, initialized := i + 1)]), i)
      else if i < |s.slots| then
        Got(s1.(slots := s.slots[i := Node], reserved := i + 1), i)
      else
        OutOfMemory(s1.(failures := s.failures + 1))
  }

  /** A foreign thread takes a single slot and puts the rest of the list back. */
  function AllocForeign(s: State): Outcome
    requires |s.shared| == |s.heads|
  {
    var s1 := s.(count := s.count + 1);
    if s.heads != [] then
      var id := Last(s.heads);
      if !IsFreeSlot(s, id) then Fault else
      var i := id - s.terminals;
      Got(s1.(slots := s.slots[i := Node], heads := Front(s.heads) + [s.slots[i].next],
              shared := Front(s.shared) + [Tail(Last(s.shared))]), i)
    else if s.reserved < |s.slots| then
      Got(s1.(slots := s.slots[s.reserved := Node], reserved := s.reserved + 1), s.reserved)
    else
      OutOfMemory(s1.(failures := s.failures + 1))
  }

  /** Give the thread's free list to the shared lists. */
  function PushLocal(s: State, t: ThreadId): State
    requires t < |s.locals| && |s.local| == |s.locals|
  {
    s.(heads := s.heads + [s.locals[t].nextFree], shared := s.shared + [s.local[t]],
       locals := s.locals[t := s.locals[t].(nextFree := 0)], local := s.local[t := []])
  }

  function ReleaseAttached(s: State, t: ThreadId, i: nat): State
    requires t < |s.locals| && |s.local| == |s.locals| && i < |s.slots|
  {
    var l := s.locals[t];
    var s1 := s.(slots := s.slots[i := Link(l.nextFree)],
                 locals := s.locals[t := l.(nextFree := i + s.terminals)],
                 local := s.local[t := [i] + s.local[t]]);
    if l.delta - 1 + CHUNK > 0 then
      s1.(locals := s1.locals[t := s1.locals[t].(delta := l.delta - 1)])
    else
      // the delta before this release is added
      var s2 := PushLocal(s1, t);
      s2.(count := s.count + l.delta, locals := s2.locals[t := s2.locals[t].(delta := 0)], flushes := s.flushes + 1)
  }

  function ReleaseForeign(s: State, i: nat): State
    requires i < |s.slots| && |s.shared| == |s.heads|
  {
    if s.heads == [] then
      s.(slots := s.slots[i := Link(0)], heads := [i + s.terminals], shared := [[i]], count := s.count - 1)
    else
      s.(slots := s.slots[i := Link(Last(s.heads))], heads := Front(s.heads) + [i + s.terminals],
         shared := Front(s.shared) + [[i] + Last(s.shared)], count := s.count - 1)
  }

  /** Link the slots `from..to`, the last one to `next`. */
  function LinkRange(s: State, from: nat, to: nat, next: nat): (r: seq<Content>)
    ensures |r| == |s.slots|
  {
    seq(|s.slots|, i requires 0 <= i < |s.slots| =>
      if from <= i < to - 1 then Link(i + 1 + s.terminals)
      else if from <= i < to then Link(next)
      else s.slots[i])
  }

  function Range(from: nat, to: nat): (r: seq<nat>)
    requires from <= to
    ensures |r| == to - from && forall j :: 0 <= j < |r| ==> r[j] == from + j
  {
    seq(to - from, j requires 0 <= j => from + j)
  }

  /** The guard gives everything back, unless there is nothing to give back: then
      the thread stays attached. */
  function DetachThread(s: State, t: ThreadId): State
    requires t < |s.locals| && |s.local| == |s.locals|
  {
    var l := s.locals[t];
    if l.nextFree == 0 && !HasChunk(l) && l.delta == 0 then s else
    var start, end := l.initialized, ChunkEnd(l.initialized);
    var s1 :=
      if HasChunk(l) then
        s.(slots := LinkRange(s, start, end, l.nextFree),
           locals := s.locals[t := l.(nextFree := start + s.terminals, initialized := 0)],
           local := s.local[t := Range(start, end) + s.local[t]])
      else s;
    var s2 := if s1.locals[t].nextFree != 0 then PushLocal(s1, t) else s1;
    s2.(count := s.count + l.delta, locals := s2.locals[t := DETACHED], local := s2.local[t := []])
  }

  /** The collector thread gives its free list back after each collection. */
  function FlushThread(s: State, t: ThreadId): State
    requires t < |s.locals| && |s.local| == |s.locals|
  {
    var l := s.locals[t];
    if l.nextFree == 0 then s else
    var s1 := PushLocal(s, t);
    s1.(count := s.count + l.delta, locals := s1.locals[t := s1.locals[t].(delta := 0)])
  }

  function Act(s: State, a: Action): Outcome
    requires Enabled(s, a) && |s.local| == |s.locals| && |s.shared| == |s.heads|
  {
    match a
    case Attach(t) => Done(s.(locals := s.locals[t := Local(true, 0, 0, s.locals[t].delta)]))
    case Detach(t) => Done(DetachThread(s, t))
    case Alloc(t) =>
      if !s.locals[t].attached then AllocForeign(s)
      else if s.locals[t].nextFree != 0 || HasChunk(s.locals[t]) then AllocLocal(s, t)
      else AllocShared(s, t)
    case Release(t, i) => Done(if s.locals[t].attached then ReleaseAttached(s, t, i) else ReleaseForeign(s, i))
    case Flush(t) => Done(FlushThread(s, t))
  }

  // --- The invariant ---------------------------------------------------------

  /** Where a slot can be. */
  datatype Place = Live | OnShared(k: nat) | OnLocal(t: ThreadId) | InChunk(t: ThreadId) | Beyond

  predicate At(s: State, i: nat, p: Place) {
    match p
    case Live => i < |s.slots| && s.slots[i] == Node
    case OnShared(k) => k < |s.shared| && i in s.shared[k]
    case OnLocal(t) => t < |s.local| && i in s.local[t]
    case InChunk(t) =>
      t < |s.locals| && HasChunk(s.locals[t]) && s.locals[t].initialized <= i < ChunkEnd(s.locals[t].initialized)
    case Beyond => s.reserved <= i
  }

  /** The slot is in exactly one place. */
  ghost predicate Placed(s: State, i: nat) {
    exists p :: At(s, i, p) && forall q :: At(s, i, q) ==> q == p
  }

  ghost predicate Partition(s: State) {
    forall i :: 0 <= i < |s.slots| ==> Placed(s, i)
  }

  /** Starting at the id `head`, the links run through the slots `l`, each once, and end. */
  ghost predicate IsList(s: State, head: nat, l: seq<nat>) {
    && (head == if l == [] then 0 else l[0] + s.terminals)
    && (forall j :: 0 <= j < |l| ==> l[j] < |s.slots|)
    && (forall j :: 0 <= j < |l| ==> s.slots[l[j]] == Link(if j + 1 < |l| then l[j + 1] + s.terminals else 0))
    && (forall i, j :: 0 <= i < j < |l| ==> l[i] != l[j])
  }

  ghost predicate Lists(s: State) {
    && |s.shared| == |s.heads| && |s.local| == |s.locals|
    && (forall k :: 0 <= k < |s.shared| ==> IsList(s, s.heads[k], s.shared[k]))
    && (forall t :: 0 <= t < |s.local| ==> IsList(s, s.locals[t].nextFree, s.local[t]))
  }

  predicate LocalInv(s: State, t: ThreadId)
    requires t < |s.locals|
  {
    var l := s.locals[t];
    if l.attached then HasChunk(l) ==> ChunkEnd(l.initialized) <= s.reserved
    else l == DETACHED
  }

  ghost function Deltas(locals: seq<Local>): int {
    if locals == [] then 0 else locals[0].delta + Deltas(locals[1..])
  }

  ghost function LiveCount(slots: seq<Content>): nat {
    multiset(slots)[Node]
  }

  /** The node count including all local deltas over-reports the live nodes by
      exactly the number of threshold flushes and failed allocations. */
  ghost predicate CountInv(s: State) {
    s.count + Deltas(s.locals) == LiveCount(s.slots) + s.flushes + s.failures
  }

  /** Every slot is in exactly one place and the free lists are what their links say. */
  ghost predicate Tidy(s: State) {
    && s.terminals >= 1 && s.reserved <= |s.slots|
    && Lists(s)
    && Partition(s)
    && (forall t :: 0 <= t < |s.locals| ==> LocalInv(s, t))
  }

  ghost predicate Inv(s: State) {
    Tidy(s) && CountInv(s)
  }

  // --- Tools -----------------------------------------------------------------

  lemma {:induction false} DeltasUpdate(locals: seq<Local>, t: ThreadId, l: Local)
    requires t < |locals|
    ensures Deltas(locals[t := l]) == Deltas(locals) - locals[t].delta + l.delta
  {
    if t == 0 {
      assert locals[t := l][1..] == locals[1..];
    } else {
      assert locals[t := l][1..] == locals[1..][t - 1 := l];
      DeltasUpdate(locals[1..], t - 1, l);
    }
  }

  lemma LiveUpdate(slots: seq<Content>, i: nat, x: Content)
    requires i < |slots|
    ensures LiveCount(slots[i := x])
            == LiveCount(slots) - (if slots[i] == Node then 1 else 0) + if x == Node then 1 else 0
  {
    assert slots[i] in multiset(slots);
  }

  lemma {:induction false} LiveSame(a: seq<Content>, b: seq<Content>)
    requires |a| == |b| && forall i :: 0 <= i < |a| ==> (a[i] == Node <==> b[i] == Node)
    ensures LiveCount(a) == LiveCount(b)
  {
    if a != [] {
      LiveSame(Front(a), Front(b));
      assert a == Front(a) + [Last(a)] && b == Front(b) + [Last(b)];
    }
  }

  /** The slot moves from the place `p` to the place `p'`. */
  lemma Move(s: State, s': State, i: nat, p: Place, p': Place)
    requires Placed(s, i) && At(s, i, p) && At(s', i, p')
    requires forall q :: At(s', i, q) ==> q == p' || (At(s, i, q) && q != p)
    ensures Placed(s', i)
  {
  }

  /** A list none of whose slots is written stays a list. */
  lemma ListFrame(s: State, s': State, head: nat, l: seq<nat>)
    requires IsList(s, head, l) && s'.terminals == s.terminals && |s'.slots| == |s.slots|
    requires forall i :: 0 <= i < |s.slots| && i in l ==> s'.slots[i] == s.slots[i]
    ensures IsList(s', head, l)
  {
    forall j | 0 <= j < |l|
      ensures s'.slots[l[j]] == Link(if j + 1 < |l| then l[j + 1] + s.terminals else 0)
    {
      assert l[j] in l;
      assert s'.slots[l[j]] == s.slots[l[j]];
    }
  }

  /** Writing one slot keeps all lists except those that hold the slot. */
  lemma WriteFrame(s: State, s': State, i: nat, p: Place)
    requires Lists(s) && Partition(s) && i < |s.slots| && At(s, i, p)
    requires s'.terminals == s.terminals && |s'.slots| == |s.slots| && s'.slots == s.slots[i := s'.slots[i]]
    ensures forall k :: 0 <= k < |s.shared| && p != OnShared(k) ==> IsList(s', s.heads[k], s.shared[k])
    ensures forall t :: 0 <= t < |s.local| && p != OnLocal(t) ==> IsList(s', s.locals[t].nextFree, s.local[t])
  {
    assert Placed(s, i);
    forall k | 0 <= k < |s.shared| && p != OnShared(k)
      ensures IsList(s', s.heads[k], s.shared[k])
    {
      assert !At(s, i, OnShared(k));
      ListFrame(s, s', s.heads[k], s.shared[k]);
    }
    forall t | 0 <= t < |s.local| && p != OnLocal(t)
      ensures IsList(s', s.locals[t].nextFree, s.local[t])
    {
      assert !At(s, i, OnLocal(t));
      ListFrame(s, s', s.locals[t].nextFree, s.local[t]);
    }
  }

  lemma ListHead(s: State, head: nat, l: seq<nat>)
    requires IsList(s, head, l) && l != []
    ensures l[0] in l && head == l[0] + s.terminals && l[0] < |s.slots| && s.slots[l[0]].Link? && IsFreeSlot(s, head)
    ensures s.slots[l[0]] == Link(if 1 < |l| then l[1] + s.terminals else 0)
    ensures l[0] !in l[1..] && forall j :: j in l <==> j == l[0] || j in l[1..]
  {
    assert s.slots[l[0]] == Link(if 1 < |l| then l[1] + s.terminals else 0);
    assert l == [l[0]] + l[1..];
  }

  /** Taking the first slot of a list leaves the rest of it. */
  lemma ListTail(s: State, s': State, head: nat, l: seq<nat>)
    requires IsList(s, head, l) && l != [] && s'.terminals == s.terminals
    requires |s'.slots| == |s.slots| && s'.slots == s.slots[l[0] := s'.slots[l[0]]]
    ensures IsFreeSlot(s, head) && IsList(s', s.slots[head - s.terminals].next, l[1..])
  {
    assert s.slots[l[0]] == Link(if 1 < |l| then l[1] + s.terminals else 0);
    var r := l[1..];
    assert forall j :: 0 <= j < |r| ==> r[j] == l[j + 1];
    forall j | 0 <= j < |r|
      ensures s'.slots[r[j]] == Link(if j + 1 < |r| then r[j + 1] + s.terminals else 0)
    {
      assert s.slots[l[j + 1]] == Link(if j + 2 < |l| then l[j + 2] + s.terminals else 0);
    }
  }

  /** Prepending a slot to a list. */
  lemma ListCons(s: State, s': State, head: nat, l: seq<nat>, i: nat)
    requires IsList(s, head, l) && i < |s.slots| && i !in l && s'.terminals == s.terminals
    requires s'.slots == s.slots[i := Link(head)]
    ensures IsList(s', i + s.terminals, [i] + l)
  {
    var r := [i] + l;
    forall j | 0 <= j < |r|
      ensures s'.slots[r[j]] == Link(if j + 1 < |r| then r[j + 1] + s.terminals else 0)
    {
      if j > 0 {
        assert r[j] == l[j - 1] && l[j - 1] in l;
      }
    }
  }

  /** One slot moves from `p` to `p'`, no other slot moves. */
  lemma MoveOne(s: State, s': State, i: nat, p: Place, p': Place)
    requires Partition(s) && i < |s.slots| && At(s, i, p) && |s'.slots| == |s.slots|
    requires At(s', i, p') && forall q :: At(s', i, q) ==> q == p' || (q != p && At(s, i, q))
    requires forall j, q :: 0 <= j < |s.slots| && j != i ==> (At(s', j, q) <==> At(s, j, q))
    ensures Partition(s')
  {
    forall j | 0 <= j < |s.slots|
      ensures Placed(s', j)
    {
      assert Placed(s, j);
      var r :| At(s, j, r);
      Move(s, s', j, r, if j == i then p' else r);
    }
  }

  /** All slots at `a` move to the vacant place `b`. */
  lemma MoveAll(s: State, s': State, a: Place, b: Place)
    requires Partition(s) && |s'.slots| == |s.slots| && a != b
    requires forall j :: 0 <= j < |s.slots| ==> !At(s, j, b) && !At(s', j, a)
    requires forall j :: 0 <= j < |s.slots| ==> (At(s', j, b) <==> At(s, j, a))
    requires forall j, q :: 0 <= j < |s.slots| && q != a && q != b ==> (At(s', j, q) <==> At(s, j, q))
    ensures Partition(s')
  {
    forall j | 0 <= j < |s.slots|
      ensures Placed(s', j)
    {
      assert Placed(s, j);
      var r :| At(s, j, r);
      Move(s, s', j, r, if r == a then b else r);
    }
  }

  /** The other threads' lists and chunks are as before. */
  lemma OthersFrame(s: State, s': State, t: ThreadId)
    requires Tidy(s) && |s'.locals| == |s.locals| && |s'.local| == |s.local| && t < |s.locals|
    requires s.reserved <= s'.reserved <= |s'.slots| && s'.terminals == s.terminals
    requires |s'.shared| == |s'.heads|
    requires forall u :: 0 <= u < |s.locals| && u != t ==> s'.locals[u] == s.locals[u] && s'.local[u] == s.local[u]
    requires forall u :: 0 <= u < |s.locals| && u != t ==> IsList(s', s.locals[u].nextFree, s.local[u])
    requires forall k :: 0 <= k < |s'.shared| ==> IsList(s', s'.heads[k], s'.shared[k])
    requires IsList(s', s'.locals[t].nextFree, s'.local[t]) && LocalInv(s', t)
    ensures Lists(s') && forall u :: 0 <= u < |s.locals| ==> LocalInv(s', u)
  {
    hide IsList, At;
    forall u | 0 <= u < |s.locals| && u != t
      ensures LocalInv(s', u)
    {
      assert LocalInv(s, u);
    }
  }

  /** An empty list has head 0, and conversely. */
  lemma EmptyList(s: State, t: ThreadId)
    requires Tidy(s) && t < |s.locals|
    ensures s.locals[t].nextFree == 0 <==> s.local[t] == []
  {
    assert IsList(s, s.locals[t].nextFree, s.local[t]);
  }

  // --- Allocation ------------------------------------------------------------

  /** Taking a slot keeps the count in step. */
  lemma GotCount(s: State, s': State, i: nat, t: ThreadId, l: Local)
    requires CountInv(s) && i < |s.slots| && s.slots[i] != Node && s'.slots == s.slots[i := Node]
    requires t < |s.locals| && s'.locals == s.locals[t := l]
    requires s'.count + l.delta == s.count + s.locals[t].delta + 1
    requires s'.flushes == s.flushes && s'.failures == s.failures
    ensures CountInv(s')
  {
    LiveUpdate(s.slots, i, Node);
    DeltasUpdate(s.locals, t, l);
  }

  /** A slot that is somewhere else is not live. */
  lemma NotLive(s: State, i: nat, p: Place)
    requires Partition(s) && i < |s.slots| && At(s, i, p) && p != Live
    ensures s.slots[i] != Node
  {
    assert Placed(s, i);
    assert s.slots[i] == Node ==> At(s, i, Live);
  }

  lemma AllocLocalList(s: State, t: ThreadId)
    requires Tidy(s) && t < |s.locals| && s.locals[t].nextFree != 0
    ensures AllocLocal(s, t).Got? && Tidy(AllocLocal(s, t).state) && At(s, AllocLocal(s, t).i, OnLocal(t))
  {
    hide Placed, IsList;
    var l := s.local[t];
    EmptyList(s, t);
    assert IsList(s, s.locals[t].nextFree, l);
    ListHead(s, s.locals[t].nextFree, l);
    var i := l[0];
    assert At(s, i, OnLocal(t));
    var s' := AllocLocal(s, t).state;
    WriteFrame(s, s', i, OnLocal(t));
    ListTail(s, s', s.locals[t].nextFree, l);
    MoveOne(s, s', i, OnLocal(t), Live);
    assert LocalInv(s, t);
    OthersFrame(s, s', t);
  }

  /** Moving on inside a chunk. */
  lemma ChunkStep(i: nat)
    ensures (i + 1) % CHUNK == 0 ==> ChunkEnd(i) == i + 1
    ensures (i + 1) % CHUNK != 0 ==> ChunkEnd(i + 1) == ChunkEnd(i)
  {
  }

  lemma AllocLocalChunk(s: State, t: ThreadId)
    requires Tidy(s) && t < |s.locals| && s.locals[t].nextFree == 0 && HasChunk(s.locals[t])
    ensures AllocLocal(s, t).Got? && Tidy(AllocLocal(s, t).state) && At(s, AllocLocal(s, t).i, InChunk(t))
  {
    hide Placed;
    var i := s.locals[t].initialized;
    assert LocalInv(s, t) && At(s, i, InChunk(t));
    var s' := AllocLocal(s, t).state;
    WriteFrame(s, s', i, InChunk(t));
    ChunkStep(i);
    MoveOne(s, s', i, InChunk(t), Live);
    OthersFrame(s, s', t);
  }

  /** The state of an attached thread that needs a slot from the shared state. */
  predicate Exhausted(s: State, t: ThreadId) {
    t < |s.locals| && s.locals[t].attached && s.locals[t].nextFree == 0 && !HasChunk(s.locals[t])
  }

  /** The first slot of the last shared list becomes live, the others move to thread `t`. */
  lemma TakeOverPlaces(s: State, s': State, t: ThreadId)
    requires Partition(s) && s.shared != [] && Last(s.shared) != []
    requires t < |s.local| && s.local[t] == [] && |s.locals| == |s.local|
    requires var l := Last(s.shared);
             && l[0] < |s.slots| && l[0] !in l[1..] && s'.slots == s.slots[l[0] := Node]
             && s'.shared == Front(s.shared) && s'.local == s.local[t := l[1..]]
    requires s'.reserved == s.reserved && |s'.locals| == |s.locals|
    requires forall u :: 0 <= u < |s.locals| ==>
               HasChunk(s'.locals[u]) == HasChunk(s.locals[u]) && s'.locals[u].initialized == s.locals[u].initialized
    ensures Partition(s')
  {
    hide Placed;
    var k := |s.shared| - 1;
    var l := s.shared[k];
    var i := l[0];
    assert At(s, i, OnShared(k));
    assert forall j :: j in l <==> j == i || j in l[1..];
    var s1 := s.(slots := s'.slots, shared := s.shared[k := l[1..]]);
    NotLive(s, i, OnShared(k));
    MoveOne(s, s1, i, OnShared(k), Live);
    MoveAll(s1, s', OnShared(k), OnLocal(t));
  }

  lemma AllocSharedList(s: State, t: ThreadId)
    requires Tidy(s) && Exhausted(s, t) && s.heads != [] && Last(s.shared) != []
    ensures AllocShared(s, t).Got? && Tidy(AllocShared(s, t).state)
    ensures At(s, AllocShared(s, t).i, OnShared(|s.shared| - 1))
  {
    hide Placed, IsList;
    var k := |s.shared| - 1;
    var l := s.shared[k];
    assert IsList(s, s.heads[k], l) && l != [];
    EmptyList(s, t);
    ListHead(s, s.heads[k], l);
    var i := l[0];
    assert At(s, i, OnShared(k));
    var s' := AllocShared(s, t).state;
    WriteFrame(s, s', i, OnShared(k));
    ListTail(s, s', s.heads[k], l);
    TakeOverPlaces(s, s', t);
    OthersFrame(s, s', t);
  }

  /** The first slot beyond becomes live, the rest of its chunk goes to thread `t`. */
  lemma NewChunkPlaces(s: State, s': State, t: ThreadId)
    requires Tidy(s) && Exhausted(s, t) && s.heads == [] && s.reserved + CHUNK < |s.slots|
    requires s' == AllocShared(s, t).state
    ensures Partition(s')
  {
    hide IsList;
    var i := s.reserved;
    ChunkStep(i);
    forall j, u | 0 <= j < |s.slots| && At(s, j, InChunk(u))
      ensures j < i
    {
      assert LocalInv(s, u);
    }
    forall j | 0 <= j < |s.slots|
      ensures Placed(s', j)
    {
      assert Placed(s, j);
      if i <= j {
        assert At(s, j, Beyond);
        Move(s, s', j, Beyond, if j == i then Live else if j < ChunkEnd(i) then InChunk(t) else Beyond);
      } else {
        var p :| At(s, j, p);
        Move(s, s', j, p, p);
      }
    }
  }

  lemma AllocSharedChunk(s: State, t: ThreadId)
    requires Tidy(s) && Exhausted(s, t) && s.heads == [] && s.reserved + CHUNK < |s.slots|
    ensures AllocShared(s, t).Got? && Tidy(AllocShared(s, t).state) && At(s, AllocShared(s, t).i, Beyond)
  {
    hide Placed;
    var i := s.reserved;
    assert At(s, i, Beyond);
    var s' := AllocShared(s, t).state;
    WriteFrame(s, s', i, Beyond);
    ChunkStep(i);
    NewChunkPlaces(s, s', t);
    OthersFrame(s, s', t);
  }

  lemma AllocSharedOne(s: State, t: ThreadId)
    requires Tidy(s) && Exhausted(s, t) && s.heads == [] && |s.slots| - CHUNK <= s.reserved < |s.slots|
    ensures AllocShared(s, t).Got? && Tidy(AllocShared(s, t).state) && At(s, AllocShared(s, t).i, Beyond)
  {
    hide Placed;
    var i := s.reserved;
    assert At(s, i, Beyond);
    var s' := AllocShared(s, t).state;
    WriteFrame(s, s', i, Beyond);
    assert LocalInv(s, t);
    MoveOne(s, s', i, Beyond, Live);
    OthersFrame(s, s', t);
  }

  /** No thread changes. */
  lemma SharedFrame(s: State, s': State)
    requires Tidy(s) && s'.locals == s.locals && s'.local == s.local
    requires s.reserved <= s'.reserved <= |s'.slots| && s'.terminals == s.terminals
    requires |s'.shared| == |s'.heads|
    requires forall u :: 0 <= u < |s.locals| ==> IsList(s', s.locals[u].nextFree, s.local[u])
    requires forall k :: 0 <= k < |s'.shared| ==> IsList(s', s'.heads[k], s'.shared[k])
    ensures Lists(s') && forall u :: 0 <= u < |s.locals| ==> LocalInv(s', u)
  {
    hide IsList, At;
    forall u | 0 <= u < |s.locals|
      ensures LocalInv(s', u)
    {
      assert LocalInv(s, u);
    }
  }

  lemma AllocForeignList(s: State)
    requires Tidy(s) && s.heads != [] && Last(s.shared) != []
    ensures AllocForeign(s).Got? && Tidy(AllocForeign(s).state) && At(s, AllocForeign(s).i, OnShared(|s.shared| - 1))
  {
    hide Placed, IsList;
    var k := |s.shared| - 1;
    var l := s.shared[k];
    assert IsList(s, s.heads[k], l);
    ListHead(s, s.heads[k], l);
    var i := l[0];
    assert At(s, i, OnShared(k));
    var s' := AllocForeign(s).state;
    WriteFrame(s, s', i, OnShared(k));
    ListTail(s, s', s.heads[k], l);
    assert s'.shared == s.shared[k := l[1..]];
    NotLive(s, i, OnShared(k));
    MoveOne(s, s', i, OnShared(k), Live);
    SharedFrame(s, s');
  }

  lemma AllocForeignOne(s: State)
    requires Tidy(s) && s.heads == [] && s.reserved < |s.slots|
    ensures AllocForeign(s).Got? && Tidy(AllocForeign(s).state) && At(s, AllocForeign(s).i, Beyond)
  {
    hide Placed;
    var i := s.reserved;
    assert At(s, i, Beyond);
    var s' := AllocForeign(s).state;
    WriteFrame(s, s', i, Beyond);
    MoveOne(s, s', i, Beyond, Live);
    SharedFrame(s, s');
  }

  // --- Release ---------------------------------------------------------------

  /** Prepend the live slot `i` to the list of thread `t`. */
  function PushSlot(s: State, t: ThreadId, i: nat): State
    requires t < |s.locals| && |s.local| == |s.locals| && i < |s.slots|
  {
    s.(slots := s.slots[i := Link(s.locals[t].nextFree)],
       locals := s.locals[t := s.locals[t].(nextFree := i + s.terminals)],
       local := s.local[t := [i] + s.local[t]])
  }

  lemma LiveOffLists(s: State, i: nat)
    requires Partition(s) && i < |s.slots| && s.slots[i] == Node
    ensures At(s, i, Live)
    ensures forall k :: 0 <= k < |s.shared| ==> i !in s.shared[k]
    ensures forall t :: 0 <= t < |s.local| ==> i !in s.local[t]
  {
    assert Placed(s, i) && At(s, i, Live);
    assert forall k :: 0 <= k < |s.shared| && i in s.shared[k] ==> At(s, i, OnShared(k));
    assert forall t :: 0 <= t < |s.local| && i in s.local[t] ==> At(s, i, OnLocal(t));
  }

  lemma PushSlotTidy(s: State, t: ThreadId, i: nat)
    requires Tidy(s) && t < |s.locals| && s.locals[t].attached && i < |s.slots| && s.slots[i] == Node
    ensures Tidy(PushSlot(s, t, i))
  {
    hide Placed;
    var s' := PushSlot(s, t, i);
    LiveOffLists(s, i);
    WriteFrame(s, s', i, Live);
    ListCons(s, s', s.locals[t].nextFree, s.local[t], i);
    assert forall j :: j in [i] + s.local[t] <==> j == i || j in s.local[t];
    MoveOne(s, s', i, Live, OnLocal(t));
    assert LocalInv(s, t);
    OthersFrame(s, s', t);
  }

  lemma PushLocalTidy(s: State, t: ThreadId)
    requires Tidy(s) && t < |s.locals| && s.locals[t].attached && s.locals[t].nextFree != 0
    ensures Tidy(PushLocal(s, t))
  {
    hide Placed;
    var s' := PushLocal(s, t);
    var k := |s.shared|;
    EmptyList(s, t);
    MoveAll(s, s', OnLocal(t), OnShared(k));
    forall u | 0 <= u < |s.locals|
      ensures IsList(s', s.locals[u].nextFree, s.local[u])
    {
      ListFrame(s, s', s.locals[u].nextFree, s.local[u]);
    }
    forall m | 0 <= m < |s.shared|
      ensures IsList(s', s.heads[m], s.shared[m])
    {
      ListFrame(s, s', s.heads[m], s.shared[m]);
    }
    assert LocalInv(s, t);
    OthersFrame(s, s', t);
  }

  /** The counters are not part of the tidiness. */
  lemma CountersTidy(s: State, s': State, t: ThreadId, delta: int)
    requires Tidy(s) && t < |s.locals| && s.locals[t].attached
    requires s'.locals == s.locals[t := s.locals[t].(delta := delta)]
    requires s'.(count := s.count, locals := s.locals, flushes := s.flushes, failures := s.failures) == s
    ensures Tidy(s')
  {
    hide Placed;
    forall j, q | 0 <= j < |s.slots|
      ensures At(s', j, q) <==> At(s, j, q)
    {
    }
    forall j | 0 <= j < |s.slots|
      ensures Placed(s', j)
    {
      assert Placed(s, j);
      SamePlaces(s, s', j);
    }
    forall u | 0 <= u < |s.locals|
      ensures IsList(s', s.locals[u].nextFree, s.local[u])
    {
      ListFrame(s, s', s.locals[u].nextFree, s.local[u]);
    }
    forall m | 0 <= m < |s.shared|
      ensures IsList(s', s.heads[m], s.shared[m])
    {
      ListFrame(s, s', s.heads[m], s.shared[m]);
    }
    assert LocalInv(s, t);
    OthersFrame(s, s', t);
  }

  lemma SamePlaces(s: State, s': State, j: nat)
    requires Placed(s, j) && forall q :: At(s', j, q) <==> At(s, j, q)
    ensures Placed(s', j)
  {
    var p :| At(s, j, p);
    Move(s, s', j, p, p);
  }

  lemma ReleaseAttachedInv(s: State, t: ThreadId, i: nat)
    requires Inv(s) && t < |s.locals| && s.locals[t].attached && i < |s.slots| && s.slots[i] == Node
    ensures Inv(ReleaseAttached(s, t, i))
  {
    hide IsList, Partition, LocalInv;
    var s', l := ReleaseAttached(s, t, i), s.locals[t];
    var s1 := PushSlot(s, t, i);
    PushSlotTidy(s, t, i);
    LiveUpdate(s.slots, i, Link(l.nextFree));
    if l.delta - 1 + CHUNK > 0 {
      CountersTidy(s1, s', t, l.delta - 1);
      assert s'.locals == s.locals[t := s'.locals[t]];
      DeltasUpdate(s.locals, t, s'.locals[t]);
    } else {
      PushLocalTidy(s1, t);
      var s2 := PushLocal(s1, t);
      CountersTidy(s2, s', t, 0);
      assert s'.locals == s.locals[t := s'.locals[t]];
      DeltasUpdate(s.locals, t, s'.locals[t]);
    }
  }

  lemma ReleaseForeignFirst(s: State, i: nat)
    requires Tidy(s) && i < |s.slots| && s.slots[i] == Node && s.heads == []
    ensures Tidy(ReleaseForeign(s, i))
  {
    hide Placed;
    var s' := ReleaseForeign(s, i);
    LiveOffLists(s, i);
    WriteFrame(s, s', i, Live);
    assert IsList(s', i + s.terminals, [i]);
    MoveOne(s, s', i, Live, OnShared(0));
    SharedFrame(s, s');
  }

  lemma ReleaseForeignMore(s: State, i: nat)
    requires Tidy(s) && i < |s.slots| && s.slots[i] == Node && s.heads != []
    ensures Tidy(ReleaseForeign(s, i))
  {
    hide Placed, IsList;
    var s', k := ReleaseForeign(s, i), |s.shared| - 1;
    LiveOffLists(s, i);
    WriteFrame(s, s', i, Live);
    ListCons(s, s', s.heads[k], s.shared[k], i);
    assert forall j :: j in [i] + s.shared[k] <==> j == i || j in s.shared[k];
    assert s'.shared == s.shared[k := [i] + s.shared[k]];
    MoveOne(s, s', i, Live, OnShared(k));
    SharedFrame(s, s');
  }

  // --- Attaching and detaching -----------------------------------------------

  /** Turn the rest of the thread's chunk into the front of its free list. */
  function LinkChunk(s: State, t: ThreadId): State
    requires t < |s.locals| && |s.local| == |s.locals|
  {
    var l := s.locals[t];
    var start, end := l.initialized, ChunkEnd(l.initialized);
    s.(slots := LinkRange(s, start, end, l.nextFree),
       locals := s.locals[t := l.(nextFree := start + s.terminals, initialized := 0)],
       local := s.local[t := Range(start, end) + s.local[t]])
  }

  /** The slots of a chunk are in no other place. */
  lemma ChunkOffLists(s: State, t: ThreadId)
    requires Tidy(s) && t < |s.locals| && HasChunk(s.locals[t])
    ensures forall i, p :: s.locals[t].initialized <= i < ChunkEnd(s.locals[t].initialized) && At(s, i, p) ==>
              p == InChunk(t)
  {
    hide ChunkEnd, IsList;
    assert LocalInv(s, t);
    forall i, p | s.locals[t].initialized <= i < ChunkEnd(s.locals[t].initialized) && At(s, i, p)
      ensures p == InChunk(t)
    {
      assert At(s, i, InChunk(t));
      assert Placed(s, i);
    }
  }

  /** A range of slots before a list that it does not meet. */
  lemma RangeNoRepeat(start: nat, end: nat, l: seq<nat>)
    requires start <= end && forall j :: 0 <= j < |l| ==> !(start <= l[j] < end)
    requires forall i, j :: 0 <= i < j < |l| ==> l[i] != l[j]
    ensures var r := Range(start, end) + l; forall i, j :: 0 <= i < j < |r| ==> r[i] != r[j]
  {
    var r, m := Range(start, end) + l, end - start;
    forall i, j | 0 <= i < j < |r|
      ensures r[i] != r[j]
    {
      if i >= m {
        assert r[i] == l[i - m] && r[j] == l[j - m];
      } else if j >= m {
        assert r[j] == l[j - m];
      }
    }
  }

  lemma LinkedChunkIsList(s: State, t: ThreadId)
    requires Tidy(s) && t < |s.locals| && HasChunk(s.locals[t])
    ensures var s' := LinkChunk(s, t); IsList(s', s'.locals[t].nextFree, s'.local[t])
  {
    hide Placed, ChunkEnd;
    var s', l := LinkChunk(s, t), s.local[t];
    var start, end := s.locals[t].initialized, ChunkEnd(s.locals[t].initialized);
    assert LocalInv(s, t) && IsList(s, s.locals[t].nextFree, l);
    ChunkOffLists(s, t);
    forall j | 0 <= j < |l|
      ensures !(start <= l[j] < end)
    {
      assert l[j] in l && At(s, l[j], OnLocal(t));
    }
    hide Lists, Partition, IsList;
    LinkedRange(s, s', s.locals[t].nextFree, l, start, end);
  }

  /** Linking a range of slots in front of a list prepends it to the list. */
  lemma LinkedRange(s: State, s': State, head: nat, l: seq<nat>, start: nat, end: nat)
    requires IsList(s, head, l) && start < end <= |s.slots| && forall j :: 0 <= j < |l| ==> !(start <= l[j] < end)
    requires s'.slots == LinkRange(s, start, end, head) && s'.terminals == s.terminals
    ensures IsList(s', start + s.terminals, Range(start, end) + l)
  {
    RangeNoRepeat(start, end, l);
    var r, m := Range(start, end) + l, end - start;
    forall j | 0 <= j < |r|
      ensures r[j] < |s.slots| && s'.slots[r[j]] == Link(if j + 1 < |r| then r[j + 1] + s.terminals else 0)
    {
      if j >= m {
        assert r[j] == l[j - m];
      }
    }
  }

  lemma LinkChunkPlaces(s: State, t: ThreadId)
    requires Tidy(s) && t < |s.locals| && HasChunk(s.locals[t])
    ensures Partition(LinkChunk(s, t))
  {
    hide IsList;
    var s' := LinkChunk(s, t);
    var start, end := s.locals[t].initialized, ChunkEnd(s.locals[t].initialized);
    assert LocalInv(s, t);
    ChunkOffLists(s, t);
    assert forall j :: j in s'.local[t] <==> start <= j < end || j in s.local[t] by {
      forall j | start <= j < end
        ensures j in s'.local[t]
      {
        assert s'.local[t][j - start] == j;
      }
    }
    forall j | 0 <= j < |s.slots|
      ensures Placed(s', j)
    {
      assert Placed(s, j);
      var p :| At(s, j, p);
      assert start <= j < end ==> At(s, j, InChunk(t));
      Move(s, s', j, p, if p == InChunk(t) then OnLocal(t) else p);
    }
  }

  lemma LinkChunkTidy(s: State, t: ThreadId)
    requires Tidy(s) && t < |s.locals| && HasChunk(s.locals[t])
    ensures Tidy(LinkChunk(s, t)) && LiveCount(LinkChunk(s, t).slots) == LiveCount(s.slots)
  {
    hide Placed, ChunkEnd, IsList;
    var s' := LinkChunk(s, t);
    var start, end := s.locals[t].initialized, ChunkEnd(s.locals[t].initialized);
    assert LocalInv(s, t);
    ChunkOffLists(s, t);
    forall u | 0 <= u < |s.local| && u != t
      ensures IsList(s', s.locals[u].nextFree, s.local[u])
    {
      assert forall i :: i in s.local[u] ==> At(s, i, OnLocal(u));
      ListFrame(s, s', s.locals[u].nextFree, s.local[u]);
    }
    forall m | 0 <= m < |s.shared|
      ensures IsList(s', s.heads[m], s.shared[m])
    {
      assert forall i :: i in s.shared[m] ==> At(s, i, OnShared(m));
      ListFrame(s, s', s.heads[m], s.shared[m]);
    }
    LinkedChunkIsList(s, t);
    LinkChunkPlaces(s, t);
    OthersFrame(s, s', t);
    forall i | 0 <= i < |s.slots|
      ensures s.slots[i] == Node <==> s'.slots[i] == Node
    {
      assert start <= i < end ==> !At(s, i, Live);
    }
    LiveSame(s.slots, s'.slots);
  }

  /** A thread without list and chunk may change its attachment and delta. */
  lemma IdleLocalTidy(s: State, s': State, t: ThreadId, l: Local)
    requires Tidy(s) && t < |s.locals| && s.locals[t].nextFree == 0 && !HasChunk(s.locals[t])
    requires l.nextFree == 0 && !HasChunk(l) && (!l.attached ==> l == DETACHED)
    requires s'.locals == s.locals[t := l]
    requires s'.(count := s.count, locals := s.locals, flushes := s.flushes, failures := s.failures) == s
    ensures Tidy(s')
  {
    hide Placed;
    forall j, q | 0 <= j < |s.slots|
      ensures At(s', j, q) <==> At(s, j, q)
    {
    }
    forall j | 0 <= j < |s.slots|
      ensures Placed(s', j)
    {
      assert Placed(s, j);
      SamePlaces(s, s', j);
    }
    forall u | 0 <= u < |s.locals|
      ensures IsList(s', s.locals[u].nextFree, s.local[u])
    {
      ListFrame(s, s', s.locals[u].nextFree, s.local[u]);
    }
    forall m | 0 <= m < |s.shared|
      ensures IsList(s', s.heads[m], s.shared[m])
    {
      ListFrame(s, s', s.heads[m], s.shared[m]);
    }
    OthersFrame(s, s', t);
  }

  lemma AttachInv(s: State, t: ThreadId)
    requires Inv(s) && t < |s.locals| && !s.locals[t].attached
    ensures Inv(s.(locals := s.locals[t := Local(true, 0, 0, s.locals[t].delta)]))
  {
    hide IsList, Partition;
    assert LocalInv(s, t);
    var l := Local(true, 0, 0, s.locals[t].delta);
    IdleLocalTidy(s, s.(locals := s.locals[t := l]), t, l);
    DeltasUpdate(s.locals, t, l);
  }

  lemma DetachInv(s: State, t: ThreadId)
    requires Inv(s) && t < |s.locals| && s.locals[t].attached
    ensures Inv(DetachThread(s, t))
  {
    hide IsList, Partition, LocalInv;
    var l := s.locals[t];
    if l.nextFree != 0 || HasChunk(l) || l.delta != 0 {
      var s1 := if HasChunk(l) then LinkChunk(s, t) else s;
      if HasChunk(l) {
        LinkChunkTidy(s, t);
      }
      var s2 := if s1.locals[t].nextFree != 0 then PushLocal(s1, t) else s1;
      if s1.locals[t].nextFree != 0 {
        PushLocalTidy(s1, t);
      }
      EmptyList(s2, t);
      var s' := DetachThread(s, t);
      assert s'.local == s2.local;
      IdleLocalTidy(s2, s', t, DETACHED);
      assert s'.locals == s.locals[t := DETACHED];
      DeltasUpdate(s.locals, t, DETACHED);
    }
  }

  lemma FlushInv(s: State, t: ThreadId)
    requires Inv(s) && t < |s.locals| && s.locals[t].attached
    ensures Inv(FlushThread(s, t))
  {
    hide IsList, Partition, LocalInv;
    if s.locals[t].nextFree != 0 {
      var s' := FlushThread(s, t);
      PushLocalTidy(s, t);
      CountersTidy(PushLocal(s, t), s', t, 0);
      assert s'.locals == s.locals[t := s'.locals[t]];
      DeltasUpdate(s.locals, t, s'.locals[t]);
    }
  }

  // --- Every action ----------------------------------------------------------

  /** The thread has no slots of its own and takes one from the shared state. */
  predicate NeedsShared(s: State, t: ThreadId) {
    t < |s.locals| && (!s.locals[t].attached || (s.locals[t].nextFree == 0 && !HasChunk(s.locals[t])))
  }

  /** The action takes the head of a shared list that has no slots left. */
  predicate PopsEmptyList(s: State, a: Action) {
    a.Alloc? && NeedsShared(s, a.t) && s.heads != [] && Last(s.heads) == 0
  }

  /** A foreign thread takes the only slot of the last shared list. This is when the head 0
      is pushed. */
  predicate EmptiesList(s: State, a: Action) {
    && a.Alloc? && a.t < |s.locals| && !s.locals[a.t].attached && s.heads != []
    && IsFreeSlot(s, Last(s.heads)) && s.slots[Last(s.heads) - s.terminals].next == 0
  }

  /** The head 0 stands for the empty list, and is not the id of a slot. */
  lemma EmptyHead(s: State)
    requires Tidy(s) && s.heads != []
    ensures Last(s.heads) == 0 <==> Last(s.shared) == []
    ensures IsFreeSlot(s, Last(s.heads)) <==> Last(s.heads) != 0
  {
    var k := |s.shared| - 1;
    assert IsList(s, s.heads[k], s.shared[k]);
    if s.shared[k] != [] {
      hide IsList;
      ListHead(s, s.heads[k], s.shared[k]);
    }
  }

  /** The slot that an allocation hands out, if it succeeds, was free before. */
  predicate HandsOutFree(s: State, o: Outcome) {
    o.Got? ==> o.i < |s.slots| && s.slots[o.i] != Node && o.state.slots == s.slots[o.i := Node]
  }

  lemma AllocAttachedInv(s: State, t: ThreadId)
    requires Inv(s) && t < |s.locals| && s.locals[t].attached && !PopsEmptyList(s, Alloc(t))
    ensures var o := Act(s, Alloc(t)); !o.Fault? && HandsOutFree(s, o) && Inv(o.state)
  {
    hide IsList, Placed, CountInv;
    var o, l := Act(s, Alloc(t)), s.locals[t];
    if l.nextFree != 0 {
      AllocLocalList(s, t);
      NotLive(s, o.i, OnLocal(t));
      GotCount(s, o.state, o.i, t, o.state.locals[t]);
    } else if HasChunk(l) {
      AllocLocalChunk(s, t);
      NotLive(s, o.i, InChunk(t));
      GotCount(s, o.state, o.i, t, o.state.locals[t]);
    } else if s.heads != [] {
      EmptyHead(s);
      AllocSharedList(s, t);
      NotLive(s, o.i, OnShared(|s.shared| - 1));
      GotCount(s, o.state, o.i, t, o.state.locals[t]);
    } else if s.reserved < |s.slots| {
      if s.reserved + CHUNK < |s.slots| {
        AllocSharedChunk(s, t);
      } else {
        AllocSharedOne(s, t);
      }
      NotLive(s, o.i, Beyond);
      GotCount(s, o.state, o.i, t, o.state.locals[t]);
    } else {
      CountersTidy(s, o.state, t, 0);
      FailCount(s, o.state, t, o.state.locals[t]);
    }
  }

  /** A failed allocation adds one to the excess of the count. */
  lemma FailCount(s: State, s': State, t: ThreadId, l: Local)
    requires CountInv(s) && s'.slots == s.slots && t < |s.locals| && s'.locals == s.locals[t := l]
    requires s'.count + l.delta == s.count + s.locals[t].delta + 1
    requires s'.flushes == s.flushes && s'.failures == s.failures + 1
    ensures CountInv(s')
  {
    DeltasUpdate(s.locals, t, l);
  }

  lemma AllocForeignInv(s: State, t: ThreadId)
    requires Inv(s) && t < |s.locals| && !s.locals[t].attached && !PopsEmptyList(s, Alloc(t))
    ensures var o := Act(s, Alloc(t)); !o.Fault? && HandsOutFree(s, o) && Inv(o.state)
  {
    hide IsList, Placed, CountInv;
    var o := Act(s, Alloc(t));
    assert s.locals[t := s.locals[t]] == s.locals;
    if s.heads != [] {
      EmptyHead(s);
      AllocForeignList(s);
      NotLive(s, o.i, OnShared(|s.shared| - 1));
      GotCount(s, o.state, o.i, t, s.locals[t]);
    } else if s.reserved < |s.slots| {
      AllocForeignOne(s);
      NotLive(s, o.i, Beyond);
      GotCount(s, o.state, o.i, t, s.locals[t]);
    } else {
      assert LocalInv(s, t);
      IdleLocalTidy(s, o.state, t, s.locals[t]);
      FailCount(s, o.state, t, s.locals[t]);
    }
  }

  lemma ReleaseInv(s: State, t: ThreadId, i: nat)
    requires Inv(s) && t < |s.locals| && i < |s.slots| && s.slots[i] == Node
    ensures Inv(Act(s, Release(t, i)).state)
  {
    hide IsList, Placed;
    if s.locals[t].attached {
      ReleaseAttachedInv(s, t, i);
    } else {
      LiveUpdate(s.slots, i, Act(s, Release(t, i)).state.slots[i]);
      if s.heads == [] {
        ReleaseForeignFirst(s, i);
      } else {
        ReleaseForeignMore(s, i);
      }
    }
  }

  /** Every action, by any thread, keeps the invariant and hands out free slots only, unless
      it faults; and it faults exactly if it takes the head of an empty shared list. */
  lemma ActKeepsInv(s: State, a: Action)
    requires Inv(s) && Enabled(s, a)
    ensures Act(s, a).Fault? <==> PopsEmptyList(s, a)
    ensures !Act(s, a).Fault? ==> Inv(Act(s, a).state) && HandsOutFree(s, Act(s, a))
  {
    hide IsList, Placed, CountInv;
    match a
    case Attach(t) => AttachInv(s, t);
    case Detach(t) => DetachInv(s, t);
    case Alloc(t) =>
      if PopsEmptyList(s, a) {
        EmptyHead(s);
      } else if s.locals[t].attached {
        AllocAttachedInv(s, t);
      } else {
        AllocForeignInv(s, t);
      }
    case Release(t, i) => ReleaseInv(s, t, i);
    case Flush(t) => FlushInv(s, t);
  }

  /** After a foreign thread has emptied a shared list, the next allocation of any thread
      that needs a shared slot dereferences the id 0. */
  lemma EmptiedListFaults(s: State, a: Action, u: ThreadId)
    requires Inv(s) && Enabled(s, a) && EmptiesList(s, a) && NeedsShared(s, u)
    ensures var o := Act(s, a); o.Got? && NeedsShared(o.state, u) && Act(o.state, Alloc(u)).Fault?
  {
    hide IsList, Placed, CountInv;
    EmptyHead(s);
    ActKeepsInv(s, a);
    var s' := Act(s, a).state;
    assert Last(s'.heads) == 0 && s'.locals == s.locals;
    ActKeepsInv(s', Alloc(u));
  }

  /** Out of memory means that every slot is live or held by some other thread. */
  lemma OutOfMemoryMeansHeld(s: State, a: Action, i: nat)
    requires Inv(s) && Enabled(s, a) && Act(s, a).OutOfMemory? && i < |s.slots|
    ensures At(s, i, Live) || exists u :: u != a.t && (At(s, i, OnLocal(u)) || At(s, i, InChunk(u)))
    ensures Act(s, a).state.slots == s.slots && Act(s, a).state.failures == s.failures + 1
  {
    hide IsList;
    assert Placed(s, i);
    var p :| At(s, i, p);
    assert s.heads == [] && s.reserved >= |s.slots|;
    assert p != Beyond && !p.OnShared?;
    LocalEmpty(s, a.t);
    assert LocalInv(s, a.t);
    assert p.OnLocal? ==> At(s, i, OnLocal(p.t)) && p.t != a.t;
    assert p.InChunk? ==> At(s, i, InChunk(p.t)) && p.t != a.t;
  }

  // --- What the actions move -------------------------------------------------

  /** The place belongs to thread `t`. */
  predicate Owns(t: ThreadId, p: Place) {
    p == OnLocal(t) || p == InChunk(t)
  }

  /** An attached thread has no slots at first, and attaching moves none. */
  lemma AttachMoves(s: State, t: ThreadId)
    requires Inv(s) && Enabled(s, Attach(t))
    ensures var s' := Act(s, Attach(t)).state;
            && s'.locals == s.locals[t := Local(true, 0, 0, 0)] && s'.count == s.count
            && NeedsShared(s', t) && forall i, p :: At(s', i, p) <==> At(s, i, p)
  {
    hide IsList, Partition, CountInv;
    assert LocalInv(s, t);
    var s' := Act(s, Attach(t)).state;
    forall i: nat, p
      ensures At(s', i, p) <==> At(s, i, p)
    {
    }
  }

  /** Detaching a thread that has slots or a delta gives all of it back: its list and its
      chunk become one shared list, its delta is added to the count, and nothing else moves. */
  lemma DetachMoves(s: State, t: ThreadId)
    requires Inv(s) && t < |s.locals| && s.locals[t].attached
    requires s.locals[t].nextFree != 0 || HasChunk(s.locals[t]) || s.locals[t].delta != 0
    ensures var s' := DetachThread(s, t);
            && s'.locals == s.locals[t := DETACHED] && s'.count == s.count + s.locals[t].delta
            && s'.reserved == s.reserved && |s'.slots| == |s.slots|
            && (forall i, p :: At(s', i, p) <==>
                  if p == OnShared(|s.shared|) then At(s, i, OnLocal(t)) || At(s, i, InChunk(t))
                  else At(s, i, p) && !Owns(t, p))
  {
    hide IsList, Partition, CountInv;
    var s' := DetachThread(s, t);
    LocalEmpty(s, t);
    assert s'.locals == s.locals[t := DETACHED];
    forall i, p
      ensures At(s', i, p) <==>
                if p == OnShared(|s.shared|) then At(s, i, OnLocal(t)) || At(s, i, InChunk(t))
                else At(s, i, p) && !Owns(t, p)
    {
      DetachPlace(s, t, i, p);
    }
  }

  lemma LocalEmpty(s: State, t: ThreadId)
    requires Lists(s) && t < |s.locals| && s.terminals >= 1
    ensures s.locals[t].nextFree == 0 <==> s.local[t] == []
  {
    assert IsList(s, s.locals[t].nextFree, s.local[t]);
  }

  lemma DetachPlace(s: State, t: ThreadId, i: nat, p: Place)
    requires Inv(s) && t < |s.locals| && s.locals[t].attached
    requires s.locals[t].nextFree != 0 || HasChunk(s.locals[t]) || s.locals[t].delta != 0
    ensures var s' := DetachThread(s, t);
            At(s', i, p) <==>
              if p == OnShared(|s.shared|) then At(s, i, OnLocal(t)) || At(s, i, InChunk(t))
              else At(s, i, p) && !Owns(t, p)
  {
    hide IsList, Partition, CountInv;
    var s' := DetachThread(s, t);
    LocalEmpty(s, t);
    match p
    case Live => DetachLive(s, t, i);
    case OnShared(k) => DetachShared(s, t, i, k);
    case OnLocal(u) =>
    case InChunk(u) =>
    case Beyond =>
  }

  lemma DetachShared(s: State, t: ThreadId, i: nat, k: nat)
    requires Inv(s) && t < |s.locals| && s.locals[t].attached
    requires s.locals[t].nextFree != 0 || HasChunk(s.locals[t]) || s.locals[t].delta != 0
    ensures At(DetachThread(s, t), i, OnShared(k)) <==>
              if k == |s.shared| then At(s, i, OnLocal(t)) || At(s, i, InChunk(t)) else At(s, i, OnShared(k))
  {
    hide IsList, Partition, CountInv;
    var s', l := DetachThread(s, t), s.locals[t];
    LocalEmpty(s, t);
    if HasChunk(l) {
      var chunk := Range(l.initialized, ChunkEnd(l.initialized));
      assert s'.shared == s.shared + [chunk + s.local[t]];
      assert i in chunk <==> l.initialized <= i < ChunkEnd(l.initialized) by {
        if l.initialized <= i < ChunkEnd(l.initialized) {
          assert chunk[i - l.initialized] == i;
        }
      }
    } else if l.nextFree != 0 {
      assert s'.shared == s.shared + [s.local[t]];
    } else {
      assert s'.shared == s.shared;
    }
  }

  lemma DetachLive(s: State, t: ThreadId, i: nat)
    requires Inv(s) && t < |s.locals| && s.locals[t].attached
    ensures At(DetachThread(s, t), i, Live) <==> At(s, i, Live)
  {
    hide IsList, Lists, CountInv;
    if HasChunk(s.locals[t]) && s.locals[t].initialized <= i < ChunkEnd(s.locals[t].initialized) && i < |s.slots| {
      assert At(s, i, InChunk(t)) && Placed(s, i);
    }
  }

  /** Flushing a thread that has free slots shares its list and its delta, and nothing else. */
  lemma FlushMoves(s: State, t: ThreadId)
    requires Inv(s) && t < |s.locals| && s.locals[t].attached && s.locals[t].nextFree != 0
    ensures var s' := FlushThread(s, t);
            && s'.locals == s.locals[t := s.locals[t].(nextFree := 0, delta := 0)]
            && s'.count == s.count + s.locals[t].delta && s'.slots == s.slots && s'.reserved == s.reserved
            && (forall i, p :: At(s', i, p) <==>
                  if p == OnShared(|s.shared|) then At(s, i, OnLocal(t)) else At(s, i, p) && p != OnLocal(t))
  {
    hide IsList, Partition, CountInv;
    var s' := FlushThread(s, t);
    forall i, p
      ensures At(s', i, p) <==>
                if p == OnShared(|s.shared|) then At(s, i, OnLocal(t)) else At(s, i, p) && p != OnLocal(t)
    {
      match p
      case Live =>
      case OnShared(k) => assert k < |s.shared| ==> s'.shared[k] == s.shared[k];
      case OnLocal(u) =>
      case InChunk(u) =>
      case Beyond =>
    }
  }

  /** A released slot is not live any more. Unless it is flushed with the rest of the list, the
      next allocation of the thread, or of any foreign thread, gets it again. */
  lemma ReleaseMoves(s: State, t: ThreadId, i: nat)
    requires Inv(s) && t < |s.locals| && i < |s.slots| && s.slots[i] == Node
    ensures var s' := Act(s, Release(t, i)).state;
            && s'.slots == s.slots[i := s'.slots[i]] && s'.slots[i].Link? && s'.reserved == s.reserved
            && (forall u :: 0 <= u < |s.locals| && u != t ==> s'.locals[u] == s.locals[u] && s'.local[u] == s.local[u])
            && (s'.flushes == s.flushes && s.locals[t].attached ==>
                  s'.shared == s.shared && s'.local[t] == [i] + s.local[t] && ReturnsSlot(s', t, i))
            && (!s.locals[t].attached ==>
                  s'.local[t] == s.local[t] && forall u :: ForeignTo(s', u) ==> ReturnsSlot(s', u, i))
            && (s'.flushes != s.flushes <==> s.locals[t].attached && s.locals[t].delta <= 1 - (CHUNK as int))
            && (s'.flushes != s.flushes ==>
                  s'.shared == s.shared + [[i] + s.local[t]] && s'.local[t] == [] && s'.flushes == s.flushes + 1)
  {
    hide IsList, Placed, CountInv;
    ReleaseInv(s, t, i);
  }

  predicate ForeignTo(s: State, u: ThreadId) {
    u < |s.locals| && !s.locals[u].attached
  }

  /** The next allocation of thread `u` gets the slot `i`. */
  predicate ReturnsSlot(s: State, u: ThreadId, i: nat)
    requires |s.local| == |s.locals| && |s.shared| == |s.heads| && u < |s.locals|
  {
    var o := Act(s, Alloc(u));
    o.Got? && o.i == i
  }

  /** A slot other than the one handed out stays where it is, except that a thread may take over
      the last shared list, or a chunk of the slots beyond. */
  ghost predicate Keeps(s: State, s': State, t: ThreadId, j: nat, p: Place) {
    || At(s', j, p)
    || (p.OnShared? && p.k + 1 == |s.shared| && At(s', j, OnLocal(t)))
    || (p == Beyond && At(s', j, InChunk(t)))
  }

  /** Handing out a slot moves no slot of another thread, and no other slot of this one. */
  lemma AllocMoves(s: State, t: ThreadId, o: Outcome)
    requires Inv(s) && t < |s.locals| == |s.local| && |s.shared| == |s.heads| && o == Act(s, Alloc(t)) && o.Got?
    ensures At(o.state, o.i, Live) && !At(s, o.i, Live)
    ensures |o.state.locals| == |s.locals| == |o.state.local|
    ensures forall u :: 0 <= u < |s.locals| && u != t ==>
              o.state.locals[u] == s.locals[u] && o.state.local[u] == s.local[u]
    ensures forall j, p :: j != o.i && At(s, j, p) ==> Keeps(s, o.state, t, j, p)
    ensures s.locals[t].attached && NeedsShared(s, t) ==>
              o.state.locals[t].delta == 0 && o.state.count == s.count + s.locals[t].delta + 1
  {
    hide IsList, Placed, CountInv, Partition, Keeps, At;
    ActKeepsInv(s, Alloc(t));
    HandedOut(s, o);
    forall j: nat, p | j != o.i && At(s, j, p)
      ensures Keeps(s, o.state, t, j, p)
    {
      AllocPlace(s, t, o, j, p);
    }
  }

  lemma HandedOut(s: State, o: Outcome)
    requires o.Got? && HandsOutFree(s, o)
    ensures At(o.state, o.i, Live) && !At(s, o.i, Live)
  {
  }

  lemma AllocPlace(s: State, t: ThreadId, o: Outcome, j: nat, p: Place)
    requires Inv(s) && t < |s.locals| == |s.local| && |s.shared| == |s.heads| && o == Act(s, Alloc(t)) && o.Got?
    requires j != o.i && At(s, j, p)
    ensures Keeps(s, o.state, t, j, p)
  {
    hide IsList, Placed, CountInv, Partition;
    if !s.locals[t].attached {
      AllocForeignPlace(s, t, o, j, p);
    } else if s.locals[t].nextFree != 0 || HasChunk(s.locals[t]) {
      AllocLocalPlace(s, t, o, j, p);
    } else {
      AllocSharedPlace(s, t, o, j, p);
    }
  }

  lemma TailKeeps(s: State, head: nat, l: seq<nat>, j: nat)
    requires IsList(s, head, l) && j in l && j + s.terminals != head
    ensures j in Tail(l)
  {
  }

  lemma AllocForeignPlace(s: State, t: ThreadId, o: Outcome, j: nat, p: Place)
    requires Inv(s) && t < |s.locals| && o == AllocForeign(s) && o.Got? && j != o.i && At(s, j, p)
    ensures Keeps(s, o.state, t, j, p)
  {
    hide IsList, Placed, CountInv, Partition, HasChunk;
    if p.OnShared? && p.k + 1 == |s.shared| {
      TailKeeps(s, s.heads[p.k], s.shared[p.k], j);
      assert At(o.state, j, p);
    } else {
      assert At(o.state, j, p);
    }
  }

  lemma AllocLocalPlace(s: State, t: ThreadId, o: Outcome, j: nat, p: Place)
    requires Inv(s) && t < |s.locals| && s.locals[t].attached && (s.locals[t].nextFree != 0 || HasChunk(s.locals[t]))
    requires o == AllocLocal(s, t) && o.Got? && j != o.i && At(s, j, p)
    ensures Keeps(s, o.state, t, j, p)
  {
    hide IsList, Placed, CountInv, Partition;
    if p == OnLocal(t) && s.locals[t].nextFree != 0 {
      TailKeeps(s, s.locals[t].nextFree, s.local[t], j);
    }
    if p == InChunk(t) && s.locals[t].nextFree == 0 {
      ChunkStep(s.locals[t].initialized);
    }
    assert At(o.state, j, p);
  }

  lemma AllocSharedPlace(s: State, t: ThreadId, o: Outcome, j: nat, p: Place)
    requires Inv(s) && Exhausted(s, t) && o == AllocShared(s, t) && o.Got? && j != o.i && At(s, j, p)
    ensures Keeps(s, o.state, t, j, p)
  {
    hide IsList, Placed, CountInv, Partition;
    LocalEmpty(s, t);
    if p.OnShared? && p.k + 1 == |s.shared| {
      TailKeeps(s, s.heads[p.k], s.shared[p.k], j);
      assert At(o.state, j, OnLocal(t));
    } else if p == Beyond && j < o.state.reserved {
      ChunkStep(s.reserved);
      assert At(o.state, j, InChunk(t));
    } else {
      assert At(o.state, j, p);
    }
  }

  // --- Whole runs ------------------------------------------------------------

  ghost predicate Init(s: State) {
    && s.terminals >= 1 && s.heads == [] && s.shared == [] && s.reserved == 0 && s.count == 0
    && s.flushes == 0 && s.failures == 0
    && (forall i :: 0 <= i < |s.slots| ==> s.slots[i] == Uninit)
    && |s.local| == |s.locals|
    && (forall t :: 0 <= t < |s.locals| ==>
          s.local[t] == [] && (s.locals[t] == DETACHED || s.locals[t] == Local(true, 0, 0, 0)))
  }

  /** A run, until an action faults. */
  ghost predicate Run(run: seq<State>, actions: seq<Action>) {
    && |run| == |actions| + 1 && Init(run[0])
    && forall i :: 0 <= i < |actions| ==> StepOf(run[i], actions[i], run[i + 1])
  }

  predicate StepOf(s: State, a: Action, s': State) {
    && |s.local| == |s.locals| && |s.shared| == |s.heads| && Enabled(s, a)
    && !Act(s, a).Fault? && s' == Act(s, a).state
  }

  lemma {:induction false} NoDeltas(locals: seq<Local>)
    requires forall t :: 0 <= t < |locals| ==> locals[t].delta == 0
    ensures Deltas(locals) == 0
  {
    if locals != [] {
      NoDeltas(locals[1..]);
    }
  }

  lemma InitInv(s: State)
    requires Init(s)
    ensures Inv(s)
  {
    NoDeltas(s.locals);
    assert CountInv(s) by {
      assert Node !in s.slots;
    }
    assert Lists(s);
    InitPlaces(s);
  }

  lemma InitPlaces(s: State)
    requires Init(s)
    ensures Partition(s)
  {
    forall i | 0 <= i < |s.slots|
      ensures Placed(s, i)
    {
      assert At(s, i, Beyond);
      assert forall q :: At(s, i, q) ==> q == Beyond;
    }
  }

  lemma {:induction false} RunInv(run: seq<State>, actions: seq<Action>, i: nat)
    requires Run(run, actions) && i < |run|
    ensures Inv(run[i])
  {
    hide Inv, Init, PopsEmptyList, Enabled, Act;
    if i == 0 {
      InitInv(run[0]);
    } else {
      RunInv(run, actions, i - 1);
      assert StepOf(run[i - 1], actions[i - 1], run[i]);
      ActKeepsInv(run[i - 1], actions[i - 1]);
    }
  }

  /** In every state of every run each slot is in exactly one place, and the count over-reports
      by the flushes and failures only. Whatever action comes next, it faults exactly if it
      takes the head of an empty shared list, and otherwise hands out a free slot, if any. */
  lemma RunSafe(run: seq<State>, actions: seq<Action>, i: nat, a: Action)
    requires Run(run, actions) && i < |run| && Enabled(run[i], a)
    ensures var s := run[i];
            && Partition(s) && Lists(s)
            && s.count + Deltas(s.locals) == LiveCount(s.slots) + s.flushes + s.failures
            && (Act(s, a).Fault? <==> PopsEmptyList(s, a)) && (!Act(s, a).Fault? ==> HandsOutFree(s, Act(s, a)))
  {
    hide IsList, Placed, Init, PopsEmptyList, Act, Run;
    RunInv(run, actions, i);
    ActKeepsInv(run[i], a);
  }

  // --- An example ------------------------------------------------------------

  /** A store with one slot, used by one foreign thread. */
  const FRESH := State(1, [Uninit], [], 0, 0, [DETACHED], [], [[]], 0, 0)

  /** The slot has been allocated and released. */
  const ONE_FREE := State(1, [Link(0)], [1], 1, 0, [DETACHED], [[0]], [[]], 0, 0)

  /** The slot has been allocated again: the shared list has become empty. */
  const EMPTIED := State(1, [Node], [0], 1, 1, [DETACHED], [[]], [[]], 0, 0)

  /** A run that empties the shared list. An allocation then faults; but releasing the slot
      instead leads back to the state before. */
  lemma EmptiedListExample()
    ensures Run([FRESH, Act(FRESH, Alloc(0)).state, ONE_FREE, EMPTIED], [Alloc(0), Release(0, 0), Alloc(0)])
    ensures EmptiesList(ONE_FREE, Alloc(0)) && Act(EMPTIED, Alloc(0)).Fault?
    ensures Act(EMPTIED, Release(0, 0)) == Done(ONE_FREE)
  {
    var s1 := State(1, [Node], [], 1, 1, [DETACHED], [], [[]], 0, 0);
    assert Act(FRESH, Alloc(0)) == Got(s1, 0);
    assert Act(s1, Release(0, 0)) == Done(ONE_FREE);
    assert Act(ONE_FREE, Alloc(0)) == Got(EMPTIED, 0);
    var r := ReleaseForeign(EMPTIED, 0);
    assert r.slots == [Link(0)] && r.heads == [1] && [0] + Last(EMPTIED.shared) == [0] && r.shared == [[0]];
    var run, actions := [FRESH, s1, ONE_FREE, EMPTIED], [Alloc(0), Release(0, 0), Alloc(0)];
    assert StepOf(FRESH, Alloc(0), s1) && StepOf(s1, Release(0, 0), ONE_FREE) && StepOf(ONE_FREE, Alloc(0), EMPTIED);
    assert forall i :: 0 <= i < 3 ==> StepOf(run[i], actions[i], run[i + 1]);
  }
}
