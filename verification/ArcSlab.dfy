/** The slab of reference counted items: free list, page allocation, item and slab
    reference counts. Every atomic operation and every critical section is one action;
    the stage of an operation in progress is kept in the slot it works on. */
module ArcSlabs {
  import opened Options

  /** A slot. `ints`, `exts` are the internal and external handles that exist for its item,
      `cloning` the external handles being cloned whose slab count is still to be taken.
      The flag of the last two tells whether an external handle is being dropped. */
  datatype Slot =
    | Free(next: Option<nat>)
    | Taken
    | Counted
    | Occupied(rc: nat, ints: nat, exts: nat, cloning: nat)
    | Emptied(ext: bool)
    | Uncounted(ext: bool)

  /** `refs` are the existing slab references, `releasing` the pending decrements of the
      slab's count `rc`; `added` and `dropped` count the items written and dropped so far. */
  datatype State = State(
    slots: seq<Slot>, head: nat, items: int, rc: int, freed: bool,
    refs: nat, releasing: nat, added: nat, dropped: nat)

  datatype Action =
    | GetSlot | CountItem(i: nat) | WriteItem(i: nat)
    | CloneInt(i: nat) | RetainExt(i: nat) | FinishExt(i: nat) | IntToExt(i: nat)
    | DropInt(i: nat) | DropExt(i: nat) | Uncount(i: nat) | FreeSlot(i: nat)
    | CloneRef | DropRef | Release

  /** The slots of a new page, linked in order. */
  function Page(first: nat, count: nat): (p: seq<Slot>)
    requires count > 0
    ensures |p| == count
  {
    seq(count, k requires 0 <= k < count => Free(if k + 1 < count then Some(first + k + 1) else None))
  }

  function Init(count: nat): State
    requires count > 0
  {
    State(Page(0, count), 0, 0, 1, false, 1, 0, 0, 0)
  }

  // --- Sums over slots -------------------------------------------------------

  function Sum(s: seq<Slot>, w: Slot -> nat): nat {
    if s == [] then 0 else Sum(s[..|s| - 1], w) + w(s[|s| - 1])
  }

  lemma {:induction false} SumUpdate(s: seq<Slot>, w: Slot -> nat, i: nat, x: Slot)
    requires i < |s|
    ensures Sum(s[i := x], w) == Sum(s, w) - w(s[i]) + w(x)
  {
    var t, n := s[i := x], |s| - 1;
    if i < n {
      assert t[..n] == s[..n][i := x];
      SumUpdate(s[..n], w, i, x);
    } else {
      assert t[..n] == s[..n];
    }
  }

  lemma {:induction false} SumZeros(s: seq<Slot>, w: Slot -> nat, t: seq<Slot>)
    requires forall k :: 0 <= k < |t| ==> w(t[k]) == 0
    ensures Sum(s + t, w) == Sum(s, w)
  {
    if t == [] {
      assert s + t == s;
    } else {
      var n := |t| - 1;
      assert (s + t)[..|s + t| - 1] == s + t[..n];
      SumZeros(s, w, t[..n]);
    }
  }

  lemma {:induction false} SumPositive(s: seq<Slot>, w: Slot -> nat, i: nat)
    requires i < |s|
    ensures Sum(s, w) >= w(s[i])
  {
    if i < |s| - 1 {
      SumPositive(s[..|s| - 1], w, i);
    }
  }

  /** Slots counted by the slab's item counter. */
  function ItemWeight(x: Slot): nat {
    if x.Counted? || x.Occupied? || x.Emptied? then 1 else 0
  }

  function OccupiedWeight(x: Slot): nat {
    if x.Occupied? then 1 else 0
  }

  /** External handles of the item in a slot. */
  function HandleWeight(x: Slot): nat {
    if x.Occupied? then x.exts else 0
  }

  /** External handles being dropped. */
  function DropWeight(x: Slot): nat {
    match x
    case Emptied(ext) => if ext then 1 else 0
    case Uncounted(ext) => if ext then 1 else 0
    case _ => 0
  }

  /** Internal handles and operations that borrow the slab. */
  function BorrowWeight(x: Slot): nat {
    match x
    case Free(_) => 0
    case Taken => 1
    case Counted => 1
    case Occupied(_, ints, _, _) => ints
    case Emptied(ext) => if ext then 0 else 1
    case Uncounted(ext) => if ext then 0 else 1
  }

  function Items(s: seq<Slot>): nat { Sum(s, ItemWeight) }
  function Stored(s: seq<Slot>): nat { Sum(s, OccupiedWeight) }
  function ExtHandles(s: seq<Slot>): nat { Sum(s, HandleWeight) }
  function ExtDrops(s: seq<Slot>): nat { Sum(s, DropWeight) }
  function Borrows(s: seq<Slot>): nat { Sum(s, BorrowWeight) }

  /** How all sums change when one slot changes. */
  lemma Change(s: seq<Slot>, i: nat, x: Slot)
    requires i < |s|
    ensures var t := s[i := x];
            && Items(t) == Items(s) - ItemWeight(s[i]) + ItemWeight(x)
            && Stored(t) == Stored(s) - OccupiedWeight(s[i]) + OccupiedWeight(x)
            && ExtHandles(t) == ExtHandles(s) - HandleWeight(s[i]) + HandleWeight(x)
            && ExtDrops(t) == ExtDrops(s) - DropWeight(s[i]) + DropWeight(x)
            && Borrows(t) == Borrows(s) - BorrowWeight(s[i]) + BorrowWeight(x)
  {
    SumUpdate(s, ItemWeight, i, x);
    SumUpdate(s, OccupiedWeight, i, x);
    SumUpdate(s, HandleWeight, i, x);
    SumUpdate(s, DropWeight, i, x);
    SumUpdate(s, BorrowWeight, i, x);
  }

  lemma Extend(s: seq<Slot>, t: seq<Slot>)
    requires forall k :: 0 <= k < |t| ==> t[k].Free?
    ensures Items(s + t) == Items(s) && Stored(s + t) == Stored(s) && ExtHandles(s + t) == ExtHandles(s)
    ensures ExtDrops(s + t) == ExtDrops(s) && Borrows(s + t) == Borrows(s)
  {
    SumZeros(s, ItemWeight, t);
    SumZeros(s, OccupiedWeight, t);
    SumZeros(s, HandleWeight, t);
    SumZeros(s, DropWeight, t);
    SumZeros(s, BorrowWeight, t);
  }

  // --- Actions ---------------------------------------------------------------

  /** Is there anything a reference to the slab can be borrowed from? */
  predicate Lendable(s: State) {
    s.refs > 0 || ExtHandles(s.slots) > 0
  }

  /** May a slab reference or an external handle go away? References borrowed from the
      slab, and internal handles with them, must not outlive what they are borrowed from. */
  predicate Outlived(refs: nat, slots: seq<Slot>) {
    Borrows(slots) > 0 ==> refs > 0 || ExtHandles(slots) > 0
  }

  /** What the caller must own to perform an action. */
  predicate Enabled(s: State, a: Action) {
    match a
    case GetSlot => Lendable(s) && s.head < |s.slots| && s.slots[s.head].Free?
    case CountItem(i) => i < |s.slots| && s.slots[i].Taken?
    case WriteItem(i) => i < |s.slots| && s.slots[i].Counted?
    case CloneInt(i) => i < |s.slots| && s.slots[i].Occupied? && s.slots[i].ints > 0
    case RetainExt(i) => i < |s.slots| && s.slots[i].Occupied? && s.slots[i].exts > 0
    case FinishExt(i) => i < |s.slots| && s.slots[i].Occupied? && s.slots[i].cloning > 0
    case IntToExt(i) => i < |s.slots| && s.slots[i].Occupied? && s.slots[i].ints > 0
    case DropInt(i) => i < |s.slots| && s.slots[i].Occupied? && s.slots[i].ints > 0
    case DropExt(i) =>
      && i < |s.slots| && s.slots[i].Occupied? && s.slots[i].exts > 0
      && (s.slots[i].cloning > 0 ==> s.slots[i].exts > 1)
      && Outlived(s.refs, s.slots[i := s.slots[i].(exts := s.slots[i].exts - 1)])
    case Uncount(i) => i < |s.slots| && s.slots[i].Emptied?
    case FreeSlot(i) => i < |s.slots| && s.slots[i].Uncounted?
    case CloneRef => s.refs > 0
    case DropRef => s.refs > 0 && Outlived(s.refs - 1, s.slots)
    case Release => s.releasing > 0
  }

  /** Decrement an item's count; the last handle takes the item out. */
  function Unref(s: State, i: nat, x: Slot, ext: bool): State
    requires i < |s.slots| && s.slots[i].Occupied? && s.slots[i].rc > 0
  {
    if s.slots[i].rc == 1 then s.(slots := s.slots[i := Emptied(ext)], dropped := s.dropped + 1)
    else s.(slots := s.slots[i := x], releasing := s.releasing + if ext then 1 else 0)
  }

  function Next(s: State, a: Action, count: nat): State
    requires Enabled(s, a) && count > 0
  {
    match a
    case GetSlot =>
      var slot := s.head;
      var taken := s.slots[slot := Taken];
      (match s.slots[slot].next
       case Some(next) => s.(slots := taken, head := next)
       case None => s.(slots := taken + Page(|s.slots|, count), head := |s.slots|))
    case CountItem(i) => s.(slots := s.slots[i := Counted], items := s.items + 1)
    case WriteItem(i) => s.(slots := s.slots[i := Occupied(1, 1, 0, 0)], added := s.added + 1)
    case CloneInt(i) => var x := s.slots[i]; s.(slots := s.slots[i := x.(rc := x.rc + 1, ints := x.ints + 1)])
    case RetainExt(i) => var x := s.slots[i]; s.(slots := s.slots[i := x.(rc := x.rc + 1, cloning := x.cloning + 1)])
    case FinishExt(i) =>
      var x := s.slots[i];
      s.(slots := s.slots[i := x.(cloning := x.cloning - 1, exts := x.exts + 1)], rc := s.rc + 1)
    case IntToExt(i) =>
      var x := s.slots[i];
      s.(slots := s.slots[i := x.(ints := x.ints - 1, exts := x.exts + 1)], rc := s.rc + 1)
    case DropInt(i) =>
      var x := s.slots[i];
      if x.rc == 0 then s else Unref(s, i, x.(rc := x.rc - 1, ints := x.ints - 1), false)
    case DropExt(i) =>
      var x := s.slots[i];
      if x.rc == 0 then s else Unref(s, i, x.(rc := x.rc - 1, exts := x.exts - 1), true)
    case Uncount(i) => s.(slots := s.slots[i := Uncounted(s.slots[i].ext)], items := s.items - 1)
    case FreeSlot(i) =>
      s.(slots := s.slots[i := Free(Some(s.head))], head := i,
         releasing := s.releasing + if s.slots[i].ext then 1 else 0)
    case CloneRef => s.(refs := s.refs + 1, rc := s.rc + 1)
    case DropRef => s.(refs := s.refs - 1, releasing := s.releasing + 1)
    case Release => s.(releasing := s.releasing - 1, rc := s.rc - 1, freed := s.freed || s.rc == 1)
  }

  // --- Invariant -------------------------------------------------------------

  /** The k-th slot of the list is free and names the next one. */
  predicate Linked(slots: seq<Slot>, list: seq<nat>, k: nat)
    requires k < |list|
  {
    list[k] < |slots| && slots[list[k]] == Free(if k + 1 < |list| then Some(list[k + 1]) else None)
  }

  /** `list` is the non-empty acyclic list that starts at `head`, and holds all free slots. */
  ghost predicate FreeList(slots: seq<Slot>, head: nat, list: seq<nat>) {
    && list != [] && list[0] == head
    && (forall k :: 0 <= k < |list| ==> Linked(slots, list, k))
    && (forall j, k :: 0 <= j < k < |list| ==> list[j] != list[k])
    && (forall i :: 0 <= i < |slots| && slots[i].Free? ==> i in list)
  }

  ghost predicate HasFreeList(s: State) {
    exists list :: FreeList(s.slots, s.head, list)
  }

  /** The count of an item is the number of its handles. */
  predicate CountsHandles(x: Slot) {
    x.Occupied? ==> x.rc == x.ints + x.exts + x.cloning && x.rc > 0 && (x.cloning > 0 ==> x.exts > 0)
  }

  predicate ItemsCounted(slots: seq<Slot>) {
    forall i :: 0 <= i < |slots| ==> CountsHandles(slots[i])
  }

  ghost predicate Totals(s: State) {
    && s.items == Items(s.slots)
    && s.added == s.dropped + Stored(s.slots)
    && s.rc == s.refs + s.releasing + ExtHandles(s.slots) + ExtDrops(s.slots)
    && Outlived(s.refs, s.slots)
    && (s.freed <==> s.rc == 0)
  }

  ghost predicate Inv(s: State) {
    HasFreeList(s) && ItemsCounted(s.slots) && Totals(s)
  }

  /** The slots of a page, in order. */
  ghost function Links(first: nat, count: nat): (list: seq<nat>)
    ensures |list| == count && forall k :: 0 <= k < count ==> list[k] == first + k
  {
    seq(count, k => first + k)
  }

  /** A new page becomes the free list when no other slot is free. */
  lemma PageList(slots: seq<Slot>, count: nat)
    requires count > 0 && forall i :: 0 <= i < |slots| ==> !slots[i].Free?
    ensures FreeList(slots + Page(|slots|, count), |slots|, Links(|slots|, count))
  {
    var n, t := |slots|, slots + Page(|slots|, count);
    var list := Links(n, count);
    forall k | 0 <= k < count
      ensures Linked(t, list, k)
    {
      assert t[n + k] == Page(n, count)[k];
    }
    assert forall i :: 0 <= i < n ==> t[i] == slots[i];
    forall i | n <= i < |t|
      ensures i in list
    {
      assert list[i - n] == i;
    }
  }

  lemma PageFree(first: nat, count: nat)
    requires count > 0
    ensures forall i :: 0 <= i < count ==> Page(first, count)[i].Free?
  {
  }

  lemma NoneUsed()
    ensures Items([]) == 0 && Stored([]) == 0 && ExtHandles([]) == 0 && ExtDrops([]) == 0 && Borrows([]) == 0
  {
  }

  lemma InitInv(count: nat)
    requires count > 0
    ensures Inv(Init(count))
  {
    hide Page, FreeList, Items, Stored, ExtHandles, ExtDrops, Borrows;
    var s := Init(count);
    PageList([], count);
    assert forall i :: 0 <= i < count ==> s.slots[i].Free? by { PageFree(0, count); }
    NoneUsed();
    assert [] + s.slots == s.slots;
    Extend([], s.slots);
  }

  /** A slot that is not free may change in any other way. */
  lemma KeepsList(s: State, i: nat, x: Slot)
    requires HasFreeList(s) && i < |s.slots| && !s.slots[i].Free? && !x.Free?
    ensures HasFreeList(s.(slots := s.slots[i := x]))
  {
    var list :| FreeList(s.slots, s.head, list);
    var slots := s.slots[i := x];
    forall k | 0 <= k < |list|
      ensures Linked(slots, list, k)
    {
      assert Linked(s.slots, list, k);
    }
    assert FreeList(slots, s.head, list);
  }

  lemma TakesHead(s: State, count: nat)
    requires HasFreeList(s) && Enabled(s, GetSlot) && count > 0
    ensures HasFreeList(Next(s, GetSlot, count))
  {
    var s' := Next(s, GetSlot, count);
    var list :| FreeList(s.slots, s.head, list);
    assert Linked(s.slots, list, 0);
    if |list| == 1 {
      var taken := s.slots[s.head := Taken];
      assert forall i :: i in list ==> i == list[0];
      PageList(taken, count);
      assert FreeList(s'.slots, s'.head, Links(|taken|, count));
    } else {
      var rest := list[1..];
      assert Linked(s.slots, list, 0);
      assert forall k :: 0 <= k < |rest| ==> rest[k] == list[k + 1];
      assert forall i :: i in list ==> i == list[0] || i in rest;
      forall k | 0 <= k < |rest|
        ensures Linked(s'.slots, rest, k)
      {
        assert Linked(s.slots, list, k + 1);
        assert rest[k] == list[k + 1] && list[0] != list[k + 1];
      }
      assert FreeList(s'.slots, s'.head, rest);
    }
  }

  lemma PushesSlot(s: State, i: nat)
    requires HasFreeList(s) && Enabled(s, FreeSlot(i))
    ensures HasFreeList(Next(s, FreeSlot(i), 1))
  {
    var s' := Next(s, FreeSlot(i), 1);
    var list :| FreeList(s.slots, s.head, list);
    var list' := [i] + list;
    forall k | 0 < k < |list'|
      ensures Linked(s'.slots, list', k) && list'[k] != i
    {
      assert Linked(s.slots, list, k - 1);
    }
    assert Linked(s'.slots, list', 0);
    assert FreeList(s'.slots, s'.head, list');
  }

  /** The free list stays non-empty, acyclic and complete. */
  lemma StepKeepsList(s: State, a: Action, count: nat)
    requires HasFreeList(s) && Enabled(s, a) && count > 0
    ensures HasFreeList(Next(s, a, count))
  {
    hide HasFreeList, Outlived, Lendable;
    var s' := Next(s, a, count);
    match a {
      case GetSlot => TakesHead(s, count);
      case FreeSlot(i) => PushesSlot(s, i);
      case CloneRef => SameList(s, s');
      case DropRef => SameList(s, s');
      case Release => SameList(s, s');
      case _ =>
        if s'.slots == s.slots {
          SameList(s, s');
        } else {
          KeepsList(s, a.i, s'.slots[a.i]);
          SameList(s.(slots := s'.slots), s');
        }
    }
  }

  lemma SameList(s: State, s': State)
    requires HasFreeList(s) && s'.slots == s.slots && s'.head == s.head
    ensures HasFreeList(s')
  {
  }

  lemma StepKeepsCounts(s: State, a: Action, count: nat)
    requires ItemsCounted(s.slots) && Enabled(s, a) && count > 0
    ensures ItemsCounted(Next(s, a, count).slots)
  {
    hide Outlived, Lendable;
    match a {
      case GetSlot =>
      case CloneRef =>
      case DropRef =>
      case Release =>
      case _ => assert CountsHandles(s.slots[a.i]);
    }
  }

  lemma StepKeepsTotals(s: State, a: Action, count: nat)
    requires Inv(s) && Enabled(s, a) && count > 0
    ensures Totals(Next(s, a, count))
  {
    hide HasFreeList, Items, Stored, ExtHandles, ExtDrops, Borrows;
    var s' := Next(s, a, count);
    match a {
      case GetSlot =>
        Change(s.slots, s.head, Taken);
        Extend(s.slots[s.head := Taken], Page(|s.slots|, count));
      case CloneRef =>
      case DropRef =>
      case Release =>
      case DropInt(_) => DropKeepsTotals(s, a, count);
      case DropExt(_) => DropKeepsTotals(s, a, count);
      case _ => ItemStepKeepsTotals(s, a, count);
    }
  }

  lemma ItemStepKeepsTotals(s: State, a: Action, count: nat)
    requires Inv(s) && Enabled(s, a) && count > 0 && !a.GetSlot? && !a.CloneRef? && !a.DropRef? && !a.Release?
    requires !a.DropInt? && !a.DropExt?
    ensures Totals(Next(s, a, count))
  {
    hide HasFreeList, ItemsCounted, Items, Stored, ExtHandles, ExtDrops, Borrows;
    var s', x := Next(s, a, count), s.slots[a.i];
    CountAt(s.slots, a.i);
    Change(s.slots, a.i, s'.slots[a.i]);
    Lower(s.slots, a.i);
  }

  lemma DropKeepsTotals(s: State, a: Action, count: nat)
    requires Inv(s) && Enabled(s, a) && count > 0 && (a.DropInt? || a.DropExt?)
    ensures Totals(Next(s, a, count))
  {
    if a.DropInt? {
      DropIntKeepsTotals(s, a.i, count);
    } else {
      DropExtKeepsTotals(s, a.i, count);
    }
  }

  lemma DropIntKeepsTotals(s: State, i: nat, count: nat)
    requires Inv(s) && Enabled(s, DropInt(i)) && count > 0
    ensures Totals(Next(s, DropInt(i), count))
  {
    hide HasFreeList, ItemsCounted, Items, Stored, ExtHandles, ExtDrops, Borrows;
    CountAt(s.slots, i);
    Change(s.slots, i, Next(s, DropInt(i), count).slots[i]);
    Lower(s.slots, i);
  }

  lemma DropExtKeepsTotals(s: State, i: nat, count: nat)
    requires Inv(s) && Enabled(s, DropExt(i)) && count > 0
    ensures Totals(Next(s, DropExt(i), count))
  {
    hide HasFreeList, ItemsCounted, Items, Stored, ExtHandles, ExtDrops, Borrows;
    var x := s.slots[i];
    CountAt(s.slots, i);
    Change(s.slots, i, Next(s, DropExt(i), count).slots[i]);
    Change(s.slots, i, x.(exts := x.exts - 1));
    Lower(s.slots, i);
  }

  lemma CountAt(slots: seq<Slot>, i: nat)
    requires ItemsCounted(slots) && i < |slots|
    ensures CountsHandles(slots[i])
  {
  }

  lemma Lower(s: seq<Slot>, i: nat)
    requires i < |s|
    ensures ExtHandles(s) >= HandleWeight(s[i]) && Borrows(s) >= BorrowWeight(s[i]) && ExtDrops(s) >= DropWeight(s[i])
  {
    SumPositive(s, HandleWeight, i);
    SumPositive(s, DropWeight, i);
    SumPositive(s, BorrowWeight, i);
  }

  lemma StepKeepsInv(s: State, a: Action, count: nat)
    requires Inv(s) && Enabled(s, a) && count > 0
    ensures Inv(Next(s, a, count))
  {
    StepKeepsList(s, a, count);
    StepKeepsCounts(s, a, count);
    StepKeepsTotals(s, a, count);
  }

  // --- Runs ------------------------------------------------------------------

  /** The states of a run from the initial state. */
  ghost predicate Run(states: seq<State>, actions: seq<Action>, count: nat) {
    && count > 0 && |states| == |actions| + 1 && states[0] == Init(count)
    && forall k :: 0 <= k < |actions| ==>
         Enabled(states[k], actions[k]) && states[k + 1] == Next(states[k], actions[k], count)
  }

  lemma {:induction false} RunInv(states: seq<State>, actions: seq<Action>, count: nat, k: nat)
    requires Run(states, actions, count) && k < |states|
    ensures Inv(states[k])
  {
    hide Inv, Next, Enabled, Init;
    if k == 0 {
      InitInv(count);
    } else {
      RunInv(states, actions, count, k - 1);
      StepKeepsInv(states[k - 1], actions[k - 1], count);
    }
  }

  /** Whoever owns a handle, a reference or a slot may use the slab: it has not been freed. */
  lemma EnabledNotFreed(s: State, a: Action)
    requires Inv(s) && Enabled(s, a)
    ensures !s.freed
  {
    hide HasFreeList, Items, Stored, ExtHandles, ExtDrops, Borrows;
    match a {
      case GetSlot =>
      case CloneRef =>
      case DropRef =>
      case Release =>
      case _ =>
        assert CountsHandles(s.slots[a.i]);
        Lower(s.slots, a.i);
    }
  }

  /** When the slab is freed, all its slots are free, and no reference or handle remains. */
  lemma FreedUnused(s: State)
    requires Inv(s) && s.freed
    ensures s.refs == 0 && s.releasing == 0 && s.items == 0 && s.added == s.dropped
    ensures forall i :: 0 <= i < |s.slots| ==> s.slots[i].Free?
  {
    hide HasFreeList, Items, Stored, ExtHandles, ExtDrops, Borrows;
    forall i | 0 <= i < |s.slots|
      ensures s.slots[i].Free?
    {
      Lower(s.slots, i);
      assert CountsHandles(s.slots[i]);
    }
    AllFree(s.slots);
  }

  lemma AllFree(s: seq<Slot>)
    requires forall i :: 0 <= i < |s| ==> s[i].Free?
    ensures Items(s) == 0 && Stored(s) == 0
  {
    NoneUsed();
    Extend([], s);
    assert [] + s == s;
  }

  /** The last handle, and no other, takes the item out; it then is dropped once. */
  lemma LastHandleDrops(s: State, a: Action, count: nat)
    requires Inv(s) && Enabled(s, a) && count > 0 && (a.DropInt? || a.DropExt?)
    ensures var x, s' := s.slots[a.i], Next(s, a, count);
            && (s'.slots[a.i].Emptied? <==> x.ints + x.exts == 1)
            && s'.dropped == s.dropped + (if x.ints + x.exts == 1 then 1 else 0)
            && (s'.slots[a.i].Emptied? || s'.slots[a.i].Occupied?)
  {
    hide HasFreeList, Totals, Outlived;
    assert CountsHandles(s.slots[a.i]);
  }

  // --- What the actions do ---------------------------------------------------

  predicate OnSlot(a: Action) {
    !a.GetSlot? && !a.CloneRef? && !a.DropRef? && !a.Release?
  }

  /** The number of handles of the item in a slot, complete or being cloned. */
  function Handles(x: Slot): nat {
    if x.Occupied? then x.ints + x.exts + x.cloning else 0
  }

  /** The life of a slot, as seen by the owners of its handles. The count is not mentioned. */
  ghost predicate Moves(a: Action, x: Slot, y: Slot)
    requires OnSlot(a)
  {
    match a
    case CountItem(_) => x.Taken? && y.Counted?
    case WriteItem(_) => x.Counted? && y.Occupied? && y.ints == 1 && y.exts == 0 && y.cloning == 0
    case CloneInt(_) => HandlesMove(x, y, 1, 0, 0)
    case RetainExt(_) => HandlesMove(x, y, 0, 0, 1)
    case FinishExt(_) => HandlesMove(x, y, 0, 1, -1)
    case IntToExt(_) => HandlesMove(x, y, -1, 1, 0)
    case DropInt(_) => if Handles(x) == 1 then x.Occupied? && y == Emptied(false) else HandlesMove(x, y, -1, 0, 0)
    case DropExt(_) => if Handles(x) == 1 then x.Occupied? && y == Emptied(true) else HandlesMove(x, y, 0, -1, 0)
    case Uncount(_) => x.Emptied? && y == Uncounted(x.ext)
    case FreeSlot(_) => x.Uncounted? && y.Free?
  }

  ghost predicate HandlesMove(x: Slot, y: Slot, ints: int, exts: int, cloning: int) {
    && x.Occupied? && y.Occupied?
    && y.ints == x.ints + ints && y.exts == x.exts + exts && y.cloning == x.cloning + cloning
  }

  /** An action on a slot moves that slot on, with its count, and no other. A freed slot comes to
      the head of the free list; the head stays where it is otherwise. */
  lemma SlotMoves(s: State, a: Action, count: nat)
    requires Inv(s) && Enabled(s, a) && count > 0 && OnSlot(a)
    ensures var s' := Next(s, a, count);
            && |s'.slots| == |s.slots| && Moves(a, s.slots[a.i], s'.slots[a.i]) && CountsHandles(s'.slots[a.i])
            && (forall j :: 0 <= j < |s.slots| && j != a.i ==> s'.slots[j] == s.slots[j])
            && (if a.FreeSlot? then s'.head == a.i && s'.slots[a.i].next == Some(s.head) else s'.head == s.head)
  {
    hide HasFreeList, Totals, Outlived;
    CountAt(s.slots, a.i);
    StepKeepsCounts(s, a, count);
  }

  /** The next slot is the head of the free list. When it was the last one, a page of free slots is added. */
  lemma TakesSlot(s: State, count: nat)
    requires Inv(s) && Enabled(s, GetSlot) && count > 0
    ensures var s' := Next(s, GetSlot, count);
            var last := forall j :: 0 <= j < |s.slots| && s.slots[j].Free? ==> j == s.head;
            && s'.slots[s.head] == Taken && s'.head != s.head
            && |s'.slots| == |s.slots| + (if last then count else 0)
            && (forall j :: 0 <= j < |s.slots| && j != s.head ==> s'.slots[j] == s.slots[j])
            && (forall j :: |s.slots| <= j < |s'.slots| ==> s'.slots[j].Free?)
  {
    hide Totals, ItemsCounted;
    HandedOut(s, count);
    PageFree(|s.slots|, count);
    var list :| FreeList(s.slots, s.head, list);
    assert Linked(s.slots, list, 0);
    if |list| > 1 {
      assert Linked(s.slots, list, 1) && list[1] != list[0];
    } else {
      assert forall j :: j in list ==> j == list[0];
    }
  }

  /** A slot that is freed is the next one to be handed out, and the list is as before then. */
  lemma ReusesSlot(s: State, i: nat, count: nat)
    requires Inv(s) && Enabled(s, FreeSlot(i)) && count > 0
    requires Enabled(Next(s, FreeSlot(i), count), GetSlot)
    ensures var s' := Next(Next(s, FreeSlot(i), count), GetSlot, count);
            s'.slots == s.slots[i := Taken] && s'.head == s.head
  {
    hide Inv, Outlived, Lendable;
  }

  /** The slab's references: those that exist and those whose decrement is pending. A dropped
      external handle leaves its decrement pending once its item is dealt with. */
  lemma MovesRefs(s: State, a: Action, count: nat)
    requires Inv(s) && Enabled(s, a) && count > 0
    ensures var s' := Next(s, a, count);
            var pending := a.DropRef? || (a.DropExt? && Handles(s.slots[a.i]) > 1)
                           || (a.FreeSlot? && s.slots[a.i] == Uncounted(true));
            && s'.refs == s.refs + (if a.CloneRef? then 1 else if a.DropRef? then -1 else 0)
            && s'.releasing == s.releasing + (if pending then 1 else if a.Release? then -1 else 0)
            && s'.added == s.added + (if a.WriteItem? then 1 else 0)
            && s'.dropped == s.dropped
                             + (if (a.DropInt? || a.DropExt?) && Handles(s.slots[a.i]) == 1 then 1 else 0)
  {
    hide HasFreeList, Totals, Outlived, Lendable;
    if OnSlot(a) {
      CountAt(s.slots, a.i);
    }
  }

  /** In every run: a slot is only handed out when it is free, and another free slot is left;
      the item counter is the number of items between being added and being removed; every
      added item is stored or has been dropped; and no step is taken on a freed slab. */
  lemma RunSafe(states: seq<State>, actions: seq<Action>, count: nat, k: nat)
    requires Run(states, actions, count) && k < |actions|
    ensures var s, s' := states[k], states[k + 1];
            && !s.freed && s.head < |s.slots| && s.slots[s.head].Free?
            && s'.head < |s'.slots| && s'.slots[s'.head].Free?
            && (actions[k].GetSlot? ==> s'.slots[s.head].Taken? && s'.head != s.head)
            && s'.items == Items(s'.slots) && s'.added == s'.dropped + Stored(s'.slots)
            && (s'.freed ==> s'.refs == 0 && s'.items == 0 && forall i :: 0 <= i < |s'.slots| ==> s'.slots[i].Free?)
  {
    hide Next, Items, Stored, ExtHandles, ExtDrops, Borrows, ItemsCounted;
    var s, s', a := states[k], states[k + 1], actions[k];
    RunInv(states, actions, count, k);
    RunInv(states, actions, count, k + 1);
    EnabledNotFreed(s, a);
    if s'.freed {
      FreedUnused(s');
    }
    HeadFree(s);
    HeadFree(s');
    if a.GetSlot? {
      HandedOut(s, count);
    }
  }

  lemma HeadFree(s: State)
    requires HasFreeList(s)
    ensures s.head < |s.slots| && s.slots[s.head].Free?
  {
    var list :| FreeList(s.slots, s.head, list);
    assert Linked(s.slots, list, 0);
  }

  lemma HandedOut(s: State, count: nat)
    requires Inv(s) && Enabled(s, GetSlot) && count > 0
    ensures var s' := Next(s, GetSlot, count); s'.slots[s.head].Taken? && s'.head != s.head
  {
    hide Totals, ItemsCounted;
    var list :| FreeList(s.slots, s.head, list);
    assert Linked(s.slots, list, 0);
    if |list| > 1 {
      assert list[1] != list[0];
    }
  }

  // --- Addresses -------------------------------------------------------------

  /** The page of an address: pages are aligned to their size, a power of two. */
  function PageOf(address: nat, pageSize: nat): nat
    requires pageSize > 0
  {
    address - address % pageSize
  }

  /** The number of slots that follow the page's header. */
  function SlotCount(pageSize: nat, header: nat, slotSize: nat): nat
    requires slotSize > 0 && header <= pageSize
  {
    (pageSize - header) / slotSize
  }

  /** A page has a slot; its slots lie within the page, there is no room for another one, and their
      addresses lead back to it. */
  lemma SlotAddresses(page: nat, pageSize: nat, header: nat, slotSize: nat, k: nat)
    requires slotSize > 0 && header + slotSize <= pageSize && page % pageSize == 0
    requires k < SlotCount(pageSize, header, slotSize)
    ensures SlotCount(pageSize, header, slotSize) > 0
    ensures header + (SlotCount(pageSize, header, slotSize) + 1) * slotSize > pageSize
    ensures var a := page + header + k * slotSize;
            a + slotSize <= page + pageSize && PageOf(a, pageSize) == page
  {
    var n := SlotCount(pageSize, header, slotSize);
    assert k * slotSize + slotSize == (k + 1) * slotSize <= n * slotSize <= pageSize - header by {
      MulMono(k + 1, n, slotSize);
    }
    ModOffset(page, header + k * slotSize, pageSize);
  }

  lemma MulMono(a: nat, b: nat, c: nat)
    requires a <= b
    ensures a * c <= b * c
  {
  }

  lemma ModOffset(page: nat, offset: nat, size: nat)
    requires offset < size && page % size == 0
    ensures (page + offset) % size == offset
  {
    SameQuotient(page / size, offset, (page + offset) / size, (page + offset) % size, size);
  }

  lemma SameQuotient(q: nat, r: nat, q': nat, r': nat, size: nat)
    requires q * size + r == q' * size + r' && r < size && r' < size
    ensures r == r'
  {
    if q < q' {
      MulMono(q + 1, q', size);
    } else if q' < q {
      MulMono(q' + 1, q, size);
    }
  }
}
