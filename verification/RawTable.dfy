/** The open-addressing hash table: linear probing with tombstones. */
module RawTables {
  import opened Options
  import opened Collections
  import opened Probing

  lemma {:induction false} NextPow2IsPow2(x: nat, p: nat)
    requires p > 0 && IsPow2(p)
    ensures IsPow2(NextPow2(x, p))
    decreases if p < x then x - p else 0
  {
    if p < x {
      var k: nat :| Pow2(k) == p;
      assert Pow2(k + 1) == 2 * p;
      NextPow2IsPow2(x, 2 * p);
    }
  }

  /** The number of slots for `requested` entries plus a quarter of spare slots. */
  function NextCapacity(requested: nat): nat {
    if requested == 0 then 0
    else
      var c := NextPow2(requested * 4 / 3, 1);
      if c < 16 then 16 else c
  }

  lemma MultipleOfFour(c: nat)
    requires IsPow2(c) && c >= 16
    ensures c % 4 == 0
  {
    var k: nat :| Pow2(k) == c;
    assert k >= 2 && Pow2(k) == 2 * Pow2(k - 1) == 4 * Pow2(k - 2);
  }

  /** The chosen capacity leaves at least a quarter of the slots spare, and no smaller power of two
      from 16 does. */
  lemma CapacityEnough(requested: nat)
    ensures var c := NextCapacity(requested);
            c / 4 * 3 >= requested && c % 4 == 0 && (c == 0 <==> requested == 0) && (c > 0 ==> c >= 16 && IsPow2(c))
            && (c > 16 ==> c / 2 / 4 * 3 < requested)
  {
    if requested > 0 {
      assert Pow2(0) == 1 && Pow2(1) == 2 && Pow2(2) == 4 && Pow2(3) == 8 && Pow2(4) == 16;
      var x := requested * 4 / 3;
      NextPow2IsPow2(x, 1);
      MultipleOfFour(NextCapacity(requested));
    }
  }

  /** The representation invariant of a table with the slots `d`. */
  ghost predicate WellFormed<T>(d: seq<Slot<T>>, len: nat, free: nat, hashes: nat) {
    && IsPow2(hashes)
    && (|d| == 0 || (IsPow2(|d|) && 16 <= |d| <= hashes && |d| % 4 == 0))
    && len == |Bag(d)|
    && |d| / 4 <= free <= FreeCount(d)
    && (forall i :: 0 <= i < |d| && d[i].Full? ==> d[i].hash < hashes)
  }

  /** An entry with the given status hash that satisfies `eq`. */
  predicate Matches<T>(x: Slot<T>, status: nat, eq: T -> bool) {
    x.Full? && x.hash == status && eq(x.value)
  }

  /** The outcome of a probe that meets a free slot: no visible entry matches. */
  lemma NoneBeyondFree<T>(d: seq<Slot<T>>, status: nat, home: nat, k: nat, eq: T -> bool)
    requires home < |d| && k < |d| && home == status % |d| && d[Probe(home, k, |d|)] == Free
    requires forall j :: 0 <= j < k ==> !Matches(d[Probe(home, j, |d|)], status, eq)
    ensures NoMatch(d, status, eq)
  {
    forall i: nat | Visible(d, i) && d[i].hash == status
      ensures !eq(d[i].value)
    {
      var j := Distance(home, i, |d|);
      assert d[Probe(home, j, |d|)] == d[i];
    }
  }

  /** No visible entry matches. */
  ghost predicate NoMatch<T>(d: seq<Slot<T>>, status: nat, eq: T -> bool) {
    forall i: nat :: Visible(d, i) ==> !Matches(d[i], status, eq)
  }

  /** If all entries are visible, a lookup decides whether an entry matches. */
  lemma NoMatchAtAll<T>(d: seq<Slot<T>>, status: nat, eq: T -> bool)
    requires Findable(d) && NoMatch(d, status, eq)
    ensures forall i :: 0 <= i < |d| ==> !Matches(d[i], status, eq)
  {
    forall i | 0 <= i < |d|
      ensures !Matches(d[i], status, eq)
    {
      assert d[i].Full? ==> Visible(d, i);
    }
  }

  class RawTable<T(==)> {
    /** The number of status hashes (2^31 or 2^63). */
    const hashes: nat
    var data: array<Slot<T>>
    var len: nat
    var free: nat

    ghost predicate Valid()
      reads this, data
    {
      WellFormed(data[..], len, free, hashes)
    }

    /** Every entry can be found. Only `Retain` may lose this, see there. */
    ghost predicate Intact()
      reads this, data
    {
      Findable(data[..])
    }

    /** The entries of the table, each with its status hash. */
    ghost function Contents(): multiset<Slot<T>>
      reads this, data
    {
      Bag(data[..])
    }

    function Status(hash: nat): nat
      requires hashes > 0
    {
      hash % hashes
    }

    constructor WithCapacity(capacity: nat, hashes: nat)
      requires IsPow2(hashes) && NextCapacity(capacity) <= hashes
      ensures Valid() && Intact() && fresh(data) && Contents() == multiset{} && this.hashes == hashes
      ensures free >= capacity + data.Length / 4
    {
      CapacityEnough(capacity);
      var n := NextCapacity(capacity);
      this.hashes := hashes;
      data := new Slot<T>[n](_ => Free);
      len, free := 0, n;
      new;
      AllFree(data[..]);
    }

    /** The index of a visible entry with this hash that satisfies `eq`, if there is one. */
    method Find(hash: nat, eq: T -> bool) returns (r: Option<nat>)
      requires Valid()
      ensures hashes > 0
      ensures r.Some? ==> Visible(data[..], r.value) && Matches(data[r.value], Status(hash), eq)
      ensures r.None? ==> NoMatch(data[..], Status(hash), eq)
      ensures r.None? && Intact() ==> forall i :: 0 <= i < data.Length ==> !Matches(data[i], Status(hash), eq)
    {
      hide Visible, Findable, Unbroken, NoMatch, Bag, FreeCount;
      if len == 0 {
        EmptyBag(data[..]);
        NoEntryMatches(data[..], hash % hashes, eq);
        return None;
      }
      BagSize(data[..]);
      var n := data.Length;
      var index := hash % n;
      var status := hash % hashes;
      HomeFromStatus(hash, hashes, n);
      ghost var f := FreeSlotExists(data[..]);
      ghost var home, k := index, 0;
      while true
        invariant k <= Distance(home, f, n) && index == Probe(home, k, n)
        invariant forall j :: 0 <= j < k ==> data[Probe(home, j, n)] != Free
        invariant forall j :: 0 <= j < k ==> !Matches(data[Probe(home, j, n)], status, eq)
        decreases n - k
      {
        if data[index].Full? && data[index].hash == status {
          if eq(data[index].value) {
            DistanceUnique(home, k, n);
            ReachedVisible(data[..], home, index);
            return Some(index);
          }
        } else if data[index] == Free {
          NoneBeyondFree(data[..], status, home, k, eq);
          Decided(data[..], status, eq);
          return None;
        }
        assert k != Distance(home, f, n);
        index := if index + 1 == n then 0 else index + 1;
        k := k + 1;
      }
    }

    static lemma ReachedVisible(d: seq<Slot<T>>, home: nat, i: nat)
      requires home < |d| && i < |d| && d[i].Full? && home == d[i].hash % |d|
      requires forall k :: 0 <= k < Distance(home, i, |d|) ==> d[Probe(home, k, |d|)] != Free
      ensures Visible(d, i)
    {
    }

    static lemma NoEntryMatches(d: seq<Slot<T>>, status: nat, eq: T -> bool)
      requires forall i :: 0 <= i < |d| ==> !d[i].Full?
      ensures NoMatch(d, status, eq)
    {
    }

    static lemma Decided(d: seq<Slot<T>>, status: nat, eq: T -> bool)
      requires NoMatch(d, status, eq)
      ensures Findable(d) ==> forall i :: 0 <= i < |d| ==> !Matches(d[i], status, eq)
    {
      if Findable(d) {
        NoMatchAtAll(d, status, eq);
      }
    }

    static lemma EmptyBag(d: seq<Slot<T>>)
      requires |Bag(d)| == 0
      ensures forall i :: 0 <= i < |d| ==> !d[i].Full?
    {
      forall i | 0 <= i < |d|
        ensures !d[i].Full?
      {
        if d[i].Full? {
          FullInBag(d, i);
        }
      }
    }

    static lemma FullInBag(d: seq<Slot<T>>, i: nat)
      requires i < |d| && d[i].Full?
      ensures d[i] in Bag(d)
    {
      assert d[i] in multiset(d);
    }

    // --- Growing -------------------------------------------------------------

    /** Probe for the first free slot. */
    static method ProbeFree(d: array<Slot<T>>, home: nat) returns (index: nat)
      requires home < d.Length && FreeCount(d[..]) > 0
      ensures index < d.Length && d[index] == Free && Unbroken(d[..], home, index)
    {
      var n := d.Length;
      ghost var f := FreeSlotExists(d[..]);
      ghost var k := 0;
      index := home;
      while d[index] != Free
        invariant k <= Distance(home, f, n) && index == Probe(home, k, n)
        invariant forall j :: 0 <= j < k ==> d[Probe(home, j, n)] != Free
        decreases n - k
      {
        index := if index + 1 == n then 0 else index + 1;
        k := k + 1;
      }
    }

    /** Put an entry into the first free slot. */
    static method InsertFree(d: array<Slot<T>>, x: Slot<T>)
      requires d.Length > 0 && FreeCount(d[..]) > 0 && Findable(d[..]) && x.Full?
      modifies d
      ensures Findable(d[..]) && Bag(d[..]) == old(Bag(d[..])) + multiset{x}
      ensures FreeCount(d[..]) == old(FreeCount(d[..])) - 1
      ensures forall i :: 0 <= i < d.Length ==> d[i] == x || d[i] == old(d[i])
    {
      var index := ProbeFree(d, x.hash % d.Length);
      InsertVisible(d[..], index, x);
      BagUpdate(d[..], index, x);
      d[index] := x;
      assert d[..] == old(d[..])[index := x];
    }

    /** Move all entries into a new table with room for `additional` more. The mask
        `slots - 1` of the new table wraps around exactly if there is nothing to store. */
    method ReserveRehash(additional: nat) returns (wraps: bool)
      requires IsPow2(hashes) && len == |Bag(data[..])| && NextCapacity(len + additional) <= hashes
      requires forall i :: 0 <= i < data.Length && data[i].Full? ==> data[i].hash < hashes
      modifies this`data, this`free
      ensures Valid() && Intact() && fresh(data) && Contents() == old(Contents())
      ensures wraps <==> len + additional == 0
      ensures data.Length == NextCapacity(len + additional) && free == data.Length - len
      ensures free >= additional + data.Length / 4
    {
      hide Findable, Bag, FreeCount, NextCapacity, IsPow2, Unbroken;
      CapacityEnough(len + additional);
      var cap := NextCapacity(len + additional);
      wraps := cap - 1 < 0;
      var target := new Slot<T>[cap](_ => Free);
      AllFree(target[..]);
      FreeFindable(target[..]);
      ghost var s := data[..];
      NoEntries(s);
      for p := 0 to data.Length
        invariant data[..] == s && Findable(target[..])
        invariant Bag(target[..]) == Bag(s[..p])
        invariant FreeCount(target[..]) + |Bag(s[..p])| == cap
        invariant forall i :: 0 <= i < cap && target[i].Full? ==> target[i].hash < hashes
      {
        BagAppend(s, p);
        PrefixBag(s, p + 1);
        if data[p].Full? {
          InsertFree(target, data[p]);
        }
      }
      assert s[..|s|] == s;
      data := target;
      free := cap - len;
    }

    static lemma FreeFindable(d: seq<Slot<T>>)
      requires forall i :: 0 <= i < |d| ==> d[i] == Free
      ensures Findable(d)
    {
    }

    static lemma NoEntries(d: seq<Slot<T>>)
      ensures Bag(d[..0]) == multiset{}
    {
    }

    static lemma BagAppend(d: seq<Slot<T>>, p: nat)
      requires p < |d|
      ensures Bag(d[..p + 1]) == Bag(d[..p]) + if d[p].Full? then multiset{d[p]} else multiset{}
      ensures |Bag(d[..p + 1])| == |Bag(d[..p])| + if d[p].Full? then 1 else 0
    {
      assert d[..p + 1] == d[..p] + [d[p]];
    }

    static lemma {:induction false} PrefixBag(d: seq<Slot<T>>, p: nat)
      requires p <= |d|
      ensures |Bag(d[..p])| <= |Bag(d)|
      decreases |d| - p
    {
      if p < |d| {
        PrefixBag(d, p + 1);
        BagAppend(d, p);
      } else {
        assert d[..p] == d;
      }
    }

    /** Make room for `additional` insertions. */
    method Reserve(additional: nat)
      requires Valid()
      requires free >= additional + data.Length / 4 || NextCapacity(len + additional) <= hashes
      modifies this`data, this`free
      ensures Valid() && Contents() == old(Contents()) && (old(Intact()) ==> Intact())
      ensures data == old(data) || (fresh(data) && Intact())
      ensures free >= additional + data.Length / 4
      ensures old(free >= additional + data.Length / 4) ==> data == old(data) && free == old(free)
    {
      if free < additional + data.Length / 4 {
        var wraps := ReserveRehash(additional);
        assert !wraps;
      }
    }

    // --- Insertion and removal -----------------------------------------------

    /** A slot where an entry with this status may be stored. */
    ghost predicate Insertable(status: nat, slot: nat)
      reads this, data
    {
      && slot < data.Length && !data[slot].Full?
      && Unbroken(data[..], status % data.Length, slot)
    }

    /** A matching entry, or else a slot to insert one. */
    method FindOrFindInsertSlot(hash: nat, eq: T -> bool) returns (found: bool, slot: nat)
      requires Valid()
      requires free > data.Length / 4 || NextCapacity(len + 1) <= hashes
      modifies this`data, this`free
      ensures Valid() && Contents() == old(Contents()) && (old(Intact()) ==> Intact())
      ensures data == old(data) || (fresh(data) && Intact())
      ensures old(free > data.Length / 4) ==> data == old(data) && free == old(free)
      ensures slot < data.Length && free > data.Length / 4 && hashes > 0
      ensures found ==> Visible(data[..], slot) && Matches(data[slot], Status(hash), eq)
      ensures !found ==> Insertable(Status(hash), slot) && NoMatch(data[..], Status(hash), eq)
      ensures !found && Intact() ==> forall i :: 0 <= i < data.Length ==> !Matches(data[i], Status(hash), eq)
    {
      Reserve(1);
      found, slot := ProbeInsert(hash, eq);
    }

    /** The probe loop. Note that the last tombstone met is returned, not the first. */
    method ProbeInsert(hash: nat, eq: T -> bool) returns (found: bool, slot: nat)
      requires Valid() && free > 0
      ensures slot < data.Length && hashes > 0
      ensures found ==> Visible(data[..], slot) && Matches(data[slot], Status(hash), eq)
      ensures !found ==> Insertable(Status(hash), slot) && NoMatch(data[..], Status(hash), eq)
      ensures !found && Intact() ==> forall i :: 0 <= i < data.Length ==> !Matches(data[i], Status(hash), eq)
    {
      hide Visible, Findable;
      BagSize(data[..]);
      var n := data.Length;
      var index := hash % n;
      var status := hash % hashes;
      HomeFromStatus(hash, hashes, n);
      ghost var f := FreeSlotExists(data[..]);
      ghost var home, k := index, 0;
      var tombstone: Option<nat> := None;
      while true
        invariant k <= Distance(home, f, n) && index == Probe(home, k, n)
        invariant forall j :: 0 <= j < k ==> data[Probe(home, j, n)] != Free
        invariant forall j :: 0 <= j < k ==> !Matches(data[Probe(home, j, n)], status, eq)
        invariant tombstone.Some? ==> Insertable(status, tombstone.value)
        decreases n - k
      {
        DistanceUnique(home, k, n);
        assert Unbroken(data[..], home, index);
        if data[index].Full? && data[index].hash == status {
          if eq(data[index].value) {
            ReachedVisible(data[..], home, index);
            return true, index;
          }
        } else if data[index] == Free {
          NoneBeyondFree(data[..], status, home, k, eq);
          Decided(data[..], status, eq);
          return false, if tombstone.Some? then tombstone.value else index;
        } else if data[index] == Tombstone {
          tombstone := Some(index);
        }
        assert k != Distance(home, f, n);
        index := if index + 1 == n then 0 else index + 1;
        k := k + 1;
      }
    }

    method InsertInSlot(hash: nat, slot: nat, val: T)
      requires Valid() && free > data.Length / 4 && hashes > 0 && Insertable(Status(hash), slot)
      modifies this`len, this`free, data
      ensures Valid() && Contents() == old(Contents()) + multiset{Full(Status(hash), val)}
      ensures len == old(len) + 1 && old(free) - 1 <= free <= old(free)
      ensures data[..] == old(data[..])[slot := Full(Status(hash), val)] && Visible(data[..], slot)
      ensures forall i :: Visible(old(data[..]), i) ==> Visible(data[..], i)
      ensures old(Intact()) ==> Intact()
    {
      hide Visible, Findable, Bag, FreeCount;
      var x := Full(hash % hashes, val);
      InsertVisible(data[..], slot, x);
      FilledBag(data[..], slot, x);
      BagUpdate(data[..], slot, x);
      if data[slot] != Tombstone {
        free := free - 1;
      }
      len := len + 1;
      data[slot] := x;
      assert data[..] == old(data[..])[slot := x];
    }

    static lemma FilledBag(d: seq<Slot<T>>, i: nat, x: Slot<T>)
      requires i < |d| && !d[i].Full? && x.Full?
      ensures |Bag(d[i := x])| == |Bag(d)| + 1
      ensures FreeCount(d[i := x]) == FreeCount(d) - if d[i] == Free then 1 else 0
    {
      BagUpdate(d, i, x);
      assert Bag(d[i := x]) == Bag(d) + multiset{x};
    }

    method RemoveAtSlot(slot: nat) returns (val: T)
      requires Valid() && slot < data.Length && data[slot].Full?
      modifies this`len, this`free, data
      ensures Valid() && Contents() == old(Contents()) - multiset{old(data[slot])}
      ensures val == old(data[slot]).value && len == old(len) - 1
      ensures forall i :: i != slot && Visible(old(data[..]), i) ==> Visible(data[..], i)
      ensures old(Intact()) ==> Intact()
    {
      hide Bag, Findable, Visible, FreeCount, IsPow2;
      val := data[slot].value;
      var next := if slot + 1 == data.Length then 0 else slot + 1;
      var x := if data[next] == Free then Free else Tombstone;
      RemoveVisible(data[..], slot, x);
      BagUpdate(data[..], slot, x);
      FullInBag(data[..], slot);
      if x == Free {
        free := free + 1;
      }
      data[slot] := x;
      assert data[..] == old(data[..])[slot := x];
      len := len - 1;
    }

    /** Remove an entry with this hash that satisfies `eq`, if there is one. */
    method RemoveEntry(hash: nat, eq: T -> bool) returns (r: Option<T>)
      requires Valid() && hashes > 0
      modifies this`len, this`free, data
      ensures Valid() && (old(Intact()) ==> Intact())
      ensures r.Some? ==> eq(r.value) && Full(Status(hash), r.value) in old(Contents())
                          && Contents() == old(Contents()) - multiset{Full(Status(hash), r.value)}
      ensures r.None? ==> Contents() == old(Contents()) && NoMatch(data[..], Status(hash), eq)
    {
      hide Findable, Bag, FreeCount;
      var index := Find(hash, eq);
      if index.None? {
        return None;
      }
      FullInBag(data[..], index.value);
      var val := RemoveAtSlot(index.value);
      r := Some(val);
    }

    /** Remove all entries, keeping the slots. The counter `free` is left as it is. */
    method Clear()
      requires Valid()
      modifies this`len, data
      ensures Valid() && Intact() && Contents() == multiset{} && len == 0 && data == old(data) && free == old(free)
    {
      hide Bag, FreeCount;
      var p := 0;
      while len != 0
        invariant p <= data.Length && len == |Bag(data[..])| && free <= FreeCount(data[..])
        invariant forall i :: 0 <= i < p ==> data[i] == Free
        decreases data.Length - p
      {
        BeyondPrefix(data[..], p);
        ghost var before := data[..];
        if data[p] != Free {
          VacateBag(before, p, Free);
        } else {
          assert before[p := Free] == before;
        }
        if data[p].Full? {
          len := len - 1;
        }
        data[p] := Free;
        assert data[..] == before[p := Free];
        p := p + 1;
      }
      EmptyBag(data[..]);
      NoBag(data[..]);
    }

    static lemma BeyondPrefix(d: seq<Slot<T>>, p: nat)
      requires p <= |d| && |Bag(d)| > 0 && forall i :: 0 <= i < p ==> d[i] == Free
      ensures p < |d|
    {
      if p == |d| {
        AllFree(d);
      }
    }

    static lemma NoBag(d: seq<Slot<T>>)
      requires |Bag(d)| == 0
      ensures Bag(d) == multiset{}
    {
    }

    /** The entries for a sequence of hashes and values. */
    ghost function Items(items: seq<(nat, T)>): multiset<Slot<T>>
      requires hashes > 0
    {
      if items == [] then multiset{}
      else Items(items[..|items| - 1]) + multiset{Full(Status(items[|items| - 1].0), items[|items| - 1].1)}
    }

    lemma NoItems()
      requires hashes > 0
      ensures Items([]) == multiset{}
    {
    }

    lemma ItemsStep(items: seq<(nat, T)>, j: nat)
      requires hashes > 0 && j < |items|
      ensures Items(items[..j + 1]) == Items(items[..j]) + multiset{Full(Status(items[j].0), items[j].1)}
    {
      assert items[..j + 1][..j] == items[..j];
    }

    /** The promise of `Reserve`: after reserving room, insertions do not move the table. */
    method InsertReserved(items: seq<(nat, T)>)
      requires Valid() && hashes > 0 && free >= |items| + data.Length / 4
      modifies this, data
      ensures Valid() && data == old(data) && len == old(len) + |items| && (old(Intact()) ==> Intact())
      ensures Contents() == old(Contents()) + Items(items)
    {
      hide WellFormed, Bag, Items, Insertable, Matches, NextCapacity;
      NoItems();
      for j := 0 to |items|
        invariant Valid() && data == old(data) && len == old(len) + j && (old(Intact()) ==> Intact())
        invariant free >= |items| - j + data.Length / 4
        invariant Contents() == old(Contents()) + Items(items[..j])
      {
        var found, slot := FindOrFindInsertSlot(items[j].0, _ => false);
        InsertInSlot(items[j].0, slot, items[j].1);
        ItemsStep(items, j);
      }
      assert items[..|items|] == items;
    }

    // --- Retain --------------------------------------------------------------

    /** The state of the sweep of `Retain` when the slots from `q` on have been visited. */
    ghost predicate Sweeping(d: seq<Slot<T>>, keep: T -> bool, q: nat, lastIsFree: bool, dropped: seq<Slot<T>>)
      reads this, data
    {
      && |d| == data.Length && q <= |d| && |d| > 0
      && (forall j :: 0 <= j < q ==> data[j] == d[j])
      && (forall j :: q <= j < |d| ==> data[j] == RetainedSlot(d, keep, j))
      && (lastIsFree <==> d[0] == Free || exists j :: q <= j < |d| && d[j] == Free)
      && len == |Bag(data[..])| && |d| / 4 <= free <= FreeCount(data[..])
      && multiset(dropped) + Bag(data[..]) == Bag(d)
      && (forall x :: x in dropped ==> x.Full? && !keep(x.value))
    }

    static lemma VacateBag(d: seq<Slot<T>>, q: nat, x: Slot<T>)
      requires q < |d| && d[q] != Free && !x.Full?
      ensures Bag(d[q := x]) + (if d[q].Full? then multiset{d[q]} else multiset{}) == Bag(d)
      ensures |Bag(d[q := x])| + (if d[q].Full? then 1 else 0) == |Bag(d)|
      ensures FreeCount(d[q := x]) == FreeCount(d) + if x == Free then 1 else 0
    {
      BagUpdate(d, q, x);
      if d[q].Full? {
        FullInBag(d, q);
      }
    }

    /** Vacate the slot `q`. */
    method Vacate(q: nat, toFree: bool)
      requires q < data.Length && data[q] != Free && len == |Bag(data[..])| && free <= FreeCount(data[..])
      modifies this`len, this`free, data
      ensures data[..] == old(data[..])[q := if toFree then Free else Tombstone]
      ensures len == |Bag(data[..])| && old(free) <= free <= FreeCount(data[..])
      ensures Bag(data[..]) + (if old(data[q]).Full? then multiset{old(data[q])} else multiset{}) == old(Bag(data[..]))
    {
      hide Bag, FreeCount;
      VacateBag(data[..], q, if toFree then Free else Tombstone);
      if data[q].Full? {
        len := len - 1;
      }
      if toFree {
        free := free + 1;
      }
      data[q] := if toFree then Free else Tombstone;
      assert data[..] == old(data[..])[q := if toFree then Free else Tombstone];
    }

    /** Keep the entries that satisfy `keep` and return the others. Unless the table is
        rebuilt, an entry stays visible exactly if the sweep does not cut it off. The table is
        rebuilt with no slots, and the mask wraps around, exactly if everything is dropped. */
    method Retain(keep: T -> bool) returns (dropped: seq<Slot<T>>, wraps: bool)
      requires Valid()
      modifies this`len, this`free, this`data, data
      ensures Valid() && multiset(dropped) + Contents() == old(Contents()) && len == |Contents()|
      ensures forall x :: x in dropped ==> x.Full? && !keep(x.value)
      ensures forall x :: x in Contents() ==> Kept(x, keep)
      ensures old(len) > 0 && len < old(data.Length) / 4 ==> Intact()
      ensures old(len) == 0 || len >= old(data.Length) / 4 ==> data[..] == Retained(old(data[..]), keep)
      ensures old(Intact()) ==>
                (Intact() <==> len < old(data.Length) / 4 || NothingCutOff(old(data[..]), keep))
      ensures wraps <==> old(len) > 0 && len == 0
    {
      hide Bag, FreeCount, Findable, NothingCutOff, Retained, NextCapacity, Kept, RetainedSlot;
      dropped, wraps := [], false;
      ghost var d := data[..];
      var n := data.Length;
      if len == 0 {
        EmptyBag(d);
        NoBag(d);
        NothingToCut(d, keep);
        Untouched(d, keep);
        return;
      }
      BagSize(d);
      var i := len;
      var lastIsFree := data[0] == Free;
      var q: nat := n;
      assert d[..n] == d;
      while i > 0
        invariant Sweeping(d, keep, q, lastIsFree, dropped) && i == |Bag(d[..q])|
        invariant data == old(data)
        decreases q
      {
        i, q, lastIsFree, dropped := SweepSlot(d, keep, i, q, lastIsFree, dropped);
      }
      SweepDone(d, keep, data[..], q);
      CutsExactly(d, keep);
      RetainedKept(d, keep);
      if len < n / 4 {
        SmallerCapacity(len, n);
        wraps := ReserveRehash(0);
      }
    }

    /** One iteration of the sweep: visit the slot below `q`. */
    method SweepSlot(ghost d: seq<Slot<T>>, keep: T -> bool, i: nat, q: nat, lastIsFree: bool, dropped: seq<Slot<T>>)
      returns (i': nat, q': nat, lastIsFree': bool, dropped': seq<Slot<T>>)
      requires Sweeping(d, keep, q, lastIsFree, dropped) && 0 < i == |Bag(d[..q])|
      modifies this`len, this`free, data
      ensures Sweeping(d, keep, q', lastIsFree', dropped') && i' == |Bag(d[..q'])| && q' < q
    {
      hide Bag, FreeCount;
      LowerEntry(d, q);
      BagAppend(d, q - 1);
      i', q', lastIsFree', dropped' := i, q - 1, lastIsFree, dropped;
      var x := data[q'];
      if x == Free {
        lastIsFree' := true;
      } else if x == Tombstone {
        assert Reached(d, q');
        Vacate(q', lastIsFree);
      } else {
        i' := i - 1;
        assert Reached(d, q');
        if !keep(x.value) {
          Vacate(q', lastIsFree);
          dropped' := dropped + [x];
        }
      }
    }

    static lemma LowerEntry(d: seq<Slot<T>>, q: nat)
      requires q <= |d| && |Bag(d[..q])| > 0
      ensures q > 0 && exists j :: 0 <= j < q && d[j].Full?
    {
      if q == 0 || forall j :: 0 <= j < q ==> !d[j].Full? {
        NoFullNoBag(d[..q]);
      }
    }

    static lemma {:induction false} NoFullNoBag(d: seq<Slot<T>>)
      requires forall j :: 0 <= j < |d| ==> !d[j].Full?
      ensures Bag(d) == multiset{}
    {
      if d != [] {
        NoFullNoBag(d[..|d| - 1]);
        BagAppend(d, |d| - 1);
        assert d[..|d|] == d;
      }
    }

    static lemma SweepDone(d: seq<Slot<T>>, keep: T -> bool, r: seq<Slot<T>>, q: nat)
      requires |r| == |d| && q <= |d| && |Bag(d[..q])| == 0
      requires forall j :: 0 <= j < q ==> r[j] == d[j]
      requires forall j :: q <= j < |d| ==> r[j] == RetainedSlot(d, keep, j)
      ensures r == Retained(d, keep)
    {
      EmptyBag(d[..q]);
      assert forall j :: 0 <= j < q ==> d[..q][j] == d[j] && !d[j].Full?;
    }

    static lemma RetainedKept(d: seq<Slot<T>>, keep: T -> bool)
      ensures forall x :: x in Bag(Retained(d, keep)) ==> Kept(x, keep)
      ensures var r := Retained(d, keep);
              forall j :: 0 <= j < |d| && r[j].Full? ==> r[j] == d[j]
    {
      var r := Retained(d, keep);
      forall x | x in Bag(r)
        ensures Kept(x, keep)
      {
        assert x in multiset(r) && x.Full?;
        var p :| 0 <= p < |r| && r[p] == x;
      }
    }

    static lemma NothingToCut(d: seq<Slot<T>>, keep: T -> bool)
      requires forall i :: 0 <= i < |d| ==> !d[i].Full?
      ensures NothingCutOff(d, keep) && Findable(d)
    {
    }

    /** The sweep of a table without entries changes nothing. */
    static lemma Untouched(d: seq<Slot<T>>, keep: T -> bool)
      requires forall i :: 0 <= i < |d| ==> !d[i].Full?
      ensures Retained(d, keep) == d
    {
    }

    static lemma CutsExactly(d: seq<Slot<T>>, keep: T -> bool)
      ensures Findable(d) ==> (Findable(Retained(d, keep)) <==> NothingCutOff(d, keep))
    {
      if Findable(d) {
        RetainedFindable(d, keep);
      }
    }

    static lemma SmallerCapacity(r: nat, n: nat)
      requires r < n / 4 && n >= 16
      ensures NextCapacity(r + 0) <= n
    {
    }
  }
}
