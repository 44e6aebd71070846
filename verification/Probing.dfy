/** Linear probing on a sequence of slots: what a probe visits, which slots may
    become free, and what stays findable. */
module Probing {

  // --- Powers of two ---------------------------------------------------------

  function Pow2(k: nat): (r: nat)
    ensures r > 0
  {
    if k == 0 then 1 else 2 * Pow2(k - 1)
  }

  ghost predicate IsPow2(n: nat) {
    exists k :: Pow2(k) == n
  }

  lemma AtLeastOnce(m: int, b: nat)
    requires m >= 1
    ensures m * b >= b
  {
    assert m * b == (m - 1) * b + b;
  }

  /** Quotient and remainder are unique. */
  lemma RemainderUnique(a: nat, b: nat, q: nat, r: nat)
    requires r < b && a == q * b + r
    ensures a % b == r
  {
    var q', r' := a / b, a % b;
    assert a == q' * b + r' && r' < b;
    assert (q - q') * b == r' - r;
    if q > q' {
      AtLeastOnce(q - q', b);
    } else if q < q' {
      AtLeastOnce(q' - q, b);
    }
  }

  lemma {:induction false} Pow2Multiple(j: nat, k: nat) returns (m: nat)
    requires j <= k
    ensures Pow2(k) == Pow2(j) * m
  {
    if j == k {
      m := 1;
    } else {
      var i := Pow2Multiple(j, k - 1);
      m := 2 * i;
      assert Pow2(j) * m == 2 * (Pow2(j) * i);
    }
  }

  lemma {:induction false} Pow2Monotone(j: nat, k: nat)
    requires Pow2(j) <= Pow2(k)
    ensures j <= k
  {
    if 0 < k < j {
      Pow2Monotone(j - 1, k - 1);
    }
  }

  /** A table no larger than the number of status hashes finds the same home slot
      from the stored status as from the full hash. */
  lemma HomeFromStatus(hash: nat, hashes: nat, n: nat)
    requires IsPow2(hashes) && IsPow2(n) && n <= hashes
    ensures hash % hashes % n == hash % n
  {
    var k :| Pow2(k) == hashes;
    var j :| Pow2(j) == n;
    Pow2Monotone(j, k);
    var m := Pow2Multiple(j, k);
    FlattenQuotients(hash, hashes, n, m);
  }

  lemma FlattenQuotients(hash: nat, hashes: nat, n: nat, m: nat)
    requires n > 0 && hashes > 0 && hashes == n * m
    ensures hash % hashes % n == hash % n
  {
    var q, r := hash / hashes, hash % hashes;
    Reassociate(q, n, m);
    Distribute(q * m, r / n, n);
    RemainderUnique(hash, n, q * m + r / n, r % n);
  }

  lemma Reassociate(q: nat, n: nat, m: nat)
    ensures q * (n * m) == (q * m) * n
  {
  }

  lemma Distribute(x: nat, y: nat, n: nat)
    ensures (x + y) * n == x * n + y * n
  {
  }

  // --- Slots and probe sequences ---------------------------------------------

  datatype Slot<T> = Free | Tombstone | Full(hash: nat, value: T)

  /** The slot visited after `k` steps from slot `home`. */
  function Probe(home: nat, k: nat, n: nat): (i: nat)
    requires home < n && k < n
    ensures i < n
  {
    if home + k < n then home + k else home + k - n
  }

  /** The number of steps from slot `home` to slot `i`. */
  function Distance(home: nat, i: nat, n: nat): (k: nat)
    requires home < n && i < n
    ensures k < n && Probe(home, k, n) == i
  {
    if home <= i then i - home else i - home + n
  }

  lemma DistanceUnique(home: nat, k: nat, n: nat)
    requires home < n && k < n
    ensures Distance(home, Probe(home, k, n), n) == k
  {
  }

  lemma NextProbe(home: nat, i: nat, n: nat)
    requires home < n && i < n && Distance(home, i, n) + 1 < n
    ensures Probe(home, Distance(home, i, n) + 1, n) == if i + 1 < n then i + 1 else 0
  {
  }

  /** No free slot lies on the way from slot `home` to slot `i`. */
  ghost predicate Unbroken<T>(d: seq<Slot<T>>, home: nat, i: nat)
    requires home < |d| && i < |d|
  {
    forall k :: 0 <= k < Distance(home, i, |d|) ==> d[Probe(home, k, |d|)] != Free
  }

  /** Slot `i` holds an entry that can be reached from its home slot without meeting a
      free slot. Lookups find such entries only. */
  ghost predicate Visible<T>(d: seq<Slot<T>>, i: nat) {
    i < |d| && d[i].Full? && Unbroken(d, d[i].hash % |d|, i)
  }

  /** Every entry can be found. */
  ghost predicate Findable<T>(d: seq<Slot<T>>) {
    forall i :: 0 <= i < |d| && d[i].Full? ==> Visible(d, i)
  }

  /** The entries of a table. */
  ghost function Bag<T>(d: seq<Slot<T>>): multiset<Slot<T>> {
    multiset(d)[Free := 0][Tombstone := 0]
  }

  ghost function FreeCount<T>(d: seq<Slot<T>>): nat {
    multiset(d)[Free]
  }

  lemma BagSize<T>(d: seq<Slot<T>>)
    ensures |Bag(d)| + FreeCount(d) + multiset(d)[Tombstone] == |d|
  {
  }

  lemma BagUpdate<T>(d: seq<Slot<T>>, i: nat, x: Slot<T>)
    requires i < |d|
    ensures multiset(d[i := x]) == multiset(d) - multiset{d[i]} + multiset{x}
    ensures FreeCount(d[i := x]) == FreeCount(d) - (if d[i] == Free then 1 else 0) + if x == Free then 1 else 0
  {
    assert d[i] in multiset(d);
  }

  lemma {:induction false} AllFree<T>(d: seq<Slot<T>>)
    requires forall i :: 0 <= i < |d| ==> d[i] == Free
    ensures Bag(d) == multiset{} && FreeCount(d) == |d|
  {
    if d != [] {
      AllFree(d[..|d| - 1]);
      assert d == d[..|d| - 1] + [Free];
      assert multiset(d) == multiset(d[..|d| - 1]) + multiset{Free};
    }
  }

  lemma FreeSlotExists<T>(d: seq<Slot<T>>) returns (f: nat)
    requires FreeCount(d) > 0
    ensures f < |d| && d[f] == Free
  {
    assert Free in multiset(d);
    f :| 0 <= f < |d| && d[f] == Free;
  }

  /** Filling a slot that a probe from `home` reaches keeps everything visible. */
  lemma InsertVisible<T>(d: seq<Slot<T>>, i: nat, x: Slot<T>)
    requires i < |d| && !d[i].Full? && x.Full? && Unbroken(d, x.hash % |d|, i)
    ensures Visible(d[i := x], i) && forall p :: Visible(d, p) ==> Visible(d[i := x], p)
    ensures Findable(d) ==> Findable(d[i := x])
    ensures Bag(d[i := x]) == Bag(d) + multiset{x}
  {
    BagUpdate(d, i, x);
  }

  /** A removed slot may become free when the next slot is free, and may always
      become a tombstone. */
  lemma RemoveVisible<T>(d: seq<Slot<T>>, i: nat, x: Slot<T>)
    requires i < |d| && d[i].Full? && !x.Full?
    requires x == Free ==> d[if i + 1 < |d| then i + 1 else 0] == Free
    ensures forall p :: p != i && Visible(d, p) ==> Visible(d[i := x], p)
    ensures Findable(d) ==> Findable(d[i := x])
    ensures Bag(d[i := x]) == Bag(d) - multiset{d[i]}
  {
    var n, d' := |d|, d[i := x];
    forall p: nat | p != i && Visible(d, p)
      ensures Visible(d', p)
    {
      var home := d[p].hash % n;
      if Distance(home, i, n) + 1 < n {
        NextProbe(home, i, n);
      }
    }
    BagRemove(d, i, x);
  }

  lemma BagRemove<T>(d: seq<Slot<T>>, i: nat, x: Slot<T>)
    requires i < |d| && d[i].Full? && !x.Full?
    ensures Bag(d[i := x]) == Bag(d) - multiset{d[i]}
  {
    BagUpdate(d, i, x);
  }

  // --- Retaining some of the entries -----------------------------------------

  predicate Kept<T>(x: Slot<T>, keep: T -> bool) {
    x.Full? && keep(x.value)
  }

  /** Once a free slot has been seen, the sweep (which runs from the last slot to
      the first) takes every later slot for one followed by a free slot. */
  predicate FreeAbove<T>(d: seq<Slot<T>>, q: nat)
    requires q < |d|
  {
    d[0] == Free || exists j :: q < j < |d| && d[j] == Free
  }

  /** The sweep stops after the lowest entry. */
  predicate Reached<T>(d: seq<Slot<T>>, q: nat)
    requires q < |d|
  {
    exists j :: 0 <= j <= q && d[j].Full?
  }

  /** The sweep turns this slot, which was not free, into a free slot. */
  predicate Freed<T>(d: seq<Slot<T>>, keep: T -> bool, q: nat)
    requires q < |d|
  {
    d[q] != Free && !Kept(d[q], keep) && Reached(d, q) && FreeAbove(d, q)
  }

  function RetainedSlot<T>(d: seq<Slot<T>>, keep: T -> bool, q: nat): Slot<T>
    requires q < |d|
  {
    if d[q] == Free || Freed(d, keep, q) then Free
    else if Kept(d[q], keep) then d[q]
    else Tombstone
  }

  function Retained<T>(d: seq<Slot<T>>, keep: T -> bool): (r: seq<Slot<T>>)
    ensures |r| == |d|
  {
    seq(|d|, q requires 0 <= q < |d| => RetainedSlot(d, keep, q))
  }

  /** The probe sequence of the entry in slot `p` crosses a slot that the sweep frees. */
  ghost predicate CutOff<T>(d: seq<Slot<T>>, keep: T -> bool, p: nat)
    requires p < |d| && d[p].Full?
  {
    var home := d[p].hash % |d|;
    exists k :: 0 <= k < Distance(home, p, |d|) && Freed(d, keep, Probe(home, k, |d|))
  }

  ghost predicate NothingCutOff<T>(d: seq<Slot<T>>, keep: T -> bool) {
    forall p :: 0 <= p < |d| && Kept(d[p], keep) ==> !CutOff(d, keep, p)
  }

  /** The sweep keeps a kept entry visible exactly if it does not cut it off. */
  lemma RetainedVisible<T>(d: seq<Slot<T>>, keep: T -> bool, p: nat)
    requires p < |d| && Kept(d[p], keep)
    ensures Retained(d, keep)[p] == d[p]
    ensures Visible(Retained(d, keep), p) <==> Visible(d, p) && !CutOff(d, keep, p)
  {
    var n, r, home := |d|, Retained(d, keep), d[p].hash % |d|;
    assert forall q :: 0 <= q < n ==> (r[q] == Free <==> d[q] == Free || Freed(d, keep, q));
    if Visible(r, p) {
      forall k | 0 <= k < Distance(home, p, n)
        ensures d[Probe(home, k, n)] != Free && !Freed(d, keep, Probe(home, k, n))
      {
        assert r[Probe(home, k, n)] != Free;
      }
    }
  }

  /** Retaining leaves every kept entry findable exactly when nothing is cut off. */
  lemma RetainedFindable<T>(d: seq<Slot<T>>, keep: T -> bool)
    requires Findable(d)
    ensures Findable(Retained(d, keep)) <==> NothingCutOff(d, keep)
  {
    hide Visible, CutOff;
    var r := Retained(d, keep);
    forall p | 0 <= p < |d| && Kept(d[p], keep)
      ensures r[p] == d[p] && (Visible(r, p) <==> !CutOff(d, keep, p))
    {
      RetainedVisible(d, keep, p);
    }
    assert forall p :: 0 <= p < |d| ==> (r[p].Full? <==> Kept(d[p], keep));
  }

  /** Entry 1 has been pushed behind entry 0; the other entries sit in their home slots. */
  function CollisionTable(): (d: seq<Slot<int>>)
    ensures |d| == 16
  {
    [Free, Free, Free, Full(3, 0), Full(19, 1), Free, Free, Free,
     Full(8, 2), Full(9, 3), Full(10, 4), Free, Free, Free, Free, Free]
  }

  lemma CollisionTableFindable()
    ensures Findable(CollisionTable())
  {
    var d := CollisionTable();
    forall i | 0 <= i < 16 && d[i].Full?
      ensures Visible(d, i)
    {
      assert i == 4 || d[i].hash == i;
      assert i != 4 ==> Distance(d[i].hash % 16, i, 16) == 0;
      assert i == 4 ==> Distance(3, i, 16) == 1 && Probe(3, 0, 16) == 3;
    }
  }

  /** Removing entry 0 cuts off entry 1, although the table is too full to be shrunk. */
  lemma RetainCutsOff()
    ensures var d, keep := CollisionTable(), (v: int) => v != 0;
            && Findable(d) && !Visible(Retained(d, keep), 4) && Retained(d, keep)[4] == Full(19, 1)
            && Retained(d, keep)[3] == Free && !Findable(Retained(d, keep))
  {
    hide Findable, Visible, Retained;
    var d, keep := CollisionTable(), (v: int) => v != 0;
    CollisionTableFindable();
    assert Freed(d, keep, 3) by {
      assert d[3].Full? && d[5] == Free;
    }
    assert CutOff(d, keep, 4) by {
      assert Probe(d[4].hash % 16, 0, 16) == 3 && Distance(3, 4, 16) == 1;
    }
    RetainedVisible(d, keep, 4);
    RetainedFree(d, keep, 3);
    NotFindable(Retained(d, keep), 4);
  }

  lemma RetainedFree<T>(d: seq<Slot<T>>, keep: T -> bool, q: nat)
    requires q < |d| && Freed(d, keep, q)
    ensures Retained(d, keep)[q] == Free
  {
  }

  lemma NotFindable<T>(d: seq<Slot<T>>, p: nat)
    requires p < |d| && d[p].Full? && !Visible(d, p)
    ensures !Findable(d)
  {
  }
}
