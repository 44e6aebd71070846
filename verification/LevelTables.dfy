/** The unique tables as linear-probing tables of node ids: which nodes a table holds, which
    of them a lookup finds, and what insertion, rebuilding and sweeping do to both. */
module LevelTables {
  import opened Diagrams
  import opened Probing

  type Table = seq<Slot<NodeId>>

  predicate HoldsAt(d: Table, p: nat, i: NodeId) {
    p < |d| && d[p].Full? && d[p].value == i
  }

  predicate OncePerNode(d: Table) {
    forall p, q :: 0 <= p < q < |d| && d[p].Full? && d[q].Full? ==> d[p].value != d[q].value
  }

  /** The table holds every node of level `l`, once and under its hash. */
  ghost predicate Covers(d: Table, s: Store, hash: Node -> nat, l: Level) {
    && OncePerNode(d)
    && (forall i :: i in s && s[i].level == l ==> exists p :: HoldsAt(d, p, i))
    && (forall p :: 0 <= p < |d| && d[p].Full? && KeptIn(s, l, d[p].value) ==> d[p].hash == hash(s[d[p].value]))
  }

  /** The table holds the nodes of level `l` and nothing else. */
  ghost predicate Lists(d: Table, s: Store, hash: Node -> nat, l: Level) {
    Covers(d, s, hash, l) && forall p :: 0 <= p < |d| && d[p].Full? ==> KeptIn(s, l, d[p].value)
  }

  predicate KeptIn(s: Store, l: Level, i: NodeId) {
    i in s && s[i].level == l
  }

  /** The predicate with which a level is swept, once its dead nodes have been freed. */
  function Keeper(s: Store, l: Level): NodeId -> bool {
    (i: NodeId) => KeptIn(s, l, i)
  }

  /** A lookup for the node `i` finds it. */
  ghost predicate Exposes(d: Table, i: NodeId) {
    exists p :: HoldsAt(d, p, i) && Visible(d, p)
  }

  /** A lookup for `n` finds nothing. */
  ghost predicate Misses(d: Table, s: Store, n: Node) {
    forall i :: i in s && s[i] == n ==> !Exposes(d, i)
  }

  /** The same entries in a table that finds all of them. */
  ghost predicate Rebuilt(d: Table, d': Table) {
    Findable(d') && Bag(d') == Bag(d)
  }

  /** Before a lookup that may insert, the table is rebuilt unless it has room. */
  ghost predicate Prepared(d: Table, d': Table) {
    (d' == d && FreeCount(d) > |d| / 4) || Rebuilt(d, d')
  }

  ghost predicate Insertable(d: Table, status: nat, p: nat) {
    p < |d| && !d[p].Full? && Unbroken(d, status % |d|, p)
  }

  /** The sweep leaves so few entries that the table is rebuilt. */
  ghost predicate Shrinks(d: Table, s: Store, l: Level) {
    |Bag(d)| > 0 && |Bag(Retained(d, Keeper(s, l)))| < |d| / 4
  }

  /** The sweep cuts an entry off: its node is kept, but a lookup will not find it. */
  ghost predicate SweepCuts(d: Table, s: Store, l: Level) {
    !Shrinks(d, s, l) && !NothingCutOff(d, Keeper(s, l))
  }

  ghost predicate SweptTo(d: Table, s: Store, l: Level, d': Table) {
    var r := Retained(d, Keeper(s, l));
    if Shrinks(d, s, l) then Rebuilt(r, d') else d' == r
  }

  // --- Entries ---------------------------------------------------------------

  lemma FullInBag(d: Table, x: Slot<NodeId>)
    requires x.Full?
    ensures x in Bag(d) <==> exists p :: 0 <= p < |d| && d[p] == x
  {
    assert x in multiset(d) <==> x in d;
  }

  lemma {:induction false} Once(d: Table, x: Slot<NodeId>)
    requires OncePerNode(d) && x.Full?
    ensures multiset(d)[x] <= 1
  {
    if d != [] {
      var n := |d| - 1;
      assert d == d[..n] + [d[n]];
      Once(d[..n], x);
      if d[n] == x {
        assert x !in d[..n];
      }
    }
  }

  lemma Twice(d: Table, p: nat, q: nat)
    requires p < q < |d| && d[p] == d[q]
    ensures multiset(d)[d[p]] >= 2
  {
    assert d == d[..q] + [d[q]] + d[q + 1..];
    assert d[p] in d[..q];
  }

  /** Tables with the same entries hold the same nodes. */
  lemma SameEntries(d: Table, d': Table)
    requires OncePerNode(d) && Bag(d') == Bag(d)
    ensures OncePerNode(d')
    ensures forall x: Slot<NodeId> :: x.Full? ==> (x in d' <==> x in d)
  {
    forall x: Slot<NodeId> | x.Full?
      ensures x in d' <==> x in d
    {
      FullInBag(d, x);
      FullInBag(d', x);
    }
    forall p, q | 0 <= p < q < |d'| && d'[p].Full? && d'[q].Full?
      ensures d'[p].value != d'[q].value
    {
      var x, y := d'[p], d'[q];
      assert x in d && y in d;
      assert x.value == y.value ==> x == y;
      assert Bag(d')[x] == multiset(d')[x] && Bag(d)[x] == multiset(d)[x];
      Once(d, x);
      if x == y {
        Twice(d', p, q);
      }
    }
  }

  lemma RebuiltLists(d: Table, d': Table, s: Store, hash: Node -> nat, l: Level)
    requires Lists(d, s, hash, l) && Rebuilt(d, d')
    ensures Lists(d', s, hash, l)
  {
    SameEntries(d, d');
    forall i | i in s && s[i].level == l
      ensures exists p :: HoldsAt(d', p, i)
    {
      var p: nat :| HoldsAt(d, p, i);
      assert d[p] in d';
      var q :| 0 <= q < |d'| && d'[q] == d[p];
      assert HoldsAt(d', q, i);
    }
    forall p | 0 <= p < |d'| && d'[p].Full?
      ensures KeptIn(s, l, d'[p].value) && d'[p].hash == hash(s[d'[p].value])
    {
      assert d'[p] in d;
    }
  }

  lemma PreparedLists(d: Table, d': Table, s: Store, hash: Node -> nat, l: Level)
    requires Lists(d, s, hash, l) && Prepared(d, d')
    ensures Lists(d', s, hash, l) && (Findable(d) ==> Findable(d'))
  {
    if d' != d {
      RebuiltLists(d, d', s, hash, l);
    }
  }

  // --- Insertion -------------------------------------------------------------

  /** An inserted node is found, and everything that was found still is. */
  lemma InsertLists(d: Table, s: Store, hash: Node -> nat, l: Level, id: NodeId, n: Node, p: nat)
    requires Lists(d, s, hash, l) && id !in s && n.level == l && Insertable(d, hash(n), p)
    ensures Lists(d[p := Full(hash(n), id)], s[id := n], hash, l)
    ensures Findable(d) ==> Findable(d[p := Full(hash(n), id)])
  {
    var d', s' := d[p := Full(hash(n), id)], s[id := n];
    InsertVisible(d, p, Full(hash(n), id));
    assert HoldsAt(d', p, id);
    forall i | i in s' && s'[i].level == l && i != id
      ensures exists q :: HoldsAt(d', q, i)
    {
      var q: nat :| HoldsAt(d, q, i);
      assert HoldsAt(d', q, i);
    }
  }

  /** A table of one node, for a new level. */
  lemma NewLists(d: Table, s: Store, hash: Node -> nat, l: Level, id: NodeId, n: Node)
    requires Bag(d) == multiset{Full(hash(n), id)} && id !in s && n.level == l
    requires forall i :: i in s ==> s[i].level < l
    ensures Lists(d, s[id := n], hash, l)
  {
    var x := Full(hash(n), id);
    var one: Table := [x];
    assert Bag(one) == multiset{x};
    assert OncePerNode(one);
    SameEntries(one, d);
    assert x in one;
    var p :| 0 <= p < |d| && d[p] == x;
    assert HoldsAt(d, p, id);
    assert forall q :: 0 <= q < |d| && d[q].Full? ==> d[q] in one;
  }

  /** Changes of other levels do not matter. */
  lemma OtherLevelInsert(d: Table, s: Store, hash: Node -> nat, l: Level, id: NodeId, n: Node)
    requires id !in s && n.level != l
    ensures Covers(d, s, hash, l) ==> Covers(d, s[id := n], hash, l)
    ensures Lists(d, s, hash, l) ==> Lists(d, s[id := n], hash, l)
  {
  }

  lemma OtherLevelRemove(d: Table, s: Store, hash: Node -> nat, l: Level, id: NodeId)
    requires id in s
    ensures Covers(d, s, hash, l) ==> Covers(d, s - {id}, hash, l)
    ensures Lists(d, s, hash, l) && s[id].level != l ==> Lists(d, s - {id}, hash, l)
  {
  }

  // --- Lookup ----------------------------------------------------------------

  /** If all entries can be found, a lookup misses only nodes that are not stored. */
  lemma FindableMisses(d: Table, s: Store, hash: Node -> nat, n: Node)
    requires Covers(d, s, hash, n.level) && Findable(d) && Misses(d, s, n)
    ensures forall i :: i in s ==> s[i] != n
  {
    forall i | i in s && s[i].level == n.level
      ensures Exposes(d, i)
    {
      var p: nat :| HoldsAt(d, p, i);
      assert Visible(d, p);
    }
  }

  /** A node that cannot be found has a free slot on its probe sequence, where a second
      copy of the node would be inserted. */
  lemma GapBefore(d: Table, s: Store, hash: Node -> nat, i: NodeId) returns (p: nat)
    requires i in s && Lists(d, s, hash, s[i].level) && !Exposes(d, i)
    ensures Insertable(d, hash(s[i]), p) && d[p] == Free
  {
    assert KeptIn(s, s[i].level, i);
    var q: nat :| HoldsAt(d, q, i);
    assert !Visible(d, q);
    var home, n := d[q].hash % |d|, |d|;
    var k := 0;
    while d[Probe(home, k, n)] != Free
      invariant k < Distance(home, q, n) && forall j :: 0 <= j < k ==> d[Probe(home, j, n)] != Free
      decreases n - k
    {
      k := k + 1;
    }
    p := Probe(home, k, n);
    DistanceUnique(home, k, n);
  }

  // --- Sweeping --------------------------------------------------------------

  lemma RetainedCovers(d: Table, s: Store, hash: Node -> nat, l: Level)
    requires Covers(d, s, hash, l)
    ensures Lists(Retained(d, Keeper(s, l)), s, hash, l)
  {
    var keep := Keeper(s, l);
    var r := Retained(d, keep);
    assert forall p :: 0 <= p < |d| ==> (r[p].Full? <==> Kept(d[p], keep)) && (r[p].Full? ==> r[p] == d[p]);
    forall i | i in s && s[i].level == l
      ensures exists p :: HoldsAt(r, p, i)
    {
      var p: nat :| HoldsAt(d, p, i);
      assert Kept(d[p], keep);
      assert HoldsAt(r, p, i);
    }
  }

  /** After the sweep the table holds exactly the nodes of the level. It finds all of them,
      provided it did before, exactly if the sweep cuts nothing off. */
  lemma SweepLists(d: Table, s: Store, hash: Node -> nat, l: Level, d': Table)
    requires Covers(d, s, hash, l) && SweptTo(d, s, l, d')
    ensures Lists(d', s, hash, l)
    ensures Findable(d) ==> (Findable(d') <==> !SweepCuts(d, s, l))
  {
    hide Lists, Covers, Findable, Retained, NothingCutOff, Bag;
    var keep := Keeper(s, l);
    RetainedCovers(d, s, hash, l);
    if Shrinks(d, s, l) {
      RebuiltLists(Retained(d, keep), d', s, hash, l);
    } else if Findable(d) {
      RetainedFindable(d, keep);
    }
  }
}
