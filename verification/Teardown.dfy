/** Tearing down an address space: which nodes and tables have been freed so far. */
module Teardown {
  import opened Options
  import opened PageIndex
  import opened PageTable
  import opened MapTree

  /** q lies below one of the first i children of p. */
  predicate InFirst(q: seq<nat>, p: seq<nat>, i: nat) {
    |p| < |q| && p <= q && q[|p|] < i
  }

  predicate Under(spot: map<nat, seq<nat>>, a: nat, p: seq<nat>) {
    a in spot && p <= spot[a]
  }

  predicate Gone(spot: map<nat, seq<nat>>, a: nat, p: seq<nat>, i: nat) {
    a in spot && InFirst(spot[a], p, i)
  }

  lemma InFirstStep(q: seq<nat>, p: seq<nat>, i: nat)
    ensures InFirst(q, p, i + 1) <==> InFirst(q, p, i) || p + [i] <= q
  {
    if p + [i] <= q {
      assert p <= q && q[|p|] == i;
    }
    if |p| < |q| && p <= q && q[|p|] == i {
      assert q[..|p| + 1] == p + [i];
    }
  }

  lemma InFirstAll(q: seq<nat>, p: seq<nat>, n: nat)
    requires forall k | 0 <= k < |q| :: q[k] < n
    ensures p <= q <==> InFirst(q, p, n) || q == p
  {
    if p <= q && |q| == |p| {
      assert q == q[..|p|] == p;
    }
  }

  lemma NotFirst(p: seq<nat>, i: nat)
    ensures !InFirst(p, p, i)
  {
  }

  /** Nothing lies below a place where there is nothing. */
  lemma NotBelow(at: map<seq<nat>, nat>, q: seq<nat>, c: seq<nat>)
    requires c !in at && forall k | 0 <= k <= |q| :: q[..k] in at
    ensures !(c <= q)
  {
    if |c| <= |q| {
      assert q[..|c|] in at;
      assert c <= q <==> c == q[..|c|];
    }
  }

  // ----- the mapping tree -----

  /** Facts about the places of nodes that freeing does not touch. */
  ghost predicate Placed(l: Layout) {
    forall q | q in l.at ::
      && |q| <= LEVELS && l.at[q] in l.spot && l.spot[l.at[q]] == q
      && (forall k | 0 <= k < |q| :: q[k] < SLOTS)
      && (forall k | 0 <= k <= |q| :: q[..k] in l.at)
  }

  ghost predicate NodesPlaced(ns: Nodes, l: Layout) {
    forall a | a in ns :: a in l.spot && l.spot[a] in l.at && l.at[l.spot[a]] == a
  }

  /** The nodes at and below p are all there. */
  ghost predicate Whole(ns: Nodes, l: Layout, p: seq<nat>) {
    forall q | q in l.at && p <= q :: NodeOk(ns, l, q) && LeafOk(ns, l, q)
  }

  /** Of the nodes below p, those under the first i children are gone. */
  ghost predicate Pruned(ns: Nodes, ns0: Nodes, l: Layout, p: seq<nat>, i: nat)
  {
    && p in l.at
    && (forall a :: a in ns <==> a in ns0 && !Gone(l.spot, a, p, i))
    && (forall a | a in ns && a != l.at[p] :: ns[a] == ns0[a])
    && l.at[p] in ns && |ns[l.at[p]].children| == SLOTS && |ns0[l.at[p]].children| == SLOTS
    && forall j: nat | i <= j < SLOTS :: ns[l.at[p]].children[j] == ns0[l.at[p]].children[j]
  }

  /** The nodes at and below p are gone and the others are as they were. */
  ghost predicate SubtreeFreed(ns: Nodes, ns0: Nodes, l: Layout, p: seq<nat>) {
    && (forall a :: a in ns <==> a in ns0 && !Under(l.spot, a, p))
    && (forall a | a in ns :: ns[a] == ns0[a])
  }

  /** The pages of the leaves below the first i children of p are unmapped, and no others. */
  ghost predicate ClearedFirst(ts: Tables, ts0: Tables, s: Shape, l: Layout, p: seq<nat>, i: nat) {
    forall v: nat | IsPage(v) ::
      Found(ts, s, TablePath(v))
      == if BytePath(v) in l.at && InFirst(BytePath(v), p, i) then None else Found(ts0, s, TablePath(v))
  }

  ghost predicate Cleared(ts: Tables, ts0: Tables, s: Shape, l: Layout, p: seq<nat>) {
    forall v: nat | IsPage(v) ::
      Found(ts, s, TablePath(v))
      == if BytePath(v) in l.at && p <= BytePath(v) then None else Found(ts0, s, TablePath(v))
  }

  lemma {:induction false} PlaceOk(ns: Nodes, l: Layout, root: nat, q: seq<nat>)
    requires WellFormed(ns, l, root, {}) && q in l.at
    ensures forall k | 0 <= k < |q| :: q[k] < SLOTS
    ensures forall k | 0 <= k <= |q| :: q[..k] in l.at
    decreases |q|
  {
    hide NodeOk, LeafOk;
    assert NodeOk(ns, l, q);
    if q != [] {
      ParentPlaced(ns, l, q);
      var r := q[..|q| - 1];
      PlaceOk(ns, l, root, r);
      assert forall k | 0 <= k < |r| :: q[k] == r[k];
      assert forall k | 0 <= k <= |r| :: q[..k] == r[..k];
    }
    assert q[..|q|] == q;
  }

  lemma ParentPlaced(ns: Nodes, l: Layout, q: seq<nat>)
    requires NodeOk(ns, l, q) && q != []
    ensures q[..|q| - 1] in l.at && q[|q| - 1] < SLOTS
  {
  }

  lemma PlacesOk(ns: Nodes, l: Layout, root: nat)
    requires WellFormed(ns, l, root, {})
    ensures Placed(l) && NodesPlaced(ns, l) && Whole(ns, l, [])
  {
    hide ChildOk, LeafOk;
    forall q | q in l.at
      ensures |q| <= LEVELS && l.at[q] in l.spot && l.spot[l.at[q]] == q
      ensures forall k | 0 <= k < |q| :: q[k] < SLOTS
      ensures forall k | 0 <= k <= |q| :: q[..k] in l.at
    {
      assert NodeOk(ns, l, q);
      PlaceOk(ns, l, root, q);
    }
  }

  lemma PrunedStart(ns: Nodes, ts: Tables, s: Shape, l: Layout, p: seq<nat>)
    requires Whole(ns, l, p) && p in l.at
    ensures Pruned(ns, ns, l, p, 0) && ClearedFirst(ts, ts, s, l, p, 0)
  {
    hide ChildOk, LeafOk, Found;
    assert NodeOk(ns, l, p);
  }

  lemma PrunedFacts(ns: Nodes, ns0: Nodes, l: Layout, p: seq<nat>, i: nat)
    requires Pruned(ns, ns0, l, p, i) && NodesPlaced(ns0, l)
    ensures l.at[p] in ns && |ns[l.at[p]].children| == SLOTS && NodesPlaced(ns, l)
  {
  }

  /** Unhooking and freeing the leaf at slot i frees what is under it. */
  lemma LeafGone(ns: Nodes, ns2: Nodes, l: Layout, p: seq<nat>, i: nat)
    requires Placed(l) && NodesPlaced(ns, l) && p in l.at && p + [i] in l.at && |p| + 1 == LEVELS
    requires l.at[p] in ns && ns2.Keys == ns.Keys - {l.at[p + [i]]}
    ensures forall a :: a in ns2 <==> a in ns && !Under(l.spot, a, p + [i])
  {
    var c := p + [i];
    forall a | a in ns
      ensures Under(l.spot, a, c) <==> a == l.at[c]
    {
      assert c <= l.spot[a] ==> l.spot[a][..LEVELS] == l.spot[a] == c;
    }
  }

  /** Slot i of the node at p still says what it said. */
  lemma NextChild(ns: Nodes, ns0: Nodes, l: Layout, p: seq<nat>, i: nat)
    requires Pruned(ns, ns0, l, p, i) && Whole(ns0, l, p) && Placed(l) && i < SLOTS && |p| < LEVELS
    ensures ns[l.at[p]].children[i] == if p + [i] in l.at then l.at[p + [i]] else 0
    ensures p + [i] in l.at ==> l.at[p + [i]] != 0 && Whole(ns, l, p + [i]) && l.at[p + [i]] in ns
    ensures p + [i] in l.at ==> l.at[p + [i]] != l.at[p] && LeafOk(ns, l, p + [i])
  {
    hide NodeOk, LeafOk, Gone;
    var c := p + [i];
    NodeSlot(ns0, l, p, i);
    if c in l.at {
      forall q | q in l.at && c <= q
        ensures NodeOk(ns, l, q) && LeafOk(ns, l, q)
      {
        assert p <= c <= q;
        NodeStays(ns, ns0, l, p, i, q);
      }
      NodeHere(ns, l, c);
    }
  }

  lemma NodeHere(ns: Nodes, l: Layout, q: seq<nat>)
    requires NodeOk(ns, l, q) && q != []
    ensures l.at[q] in ns && l.at[q] != 0 && l.spot[l.at[q]] == q
    ensures forall p | p in l.at && l.at[p] in l.spot && l.spot[l.at[p]] == p && p != q :: l.at[q] != l.at[p]
  {
  }

  lemma NodeSlot(ns: Nodes, l: Layout, p: seq<nat>, i: nat)
    requires Whole(ns, l, p) && p in l.at && i < SLOTS && |p| < LEVELS
    ensures l.at[p] in ns && |ns[l.at[p]].children| == SLOTS
    ensures ns[l.at[p]].children[i] == if p + [i] in l.at then l.at[p + [i]] else 0
  {
    hide LeafOk;
    assert NodeOk(ns, l, p) && ChildOk(ns, l, p, i);
  }

  lemma NodeStays(ns: Nodes, ns0: Nodes, l: Layout, p: seq<nat>, i: nat, q: seq<nat>)
    requires Pruned(ns, ns0, l, p, i) && Whole(ns0, l, p) && Placed(l)
    requires q in l.at && p + [i] <= q
    ensures NodeOk(ns, l, q) && LeafOk(ns, l, q)
  {
    assert p <= p + [i] <= q && q[|p|] == (p + [i])[|p|] == i;
    assert NodeOk(ns0, l, q) && LeafOk(ns0, l, q);
    assert !Gone(l.spot, l.at[q], p, i);
    assert l.at[q] != l.at[p];
    assert ns[l.at[q]] == ns0[l.at[q]];
    if |q| < LEVELS {
      forall j: nat | j < SLOTS
        ensures ChildOk(ns, l, q, j)
      {
        assert ChildOk(ns0, l, q, j);
      }
    }
  }

  /** An empty slot has nothing below it. */
  lemma PrunedSkip(ns: Nodes, ns0: Nodes, ts: Tables, ts0: Tables, s: Shape, l: Layout, p: seq<nat>, i: nat)
    requires Pruned(ns, ns0, l, p, i) && Placed(l) && NodesPlaced(ns0, l) && p + [i] !in l.at
    requires ClearedFirst(ts, ts0, s, l, p, i)
    ensures Pruned(ns, ns0, l, p, i + 1) && ClearedFirst(ts, ts0, s, l, p, i + 1)
  {
    hide Found, InFirst, BytePath, TablePath;
    var c := p + [i];
    forall q | q in l.at
      ensures InFirst(q, p, i + 1) <==> InFirst(q, p, i)
    {
      InFirstStep(q, p, i);
      NotBelow(l.at, q, c);
    }
    assert forall a | a in ns0 :: Gone(l.spot, a, p, i + 1) == Gone(l.spot, a, p, i);
  }

  /** Freeing what is at and below child i, one way or the other. */
  lemma PrunedChild(ns: Nodes, ns0: Nodes, ns2: Nodes, l: Layout, p: seq<nat>, i: nat)
    requires Pruned(ns, ns0, l, p, i) && Placed(l) && i < SLOTS
    requires forall a :: a in ns2 <==> a in ns && !Under(l.spot, a, p + [i])
    requires forall a | a in ns2 && a != l.at[p] :: ns2[a] == ns[a]
    requires l.at[p] in ns2 ==> ns2[l.at[p]].children in [ns[l.at[p]].children, ns[l.at[p]].children[i := 0]]
    ensures Pruned(ns2, ns0, l, p, i + 1)
  {
    hide InFirst;
    forall a | a in l.spot
      ensures Gone(l.spot, a, p, i + 1) <==> Gone(l.spot, a, p, i) || Under(l.spot, a, p + [i])
    {
      InFirstStep(l.spot[a], p, i);
    }
    assert !Under(l.spot, l.at[p], p + [i]) by {
      assert l.spot[l.at[p]] == p;
    }
  }

  lemma PrunedSubtree(ns: Nodes, ns0: Nodes, ns2: Nodes, l: Layout, p: seq<nat>, i: nat)
    requires Pruned(ns, ns0, l, p, i) && Placed(l) && i < SLOTS && SubtreeFreed(ns2, ns, l, p + [i])
    ensures Pruned(ns2, ns0, l, p, i + 1)
  {
    hide Gone, Under;
    PrunedChild(ns, ns0, ns2, l, p, i);
  }

  lemma ClearedChild(ts: Tables, ts0: Tables, ts2: Tables, s: Shape, l: Layout, p: seq<nat>, i: nat)
    requires ClearedFirst(ts, ts0, s, l, p, i) && Cleared(ts2, ts, s, l, p + [i])
    ensures ClearedFirst(ts2, ts0, s, l, p, i + 1)
  {
    hide Found, InFirst, BytePath, TablePath;
    forall v: nat | IsPage(v)
      ensures Found(ts2, s, TablePath(v))
              == if BytePath(v) in l.at && InFirst(BytePath(v), p, i + 1) then None else Found(ts0, s, TablePath(v))
    {
      InFirstStep(BytePath(v), p, i);
    }
  }

  /** Clearing the page of a leaf. */
  lemma ClearedLeaf(ts: Tables, ts2: Tables, s: Shape, l: Layout, c: seq<nat>, va: nat)
    requires |c| == LEVELS && c in l.at && IsPage(va) && BytePath(va) == c
    requires forall q | Indexes(q) :: Found(ts2, s, q) == if q == TablePath(va) then None else Found(ts, s, q)
    ensures Cleared(ts2, ts, s, l, c)
  {
    hide Found, BytePath, TablePath;
    forall v: nat | IsPage(v)
      ensures Found(ts2, s, TablePath(v))
              == if BytePath(v) in l.at && c <= BytePath(v) then None else Found(ts, s, TablePath(v))
    {
      PathsInjective(v, va);
      if c <= BytePath(v) {
        assert BytePath(v) == BytePath(v)[..LEVELS] == c;
      }
    }
  }

  lemma PrunedAll(ns: Nodes, ns0: Nodes, ts: Tables, ts0: Tables, s: Shape, l: Layout, p: seq<nat>)
    requires Pruned(ns, ns0, l, p, SLOTS) && Placed(l) && NodesPlaced(ns0, l) && |p| < LEVELS
    requires ClearedFirst(ts, ts0, s, l, p, SLOTS)
    ensures SubtreeFreed(ns - {l.at[p]}, ns0, l, p) && Cleared(ts, ts0, s, l, p)
  {
    hide Found, InFirst, BytePath, TablePath;
    forall q | q in l.at
      ensures p <= q <==> InFirst(q, p, SLOTS) || q == p
    {
      InFirstAll(q, p, SLOTS);
    }
  }

  /** With every mapped page cleared, no page is translated and no node is left. */
  lemma NothingMapped(ns: Nodes, ns0: Nodes, ts: Tables, ts0: Tables, s: Shape, l: Layout, pgd: nat)
    requires SubtreeFreed(ns, ns0, l, []) && Cleared(ts, ts0, s, l, []) && NodesPlaced(ns0, l)
    requires WellShaped(ts, s, pgd)
    requires forall v: nat | IsPage(v) && BytePath(v) !in l.at :: Found(ts0, s, TablePath(v)) == None
    ensures ns == map[] && forall v: nat | IsPage(v) :: Walk(ts, pgd, v) == None
  {
    hide Found, BytePath, TablePath, Walk, WellShaped;
    forall v: nat | IsPage(v)
      ensures Walk(ts, pgd, v) == None
    {
      WalkIsLeaf(ts, s, pgd, v);
    }
    assert forall a | a in ns0 :: Under(l.spot, a, []);
    assert ns.Keys == {};
  }

  // ----- the translation tables -----

  ghost predicate TablesPlaced(s: Shape) {
    forall q | q in s.at ::
      && s.at[q] in s.spot && s.spot[s.at[q]] == q
      && (forall k | 0 <= k < |q| :: q[k] < ENTRIES)
      && (forall k | 0 <= k <= |q| :: q[..k] in s.at)
  }

  /** The tables at and below p are all there, and map no page. */
  ghost predicate TablesWhole(ts: Tables, s: Shape, p: seq<nat>) {
    forall q | q in s.at && p <= q :: TableOk(ts, s, q) && MapsNothing(ts, s, q)
  }

  predicate MapsNothing(ts: Tables, s: Shape, q: seq<nat>) {
    q in s.at && s.at[q] in ts && (|q| == 3 ==> forall i: nat | i < ENTRIES :: !Present(ts[s.at[q]][i]))
  }

  ghost predicate TablesPruned(ts: Tables, ts0: Tables, s: Shape, p: seq<nat>, i: nat) {
    && (forall f :: f in ts <==> f in ts0 && !Gone(s.spot, f, p, i))
    && (forall f | f in ts :: ts[f] == ts0[f])
  }

  lemma {:induction false} TablePlaceOk(ts: Tables, s: Shape, pgd: nat, q: seq<nat>)
    requires WellShaped(ts, s, pgd) && q in s.at
    ensures forall k | 0 <= k < |q| :: q[k] < ENTRIES
    ensures forall k | 0 <= k <= |q| :: q[..k] in s.at
    decreases |q|
  {
    hide EntryOk;
    assert TableOk(ts, s, q);
    if q != [] {
      var r := q[..|q| - 1];
      TablePlaceOk(ts, s, pgd, r);
      assert forall k | 0 <= k < |r| :: q[k] == r[k];
      assert forall k | 0 <= k <= |r| :: q[..k] == r[..k];
    }
    assert q[..|q|] == q;
  }

  /** Tables that translate no page have no valid page descriptor. */
  lemma TablesEmpty(ts: Tables, s: Shape, pgd: nat)
    requires WellShaped(ts, s, pgd) && forall v: nat | IsPage(v) :: Walk(ts, pgd, v) == None
    ensures TablesPlaced(s) && TablesWhole(ts, s, [])
  {
    hide EntryOk, Walk, MapsNothing;
    forall q | q in s.at
      ensures s.at[q] in s.spot && s.spot[s.at[q]] == q && TableOk(ts, s, q) && MapsNothing(ts, s, q)
      ensures forall k | 0 <= k < |q| :: q[k] < ENTRIES
      ensures forall k | 0 <= k <= |q| :: q[..k] in s.at
    {
      assert TableOk(ts, s, q);
      TablePlaceOk(ts, s, pgd, q);
      TableEmpty(ts, s, pgd, q);
    }
  }

  lemma TableEmpty(ts: Tables, s: Shape, pgd: nat, q: seq<nat>)
    requires WellShaped(ts, s, pgd) && forall v: nat | IsPage(v) :: Walk(ts, pgd, v) == None
    requires TableOk(ts, s, q) && forall k | 0 <= k < |q| :: q[k] < ENTRIES
    ensures MapsNothing(ts, s, q)
  {
    hide WellShaped, TablePath, EntryOk, Walk;
    if |q| == 3 {
      forall i: nat | i < ENTRIES
        ensures !Present(ts[s.at[q]][i])
      {
        var full := q + [i];
        assert full[..3] == q;
        PageAtInverse(full);
        WalkIsLeaf(ts, s, pgd, PageAt(full));
      }
    }
  }

  lemma TablesStart(ts: Tables, s: Shape, p: seq<nat>)
    requires TablesWhole(ts, s, p) && p in s.at
    ensures TablesPruned(ts, ts, s, p, 0) && |p| <= 3 && s.at[p] in ts
  {
    assert TableOk(ts, s, p);
  }

  lemma TablesLeft(ts: Tables, ts0: Tables, s: Shape, p: seq<nat>, i: nat)
    requires TablesPruned(ts, ts0, s, p, i)
    ensures ts.Keys <= ts0.Keys
  {
  }

  lemma ChildLeft(ts: Tables, ts2: Tables, s: Shape, p: seq<nat>, c: seq<nat>)
    requires TablesPruned(ts2, ts, s, c, ENTRIES) && TablesPlaced(s) && c in s.at && s.at[c] in ts
    ensures s.at[c] in ts2
  {
  }

  lemma NextTable(ts: Tables, ts0: Tables, s: Shape, p: seq<nat>, i: nat)
    requires TablesPruned(ts, ts0, s, p, i) && TablesWhole(ts0, s, p) && TablesPlaced(s) && p in s.at && i < ENTRIES
    ensures s.at[p] in ts && |p| <= 3
    ensures Present(ts[s.at[p]][i]) ==> |p| < 3 && KindOf(ts[s.at[p]][i]) == PD_TABLE
    ensures Present(ts[s.at[p]][i]) <==> p + [i] in s.at
    ensures Present(ts[s.at[p]][i]) ==> FrameOf(ts[s.at[p]][i]) == s.at[p + [i]]
    ensures p + [i] in s.at ==> TablesWhole(ts, s, p + [i]) && s.at[p + [i]] in ts
  {
    hide TableDescriptor, FrameOf, Gone;
    var c := p + [i];
    assert TableOk(ts0, s, p) && MapsNothing(ts0, s, p) && EntryOk(ts0, s, p, i);
    TableStays(ts, ts0, s, p, i, p);
    if c in s.at {
      assert p <= c && TableOk(ts0, s, c);
      TableDescriptorFields(s.at[c]);
      forall q | q in s.at && c <= q
        ensures TableOk(ts, s, q) && MapsNothing(ts, s, q)
      {
        assert p <= c <= q;
        TableStays(ts, ts0, s, p, i, q);
      }
    }
  }

  lemma TableStays(ts: Tables, ts0: Tables, s: Shape, p: seq<nat>, i: nat, q: seq<nat>)
    requires TablesPruned(ts, ts0, s, p, i) && TablesPlaced(s) && TableOk(ts0, s, q) && MapsNothing(ts0, s, q)
    requires q == p || p + [i] <= q
    ensures TableOk(ts, s, q) && MapsNothing(ts, s, q)
  {
    hide TableDescriptor, FrameOf;
    assert q != p ==> q[|p|] == (p + [i])[|p|] == i;
    assert !Gone(s.spot, s.at[q], p, i);
    assert ts[s.at[q]] == ts0[s.at[q]];
    forall j: nat | j < ENTRIES
      ensures EntryOk(ts, s, q, j)
    {
      assert EntryOk(ts0, s, q, j);
    }
  }

  lemma TablesSkip(ts: Tables, ts0: Tables, s: Shape, p: seq<nat>, i: nat)
    requires TablesPruned(ts, ts0, s, p, i) && TablesPlaced(s) && p + [i] !in s.at
    requires forall f | f in ts0 :: f in s.spot && s.spot[f] in s.at
    ensures TablesPruned(ts, ts0, s, p, i + 1)
  {
    hide InFirst;
    var c := p + [i];
    forall f | f in ts0
      ensures Gone(s.spot, f, p, i + 1) <==> Gone(s.spot, f, p, i)
    {
      InFirstStep(s.spot[f], p, i);
      NotBelow(s.at, s.spot[f], c);
    }
  }

  /** Everything strictly below child i, then child i itself. */
  lemma TablesChild(ts: Tables, ts0: Tables, ts2: Tables, s: Shape, p: seq<nat>, i: nat)
    requires TablesPruned(ts, ts0, s, p, i) && TablesPlaced(s) && p + [i] in s.at
    requires TablesPruned(ts2, ts, s, p + [i], ENTRIES)
    requires forall f | f in ts0 :: f in s.spot && s.spot[f] in s.at && s.at[s.spot[f]] == f
    ensures TablesPruned(ts2 - {s.at[p + [i]]}, ts0, s, p, i + 1)
  {
    hide InFirst;
    var c := p + [i];
    forall f | f in ts0
      ensures Gone(s.spot, f, p, i + 1) <==> Gone(s.spot, f, p, i) || Gone(s.spot, f, c, ENTRIES) || f == s.at[c]
    {
      InFirstStep(s.spot[f], p, i);
      InFirstAll(s.spot[f], c, ENTRIES);
    }
  }

  /** At the root, everything is below it or the root itself. */
  lemma TablesAll(ts: Tables, ts0: Tables, s: Shape, pgd: nat)
    requires TablesPruned(ts, ts0, s, [], ENTRIES) && TablesPlaced(s) && [] in s.at && s.at[[]] == pgd
    requires forall f | f in ts0 :: f in s.spot && s.spot[f] in s.at && s.at[s.spot[f]] == f
    ensures pgd in ts0 ==> pgd in ts
    ensures ts - {pgd} == map[]
  {
    hide InFirst;
    NotFirst([], ENTRIES);
    forall f | f in ts0
      ensures Gone(s.spot, f, [], ENTRIES) || f == pgd
    {
      InFirstAll(s.spot[f], [], ENTRIES);
    }
    assert (ts - {pgd}).Keys == {};
  }
}
