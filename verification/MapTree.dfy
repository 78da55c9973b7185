/** The mapping tree of a task: a radix tree over the eight bytes of an address,
    whose leaves say where a page is mapped. */
module MapTree {
  import opened Options
  import opened PageIndex

  /** A node has one slot less than a byte has values. */
  const SLOTS: nat := 255
  const LEVELS: nat := 8

  datatype MapNode = MapNode(children: seq<nat>, parent: nat, pa: nat, va: nat, leaf: bool)

  /** The nodes by the address malloc gave them; 0 is the null pointer. */
  type Nodes = map<nat, MapNode>

  function NoChildren(): (c: seq<nat>)
    ensures |c| == SLOTS && forall i | 0 <= i < SLOTS :: c[i] == 0
  {
    seq(SLOTS, i => 0)
  }

  function BlankNode(parent: nat): MapNode {
    MapNode(NoChildren(), parent, 0, 0, false)
  }

  /** Where the nodes are: at gives the node reached by a list of bytes, and spot the
      list that reaches a node. */
  datatype Layout = Layout(at: map<seq<nat>, nat>, spot: map<nat, seq<nat>>)

  predicate ChildOk(ns: Nodes, s: Layout, p: seq<nat>, i: nat)
    requires p in s.at && s.at[p] in ns && i < |ns[s.at[p]].children|
  {
    ns[s.at[p]].children[i] == if p + [i] in s.at then s.at[p + [i]] else 0
  }

  /** The node at p is a leaf for a page exactly at the last level. */
  predicate LeafOk(ns: Nodes, s: Layout, p: seq<nat>) {
    && p in s.at && s.at[p] in ns
    && var n := ns[s.at[p]];
       if |p| == LEVELS then n.leaf && IsPage(n.va) && BytePath(n.va) == p else !n.leaf
  }

  ghost predicate NodeOk(ns: Nodes, s: Layout, p: seq<nat>) {
    && p in s.at && |p| <= LEVELS && s.at[p] != 0 && s.at[p] in ns
    && s.at[p] in s.spot && s.spot[s.at[p]] == p
    && |ns[s.at[p]].children| == SLOTS
    && (p != [] ==> p[..|p| - 1] in s.at && p[|p| - 1] < SLOTS && ns[s.at[p]].parent == s.at[p[..|p| - 1]])
    && (|p| < LEVELS ==> forall i: nat | i < SLOTS :: ChildOk(ns, s, p, i))
  }

  /** The nodes form a tree and there are no others; all but the nodes at `pending`
      say whether they are leaves. */
  ghost predicate WellFormed(ns: Nodes, s: Layout, root: nat, pending: set<seq<nat>>) {
    && [] in s.at && s.at[[]] == root
    && (forall p | p in s.at :: NodeOk(ns, s, p))
    && (forall p | p in s.at && p !in pending :: LeafOk(ns, s, p))
    && (forall a | a in ns :: a in s.spot && s.spot[a] in s.at && s.at[s.spot[a]] == a)
  }

  /** Bytes that all have a slot. */
  predicate HasSlots(q: seq<nat>) {
    |q| == LEVELS && forall i | 0 <= i < LEVELS :: q[i] < SLOTS
  }

  /** The first page with a byte that has no slot. */
  const SLOT_END: nat := 0xFF_0000

  /** All pages below an address have slots exactly up to that page. */
  lemma SlotsBelowIff(x: nat)
    requires x % PAGE == 0
    ensures (forall v: nat | IsPage(v) && v < x :: HasSlots(BytePath(v))) <==> x <= SLOT_END
  {
    if x <= SLOT_END {
      forall v: nat | IsPage(v) && v < x
        ensures HasSlots(BytePath(v))
      {
        LowPageHasSlots(v);
      }
    } else {
      assert IsPage(SLOT_END) && BytePath(SLOT_END)[2] == SLOTS;
    }
  }

  lemma LowPageHasSlots(v: nat)
    requires IsPage(v) && v < SLOT_END
    ensures HasSlots(BytePath(v))
  {
    var k := v / PAGE;
    LowBytes(v, k / 0x10, k % 0x10);
    assert v / 0x1_0000_0000 == v / 0x100_0000_0000 == v / 0x1_0000_0000_0000 == v / 0x100_0000_0000_0000 == 0;
  }

  lemma LowBytes(v: nat, a: nat, b: nat)
    requires v == a * 0x1_0000 + b * 0x1000 && a < SLOTS && b < 0x10
    ensures v % 256 == 0 && v / 0x100 % 256 == b * 0x10 && v / 0x1_0000 % 256 == a && v / 0x100_0000 == 0
  {
    assert v / 0x100 == a * 256 + b * 0x10;
    assert v / 0x1_0000 == a;
  }

  /** What the tree says about the page with bytes q. */
  function Mapped(ns: Nodes, s: Layout, q: seq<nat>): Option<nat> {
    if q in s.at && s.at[q] in ns then Some(ns[s.at[q]].pa) else None
  }

  /** Below a missing node everything is missing. */
  lemma {:induction false} MissingAbove(ns: Nodes, s: Layout, root: nat, pending: set<seq<nat>>, q: seq<nat>, k: nat)
    requires WellFormed(ns, s, root, pending) && |q| == LEVELS && k <= LEVELS
    requires q[..k] !in s.at
    ensures q !in s.at
    decreases LEVELS - k
  {
    hide WellFormed;
    if k < LEVELS {
      assert q[..k + 1][..k] == q[..k];
      if q[..k + 1] in s.at {
        ParentThere(ns, s, root, pending, q[..k + 1]);
      }
      MissingAbove(ns, s, root, pending, q, k + 1);
    } else {
      assert q[..k] == q;
    }
  }

  lemma ParentThere(ns: Nodes, s: Layout, root: nat, pending: set<seq<nat>>, r: seq<nat>)
    requires WellFormed(ns, s, root, pending) && r in s.at && r != []
    ensures r[..|r| - 1] in s.at
  {
    hide ChildOk, LeafOk;
    assert NodeOk(ns, s, r);
  }

  // ----- adding a node -----

  function NodeAdded(ns: Nodes, s: Layout, p: seq<nat>, i: nat, a: nat): Nodes
    requires p in s.at && s.at[p] in ns && i < |ns[s.at[p]].children|
  {
    var n := ns[s.at[p]];
    ns[s.at[p] := n.(children := n.children[i := a])][a := BlankNode(s.at[p])]
  }

  function LayoutAdded(s: Layout, p: seq<nat>, a: nat): Layout {
    Layout(s.at[p := a], s.spot[a := p])
  }

  /** A blank node at a fresh address in an empty slot changes no mapping; at the last
      level it is still to be made a leaf. */
  lemma AddNode(ns: Nodes, s: Layout, root: nat, p: seq<nat>, i: nat, a: nat)
    requires WellFormed(ns, s, root, {}) && p in s.at && |p| < LEVELS && i < SLOTS
    requires p + [i] !in s.at && a !in ns && a != 0
    ensures NodeOk(ns, s, p)
    ensures var ns2, s2 := NodeAdded(ns, s, p, i, a), LayoutAdded(s, p + [i], a);
            && WellFormed(ns2, s2, root, if |p| + 1 == LEVELS then {p + [i]} else {})
            && forall q | |q| == LEVELS && q != p + [i] :: Mapped(ns2, s2, q) == Mapped(ns, s, q)
  {
    hide NodeOk, LeafOk, Mapped, NodeAdded;
    NodeFacts(ns, s, p);
    var c := p + [i];
    var ns2, s2 := NodeAdded(ns, s, p, i, a), LayoutAdded(s, c, a);
    AddNodeSpots(ns, s, p, i, a);
    forall r | r in s2.at
      ensures NodeOk(ns2, s2, r)
      ensures r !in (if |c| == LEVELS then {c} else {}) ==> LeafOk(ns2, s2, r)
    {
      if r != c {
        assert NodeOk(ns, s, r) && LeafOk(ns, s, r);
      }
      AddNodeOk(ns, s, p, i, a, r);
      AddNodeLeaf(ns, s, p, i, a, r);
    }
    forall q | |q| == LEVELS && q != c
      ensures Mapped(ns2, s2, q) == Mapped(ns, s, q)
    {
      assert q in s.at ==> NodeOk(ns, s, q);
      AddNodeMapped(ns, s, p, i, a, q);
    }
  }

  lemma NodeFacts(ns: Nodes, s: Layout, p: seq<nat>)
    requires NodeOk(ns, s, p)
    ensures p in s.at && s.at[p] in ns && |ns[s.at[p]].children| == SLOTS
  {
  }

  lemma AddNodeSpots(ns: Nodes, s: Layout, p: seq<nat>, i: nat, a: nat)
    requires p in s.at && s.at[p] in ns && i < |ns[s.at[p]].children| && a !in ns
    requires forall b | b in ns :: b in s.spot && s.spot[b] in s.at && s.at[s.spot[b]] == b
    requires p + [i] !in s.at
    ensures var ns2, s2 := NodeAdded(ns, s, p, i, a), LayoutAdded(s, p + [i], a);
            forall b | b in ns2 :: b in s2.spot && s2.spot[b] in s2.at && s2.at[s2.spot[b]] == b
  {
  }

  lemma AddNodeLeaf(ns: Nodes, s: Layout, p: seq<nat>, i: nat, a: nat, r: seq<nat>)
    requires p in s.at && |p| < LEVELS && i < SLOTS && NodeOk(ns, s, p)
    requires p + [i] !in s.at && a !in ns && a != 0
    requires r == p + [i] || (NodeOk(ns, s, r) && LeafOk(ns, s, r))
    ensures var ns2, s2 := NodeAdded(ns, s, p, i, a), LayoutAdded(s, p + [i], a);
            s2.at[r] in ns2 && ((r == p + [i] && |r| == LEVELS) || LeafOk(ns2, s2, r))
  {
    hide ChildOk, IsPage, BytePath;
  }

  lemma AddNodeMapped(ns: Nodes, s: Layout, p: seq<nat>, i: nat, a: nat, q: seq<nat>)
    requires p in s.at && |p| < LEVELS && i < SLOTS && NodeOk(ns, s, p)
    requires p + [i] !in s.at && a !in ns && |q| == LEVELS && q != p + [i]
    requires q in s.at ==> NodeOk(ns, s, q)
    ensures Mapped(NodeAdded(ns, s, p, i, a), LayoutAdded(s, p + [i], a), q) == Mapped(ns, s, q)
  {
    hide ChildOk;
  }

  lemma AddNodeOk(ns: Nodes, s: Layout, p: seq<nat>, i: nat, a: nat, r: seq<nat>)
    requires p in s.at && |p| < LEVELS && i < SLOTS && NodeOk(ns, s, p)
    requires p + [i] !in s.at && a !in ns && a != 0
    requires r != p + [i] ==> NodeOk(ns, s, r)
    requires forall g | g in s.at :: NodeOk(ns, s, g)
    ensures NodeOk(NodeAdded(ns, s, p, i, a), LayoutAdded(s, p + [i], a), r)
  {
    var c := p + [i];
    var ns2, s2 := NodeAdded(ns, s, p, i, a), LayoutAdded(s, c, a);
    if r == c {
      assert c[..|c| - 1] == p;
      forall j: nat | j < SLOTS
        ensures ChildOk(ns2, s2, r, j)
      {
        var below := r + [j];
        assert below[..|below| - 1] == c;
        assert below in s.at ==> NodeOk(ns, s, below);
      }
    } else if |r| < LEVELS {
      forall j: nat | j < SLOTS
        ensures ChildOk(ns2, s2, r, j)
      {
        assert ChildOk(ns, s, r, j);
        if r + [j] == c {
          assert r == c[..|c| - 1] == p && j == c[|c| - 1];
        }
      }
    }
  }

  // ----- making a leaf -----

  function LeafMade(ns: Nodes, s: Layout, q: seq<nat>, va: nat, pa: nat): Nodes
    requires q in s.at && s.at[q] in ns
  {
    ns[s.at[q] := ns[s.at[q]].(leaf := true, pa := pa, va := va)]
  }

  lemma MakeLeaf(ns: Nodes, s: Layout, root: nat, pending: set<seq<nat>>, va: nat, pa: nat)
    requires WellFormed(ns, s, root, pending) && pending <= {BytePath(va)}
    requires IsPage(va) && BytePath(va) in s.at
    ensures NodeOk(ns, s, BytePath(va))
    ensures var ns2 := LeafMade(ns, s, BytePath(va), va, pa);
            && WellFormed(ns2, s, root, {})
            && forall q | |q| == LEVELS :: Mapped(ns2, s, q) == if q == BytePath(va) then Some(pa) else Mapped(ns, s, q)
  {
    hide NodeOk, LeafOk, Mapped, BytePath;
    var c := BytePath(va);
    NodeFacts(ns, s, c);
    var ns2 := LeafMade(ns, s, c, va, pa);
    forall r | r in s.at
      ensures NodeOk(ns2, s, r) && LeafOk(ns2, s, r)
    {
      assert NodeOk(ns, s, r);
      assert r != c ==> LeafOk(ns, s, r);
      MakeLeafOk(ns, s, va, pa, r);
    }
    forall q | |q| == LEVELS
      ensures Mapped(ns2, s, q) == if q == c then Some(pa) else Mapped(ns, s, q)
    {
      assert q in s.at ==> NodeOk(ns, s, q);
      MakeLeafMapped(ns, s, va, pa, q);
    }
  }

  lemma MakeLeafMapped(ns: Nodes, s: Layout, va: nat, pa: nat, q: seq<nat>)
    requires NodeOk(ns, s, BytePath(va)) && (q in s.at ==> NodeOk(ns, s, q))
    ensures Mapped(LeafMade(ns, s, BytePath(va), va, pa), s, q)
            == if q == BytePath(va) then Some(pa) else Mapped(ns, s, q)
  {
    hide ChildOk, BytePath;
  }

  lemma MakeLeafOk(ns: Nodes, s: Layout, va: nat, pa: nat, r: seq<nat>)
    requires BytePath(va) in s.at && NodeOk(ns, s, BytePath(va)) && NodeOk(ns, s, r) && IsPage(va)
    requires r != BytePath(va) ==> LeafOk(ns, s, r)
    ensures var ns2 := LeafMade(ns, s, BytePath(va), va, pa); NodeOk(ns2, s, r) && LeafOk(ns2, s, r)
  {
    hide BytePath, IsPage;
    var ns2 := LeafMade(ns, s, BytePath(va), va, pa);
    if |r| < LEVELS {
      forall j: nat | j < SLOTS
        ensures ChildOk(ns2, s, r, j)
      {
        assert ChildOk(ns, s, r, j);
      }
    }
  }

  // ----- removing a leaf -----

  function LeafRemoved(ns: Nodes, s: Layout, q: seq<nat>): Nodes
    requires |q| == LEVELS && q in s.at && q[..LEVELS - 1] in s.at
    requires s.at[q[..LEVELS - 1]] in ns && q[LEVELS - 1] < |ns[s.at[q[..LEVELS - 1]]].children|
  {
    var parent := s.at[q[..LEVELS - 1]];
    ns[parent := ns[parent].(children := ns[parent].children[q[LEVELS - 1] := 0])] - {s.at[q]}
  }

  function LayoutRemoved(s: Layout, q: seq<nat>): Layout {
    Layout(s.at - {q}, s.spot)
  }

  /** Unhooking and freeing a leaf forgets its page and no other. */
  lemma RemoveLeaf(ns: Nodes, s: Layout, root: nat, q: seq<nat>)
    requires WellFormed(ns, s, root, {}) && |q| == LEVELS && q in s.at
    ensures NodeOk(ns, s, q) && NodeOk(ns, s, q[..LEVELS - 1])
    ensures var ns2, s2 := LeafRemoved(ns, s, q), LayoutRemoved(s, q);
            && WellFormed(ns2, s2, root, {})
            && forall r | |r| == LEVELS :: Mapped(ns2, s2, r) == if r == q then None else Mapped(ns, s, r)
  {
    hide NodeOk, LeafOk, Mapped, LeafRemoved;
    var p := q[..LEVELS - 1];
    assert NodeOk(ns, s, q);
    RemoveLeafParts(ns, s, q);
    assert NodeOk(ns, s, p);
    var ns2, s2 := LeafRemoved(ns, s, q), LayoutRemoved(s, q);
    RemoveLeafSpots(ns, s, q);
    forall r | r in s2.at
      ensures NodeOk(ns2, s2, r) && LeafOk(ns2, s2, r)
    {
      assert NodeOk(ns, s, r) && LeafOk(ns, s, r);
      RemoveLeafOk(ns, s, q, r);
    }
    forall r | |r| == LEVELS
      ensures Mapped(ns2, s2, r) == if r == q then None else Mapped(ns, s, r)
    {
      assert r in s.at ==> NodeOk(ns, s, r);
      RemoveLeafMapped(ns, s, q, r);
    }
  }

  lemma RemoveLeafParts(ns: Nodes, s: Layout, q: seq<nat>)
    requires |q| == LEVELS && NodeOk(ns, s, q)
    requires forall r | r in s.at :: NodeOk(ns, s, r)
    ensures var p := q[..LEVELS - 1];
            && NodeOk(ns, s, p) && p in s.at && s.at[p] in ns && q[LEVELS - 1] < |ns[s.at[p]].children|
  {
    assert NodeOk(ns, s, q[..LEVELS - 1]);
  }

  lemma RemoveLeafSpots(ns: Nodes, s: Layout, q: seq<nat>)
    requires |q| == LEVELS && NodeOk(ns, s, q) && NodeOk(ns, s, q[..LEVELS - 1])
    requires q[LEVELS - 1] < |ns[s.at[q[..LEVELS - 1]]].children|
    requires forall b | b in ns :: b in s.spot && s.spot[b] in s.at && s.at[s.spot[b]] == b
    ensures var ns2, s2 := LeafRemoved(ns, s, q), LayoutRemoved(s, q);
            forall b | b in ns2 :: b in s2.spot && s2.spot[b] in s2.at && s2.at[s2.spot[b]] == b
  {
    hide ChildOk;
  }

  lemma RemoveLeafOk(ns: Nodes, s: Layout, q: seq<nat>, r: seq<nat>)
    requires |q| == LEVELS && NodeOk(ns, s, q) && NodeOk(ns, s, q[..LEVELS - 1])
    requires r != q && NodeOk(ns, s, r) && LeafOk(ns, s, r)
    ensures var ns2, s2 := LeafRemoved(ns, s, q), LayoutRemoved(s, q); NodeOk(ns2, s2, r) && LeafOk(ns2, s2, r)
  {
    hide IsPage, BytePath;
    var p := q[..LEVELS - 1];
    assert q == p + [q[LEVELS - 1]];
    var ns2, s2 := LeafRemoved(ns, s, q), LayoutRemoved(s, q);
    assert r != [] ==> |r[..|r| - 1]| < LEVELS;
    if |r| < LEVELS {
      forall j: nat | j < SLOTS
        ensures ChildOk(ns2, s2, r, j)
      {
        assert ChildOk(ns, s, r, j);
        if r + [j] == q {
          assert r == (r + [j])[..LEVELS - 1] && j == (r + [j])[LEVELS - 1];
        }
      }
    }
  }

  lemma RemoveLeafMapped(ns: Nodes, s: Layout, q: seq<nat>, r: seq<nat>)
    requires |q| == LEVELS && |r| == LEVELS && NodeOk(ns, s, q) && NodeOk(ns, s, q[..LEVELS - 1])
    requires r in s.at ==> NodeOk(ns, s, r)
    ensures Mapped(LeafRemoved(ns, s, q), LayoutRemoved(s, q), r) == if r == q then None else Mapped(ns, s, r)
  {
    hide ChildOk;
  }
}
