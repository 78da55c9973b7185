/** The address space of a task: the translation tables the hardware walks and the
    mapping tree the kernel looks pages up in, kept in step. */
module TaskMap {
  import opened Options
  import opened PageIndex
  import opened PageTable
  import opened MapTree
  import opened Teardown

  const MAIR_IDX_NORMAL: nat := 1

  /** The most blocks that mapping one page can allocate: seven inner nodes, a leaf and
      three tables. */
  const BLOCKS_PER_PAGE: nat := 11

  /** The addresses malloc will return are fresh, distinct, and page-aligned. */
  ghost predicate PoolOk(pool: seq<nat>, ns: Nodes, ts: Tables) {
    && (forall i | 0 <= i < |pool| :: pool[i] != 0 && IsFrame(pool[i]) && pool[i] !in ns && pool[i] !in ts)
    && (forall i, j | 0 <= i < j < |pool| :: pool[i] != pool[j])
  }

  /** What the tables say about a page. */
  function Translated(ts: Tables, s: Shape, va: nat): Option<nat> {
    match Found(ts, s, TablePath(va))
    case Some(e) => Some(FrameOf(e))
    case None => None
  }

  /** Tree and tables say the same about a page. */
  predicate PageAgrees(ns: Nodes, l: Layout, ts: Tables, s: Shape, va: nat) {
    Mapped(ns, l, BytePath(va)) == Translated(ts, s, va)
  }

  ghost predicate Agree(ns: Nodes, l: Layout, ts: Tables, s: Shape) {
    forall va: nat | IsPage(va) :: PageAgrees(ns, l, ts, s, va)
  }

  class Task {
    const root: nat
    const pgd: nat
    var nodes: Nodes
    var tables: Tables
    var pool: seq<nat>
    ghost var layout: Layout
    ghost var shape: Shape

    ghost predicate Shaped()
      reads this
    {
      WellFormed(nodes, layout, root, {}) && WellShaped(tables, shape, pgd) && PoolOk(pool, nodes, tables)
    }

    ghost predicate Valid()
      reads this
    {
      Shaped() && Agree(nodes, layout, tables, shape)
    }

    /** A task as CreateTask sets it up: a zeroed table and a zeroed root node. */
    constructor (pgd: nat, root: nat, pool: seq<nat>)
      requires IsFrame(pgd) && root != 0
      requires PoolOk(pool, map[root := BlankNode(0)], map[pgd := BlankTable()])
      ensures Valid() && this.pgd == pgd && this.root == root && this.pool == pool
      ensures forall va :: Walk(tables, pgd, va) == None
    {
      this.pgd, this.root, this.pool := pgd, root, pool;
      nodes, tables := map[root := BlankNode(0)], map[pgd := BlankTable()];
      layout, shape := Layout(map[[] := root], map[root := []]), Shape(map[[] := pgd], map[pgd := []]);
      new;
      FreshTask(root, pgd, nodes, layout, tables, shape);
    }

    // ----- the translation tables -----

    /** The table behind slot i of a table, allocated if there is none. */
    method EnsureTable(table: nat, i: nat, ghost p: seq<nat>) returns (next: nat)
      requires WellShaped(tables, shape, pgd) && PoolOk(pool, nodes, tables) && pool != []
      requires p in shape.at && table == shape.at[p] && |p| < 3 && i < ENTRIES
      modifies this`tables, this`pool, this`shape
      ensures WellShaped(tables, shape, pgd) && PoolOk(pool, nodes, tables) && |pool| >= |old(pool)| - 1
      ensures p + [i] in shape.at && next == shape.at[p + [i]]
      ensures forall q | Indexes(q) :: Leaf(tables, shape, q) == Leaf(old(tables), old(shape), q)
    {
      hide WellShaped, PoolOk, Leaf, IsFrame, TableDescriptor, FrameOf;
      TableFacts(tables, shape, pgd, p, i);
      if Present(tables[table][i]) {
        return FrameOf(tables[table][i]);
      }
      var phys := pool[0];
      PoolHead(pool, nodes, tables);
      AddTable(tables, shape, pgd, p, i, phys);
      ghost var ts := tables;
      tables := tables[table := tables[table][i := TableDescriptor(phys)]];
      tables := tables[phys := BlankTable()];
      assert tables == TableAdded(ts, shape, p, i, phys);
      PoolTail(pool, nodes, ts, nodes, tables);
      pool := pool[1..];
      shape := ShapeAdded(shape, p + [i], phys);
      TableFacts(tables, shape, pgd, p, i);
      next := FrameOf(tables[table][i]);
    }

    /** Maps one page in the translation tables. */
    method MapTablePage(va: nat, pa: nat, index: nat, flags: nat)
      requires WellShaped(tables, shape, pgd) && PoolOk(pool, nodes, tables) && |pool| >= 3
      requires IsPage(va) && index < 8
      modifies this`tables, this`pool, this`shape
      ensures WellShaped(tables, shape, pgd) && PoolOk(pool, nodes, tables) && |pool| >= |old(pool)| - 3
      ensures forall q | Indexes(q) ::
                Found(tables, shape, q)
                == if q == TablePath(va) then Some(PageDescriptor(pa, index, flags)) else Found(old(tables), old(shape), q)
    {
      hide WellShaped, PoolOk, Leaf, FrameOf, TablePath, PageDescriptor;
      ghost var q := TablePath(va);
      RootTable(tables, shape, pgd);
      PathPrefixes(va);
      var l1 := EnsureTable(pgd, va / 0x80_0000_0000 % 512, []);
      var l2 := EnsureTable(l1, va / 0x4000_0000 % 512, q[..1]);
      TableFacts(tables, shape, pgd, q[..2], va / 0x20_0000 % 512);
      var e := tables[l2][va / 0x20_0000 % 512];
      if Present(e) && KindOf(e) == PD_BLOCK {
        assert false;
      }
      var l3 := EnsureTable(l2, va / 0x20_0000 % 512, q[..2]);
      PageDescriptorFields(pa, index, flags);
      SetLeaf(tables, shape, pgd, q, PageDescriptor(pa, index, flags));
      ghost var ts := tables;
      tables := tables[l3 := tables[l3][va / 0x1000 % 512 := PageDescriptor(pa, index, flags)]];
      PoolSame(pool, nodes, ts, tables);
    }

    /** Clears the page descriptor of va, if there is one. */
    method UnmapTablePage(va: nat)
      requires WellShaped(tables, shape, pgd) && PoolOk(pool, nodes, tables)
      modifies this`tables
      ensures WellShaped(tables, shape, pgd) && PoolOk(pool, nodes, tables)
      ensures forall q | Indexes(q) ::
                Found(tables, shape, q) == if q == TablePath(va) then None else Found(old(tables), shape, q)
    {
      hide WellShaped, PoolOk, FrameOf, TablePath;
      ghost var q := TablePath(va);
      RootTable(tables, shape, pgd);
      PathPrefixes(va);
      TableFacts(tables, shape, pgd, [], va / 0x80_0000_0000 % 512);
      var e0 := tables[pgd][va / 0x80_0000_0000 % 512];
      if !Present(e0) {
        NoLeaf(tables, shape, pgd, q, 1);
        return;
      }
      var l1 := FrameOf(e0);
      TableFacts(tables, shape, pgd, q[..1], va / 0x4000_0000 % 512);
      var e1 := tables[l1][va / 0x4000_0000 % 512];
      if !Present(e1) {
        NoLeaf(tables, shape, pgd, q, 2);
        return;
      }
      var l2 := FrameOf(e1);
      TableFacts(tables, shape, pgd, q[..2], va / 0x20_0000 % 512);
      var e2 := tables[l2][va / 0x20_0000 % 512];
      if !Present(e2) {
        NoLeaf(tables, shape, pgd, q, 3);
        return;
      }
      var l3 := FrameOf(e2);
      SetLeaf(tables, shape, pgd, q, 0);
      if !Present(tables[l3][va / 0x1000 % 512]) {
        return;
      }
      tables := tables[l3 := tables[l3][va / 0x1000 % 512 := 0]];
      PoolSame(pool, nodes, old(tables), tables);
    }

    // ----- the mapping tree -----

    /** The physical address the tree holds for va, 0 if there is none. */
    method GetPagePA(va: nat) returns (pa: nat)
      requires WellFormed(nodes, layout, root, {}) && HasSlots(BytePath(va))
      ensures pa == match Mapped(nodes, layout, BytePath(va)) case Some(m) => m case None => 0
    {
      hide WellFormed, BytePath;
      ghost var q := BytePath(va);
      MapTreeRoot(nodes, layout, root);
      var parts := BytePath(va);
      var node := root;
      var i := 0;
      while i < LEVELS
        invariant 0 <= i <= LEVELS && q[..i] in layout.at && node == layout.at[q[..i]]
      {
        NodeLink(nodes, layout, root, {}, q, i);
        if nodes[node].children[parts[i]] == 0 {
          MapTree.MissingAbove(nodes, layout, root, {}, q, i + 1);
          return 0;
        }
        node := nodes[node].children[parts[i]];
        i := i + 1;
      }
      assert q[..LEVELS] == q;
      LeafPresent(nodes, layout, root, q);
      return nodes[node].pa;
    }

    /** The leaf for va, with the nodes above it, created as far as they are missing. */
    method EnsureLeaf(va: nat) returns (node: nat, ghost pending: set<seq<nat>>)
      requires WellFormed(nodes, layout, root, {}) && PoolOk(pool, nodes, tables) && HasSlots(BytePath(va))
      requires |pool| >= LEVELS
      modifies this`nodes, this`pool, this`layout
      ensures WellFormed(nodes, layout, root, pending) && pending <= {BytePath(va)}
      ensures PoolOk(pool, nodes, tables) && |pool| >= |old(pool)| - LEVELS
      ensures BytePath(va) in layout.at && node == layout.at[BytePath(va)]
      ensures pending == {} ==> Mapped(nodes, layout, BytePath(va)) == Mapped(old(nodes), old(layout), BytePath(va))
      ensures forall q | |q| == LEVELS && q != BytePath(va) ::
                Mapped(nodes, layout, q) == Mapped(old(nodes), old(layout), q)
    {
      hide WellFormed, PoolOk, Mapped, BytePath;
      ghost var q := BytePath(va);
      var parts := BytePath(va);
      node := root;
      pending := {};
      MapTreeRoot(nodes, layout, root);
      var i := 0;
      while i < LEVELS
        invariant 0 <= i <= LEVELS && (i < LEVELS ==> pending == {}) && pending <= {q}
        invariant WellFormed(nodes, layout, root, pending) && PoolOk(pool, nodes, tables)
        invariant |pool| >= |old(pool)| - i
        invariant q[..i] in layout.at && node == layout.at[q[..i]]
        invariant pending == {} ==> Mapped(nodes, layout, q) == Mapped(old(nodes), old(layout), q)
        invariant forall r | |r| == LEVELS && r != q :: Mapped(nodes, layout, r) == Mapped(old(nodes), old(layout), r)
      {
        node, pending := EnsureChild(node, parts[i], q, i);
        i := i + 1;
      }
      assert q[..LEVELS] == q;
    }

    /** The child in slot q[i] of the node at q[..i], created if it is missing. */
    method EnsureChild(node: nat, slot: nat, ghost q: seq<nat>, ghost i: nat) returns (child: nat, ghost pending: set<seq<nat>>)
      requires WellFormed(nodes, layout, root, {}) && PoolOk(pool, nodes, tables) && pool != []
      requires HasSlots(q) && i < LEVELS && slot == q[i] && q[..i] in layout.at && node == layout.at[q[..i]]
      modifies this`nodes, this`pool, this`layout
      ensures WellFormed(nodes, layout, root, pending) && PoolOk(pool, nodes, tables) && |pool| >= |old(pool)| - 1
      ensures pending <= {q} && (i + 1 < LEVELS ==> pending == {})
      ensures q[..i + 1] in layout.at && child == layout.at[q[..i + 1]]
      ensures pending == {} ==> Mapped(nodes, layout, q) == Mapped(old(nodes), old(layout), q)
      ensures forall r | |r| == LEVELS && r != q :: Mapped(nodes, layout, r) == Mapped(old(nodes), old(layout), r)
    {
      hide WellFormed, PoolOk, Mapped, IsFrame;
      NodeLink(nodes, layout, root, {}, q, i);
      pending := {};
      if nodes[node].children[slot] != 0 {
        return nodes[node].children[slot], pending;
      }
      child := pool[0];
      PoolHead(pool, nodes, tables);
      AddNode(nodes, layout, root, q[..i], slot, child);
      ghost var ns, l := nodes, layout;
      nodes := nodes[node := nodes[node].(children := nodes[node].children[slot := child])];
      nodes := nodes[child := BlankNode(node)];
      assert nodes == NodeAdded(ns, l, q[..i], slot, child);
      layout := LayoutAdded(l, q[..i] + [slot], child);
      PoolTail(pool, ns, tables, nodes, tables);
      pool := pool[1..];
      if i + 1 == LEVELS {
        assert q[..i + 1] == q;
        pending := {q};
      } else {
        MappedBelow(ns, l, root, q, i, nodes, layout);
      }
    }

    // ----- both -----

    /** Maps one page in the tree and in the tables. */
    method MapPage(va: nat, pa: nat, flags: nat)
      requires Valid() && |pool| >= BLOCKS_PER_PAGE
      requires IsPage(va) && HasSlots(BytePath(va)) && IsFrame(pa)
      modifies this
      ensures Valid() && |pool| >= |old(pool)| - BLOCKS_PER_PAGE
      ensures forall v: nat | IsPage(v) ::
                Walk(tables, pgd, v)
                == if v == va then Some(PageDescriptor(pa, MAIR_IDX_NORMAL, flags)) else Walk(old(tables), pgd, v)
    {
      hide WellFormed, WellShaped, PoolOk, Mapped, Found, BytePath, TablePath, PageDescriptor, Agree, HasSlots, IsFrame;
      ghost var ns, l, ts, s := nodes, layout, tables, shape;
      var node;
      ghost var pending;
      node, pending := EnsureLeaf(va);
      LeafInTree(nodes, layout, root, pending, BytePath(va));
      if nodes[node].leaf && nodes[node].pa != pa && nodes[node].pa != 0 {
        UnmapTablePage(va);
      }
      ghost var ns1 := nodes;
      MakeLeaf(ns1, layout, root, pending, va, pa);
      nodes := nodes[node := nodes[node].(leaf := true, pa := pa, va := va)];
      PoolNodes(pool, ns1, nodes, tables);
      MapTablePage(va, pa, MAIR_IDX_NORMAL, flags);
      MapAgrees(ns, l, ts, s, nodes, layout, tables, shape, va, pa, PageDescriptor(pa, MAIR_IDX_NORMAL, flags), flags);
      WalksChange(pgd, ts, s, tables, shape, va, Some(PageDescriptor(pa, MAIR_IDX_NORMAL, flags)));
    }

    /** Maps as many pages as size bytes take, from va to pa on. */
    method MapTaskPage(va: nat, pa: nat, size: nat, flags: nat)
      requires Valid() && |pool| >= BLOCKS_PER_PAGE * Pages(size)
      requires IsPage(va) && va + Pages(size) * PAGE <= VA_END && IsFrame(pa) && pa + Pages(size) * PAGE <= VA_END
      requires forall v: nat | IsPage(v) && va <= v < va + Pages(size) * PAGE :: HasSlots(BytePath(v))
      modifies this
      ensures Valid() && |pool| >= |old(pool)| - BLOCKS_PER_PAGE * Pages(size)
      ensures forall v: nat | IsPage(v) ::
                Walk(tables, pgd, v)
                == if va <= v < va + Pages(size) * PAGE then Some(PageDescriptor(pa + (v - va), MAIR_IDX_NORMAL, flags))
                   else Walk(old(tables), pgd, v)
      ensures forall a: nat | va <= a < va + size ::
                Physical(tables, pgd, a) == Some(pa + (a - va)) && HasRights(tables, pgd, a, flags)
    {
      hide WellFormed, WellShaped, PoolOk, BytePath, TablePath, PageDescriptor, Agree, HasSlots, Walk, IsPage, IsFrame, Pages, Physical, HasRights;
      var numPages := Pages(size);
      var p := 0;
      while p < numPages
        invariant 0 <= p <= numPages && Valid() && |pool| >= |old(pool)| - BLOCKS_PER_PAGE * p
        invariant forall v: nat | IsPage(v) ::
                    Walk(tables, pgd, v)
                    == if va <= v < va + p * PAGE then Some(PageDescriptor(pa + (v - va), MAIR_IDX_NORMAL, flags))
                       else Walk(old(tables), pgd, v)
      {
        FrameStep(pa, p);
        PageInRun(va, numPages, p);
        MapPage(va + p * PAGE, pa + p * PAGE, flags);
        forall v: nat | IsPage(v) && va + p * PAGE <= v < va + p * PAGE + PAGE
          ensures v == va + p * PAGE
        {
          OnePage(va + p * PAGE, v);
        }
        p := p + 1;
      }
      BytesMapped(tables, pgd, va, pa, size, flags);
    }

    /** Whether and where va is mapped: what the hardware would find. */
    method GetTaskPagePA(va: nat) returns (pa: nat)
      requires Valid() && IsPage(va) && HasSlots(BytePath(va))
      ensures pa == match Walk(tables, pgd, va) case Some(e) => FrameOf(e) case None => 0
    {
      hide WellFormed, WellShaped, PoolOk, BytePath, TablePath;
      pa := GetPagePA(va);
      WalkIsLeaf(tables, shape, pgd, va);
      assert PageAgrees(nodes, layout, tables, shape, va);
    }

    /** Unhooks and frees the leaf of a mapped page and clears its descriptor. */
    method UnmapPage(va: nat)
      requires Valid() && IsPage(va) && HasSlots(BytePath(va)) && Walk(tables, pgd, va) != None
      modifies this`nodes, this`tables, this`layout
      ensures Valid()
      ensures forall v: nat | IsPage(v) :: Walk(tables, pgd, v) == if v == va then None else Walk(old(tables), pgd, v)
    {
      hide WellFormed, WellShaped, PoolOk, BytePath, TablePath, Mapped, Found, Walk, Agree;
      ghost var ns, l, ts, q := nodes, layout, tables, BytePath(va);
      InTree(nodes, layout, tables, shape, root, pgd, va);
      var parts := BytePath(va);
      var node := root;
      MapTreeRoot(nodes, layout, root);
      PrefixesInTree(nodes, layout, root, q);
      var i := 0;
      while i < LEVELS
        invariant nodes == ns && layout == l && tables == ts && pool == old(pool)
        invariant 0 <= i <= LEVELS && q[..i] in layout.at && node == layout.at[q[..i]]
      {
        NodeLink(nodes, layout, root, {}, q, i);
        node := nodes[node].children[parts[i]];
        i := i + 1;
      }
      assert q[..LEVELS] == q;
      RemoveLeaf(nodes, layout, root, q);
      LeafParent(nodes, layout, q);
      var parent := nodes[node].parent;
      nodes := nodes[parent := nodes[parent].(children := nodes[parent].children[parts[LEVELS - 1] := 0])];
      FreeNode(node);
      layout := LayoutRemoved(l, q);
      PoolFewerNodes(pool, ns, nodes, tables);
      UnmapTablePage(va);
      UnmapAgrees(ns, l, ts, nodes, layout, tables, shape, va);
      WalksChange(pgd, ts, shape, tables, shape, va, None);
    }

    /** Unmaps as many pages as length bytes take; the i-th step adds i pages to the
        address, so that the pages visited are va, va + 1, va + 3, va + 6, ... pages. */
    method UnmapTaskPage(va: nat, length: nat)
      requires Valid() && IsPage(va) && HasSlots(BytePath(va))
      requires PageOf(Walk(tables, pgd, va)) != 0 ==>
                 forall i | 0 <= i < Pages(length) ::
                   IsPage(StepAt(va, i)) && HasSlots(BytePath(StepAt(va, i))) && Walk(tables, pgd, StepAt(va, i)) != None
      modifies this`nodes, this`tables, this`layout
      ensures Valid()
      ensures PageOf(Walk(old(tables), pgd, va)) == 0 ==> tables == old(tables)
      ensures PageOf(Walk(old(tables), pgd, va)) != 0 ==>
                forall v: nat | IsPage(v) ::
                  Walk(tables, pgd, v) == if Visited(va, Pages(length), v) then None else Walk(old(tables), pgd, v)
    {
      hide WellFormed, WellShaped, PoolOk, BytePath, TablePath, Agree, HasSlots, Walk, IsPage;
      var pa := GetTaskPagePA(va);
      if pa == 0 {
        return;
      }
      var numPages := Pages(length);
      var at := va;
      var i := 0;
      while i < numPages
        invariant 0 <= i <= numPages && Valid()
        invariant at == if i == 0 then va else StepAt(va, i - 1)
        invariant forall v: nat | IsPage(v) ::
                    Walk(tables, pgd, v) == if Visited(va, i, v) then None else Walk(old(tables), pgd, v)
      {
        at := at + i * PAGE;
        StepsGrow(va, i);
        assert at == StepAt(va, i);
        UnmapPage(at);
        forall v: nat | IsPage(v)
          ensures Walk(tables, pgd, v) == if Visited(va, i + 1, v) then None else Walk(old(tables), pgd, v)
        {
          VisitedStep(va, i, v);
        }
        i := i + 1;
      }
    }

    // ----- the end of a task -----

    /** Gives a node back to the allocator; only a live block can be given back. */
    method FreeNode(a: nat)
      requires a in nodes
      modifies this`nodes
      ensures nodes == old(nodes) - {a}
    {
      nodes := nodes - {a};
    }

    method FreeFrame(f: nat)
      requires f in tables
      modifies this`tables
      ensures tables == old(tables) - {f}
    {
      tables := tables - {f};
    }

    /** Unmaps the pages of all leaves below a node and frees the nodes at and below it. */
    method RemoveMapsFromNode(node: nat, ghost p: seq<nat>)
      requires p in layout.at && node == layout.at[p] && |p| < LEVELS
      requires Placed(layout) && NodesPlaced(nodes, layout) && Whole(nodes, layout, p)
      requires WellShaped(tables, shape, pgd) && PoolOk(pool, nodes, tables)
      modifies this`nodes, this`tables
      ensures SubtreeFreed(nodes, old(nodes), layout, p) && Cleared(tables, old(tables), shape, layout, p)
      ensures WellShaped(tables, shape, pgd) && PoolOk(pool, nodes, tables)
      decreases LEVELS - |p|
    {
      hide WellShaped, PoolOk, Whole, NodesPlaced, Placed, Pruned, ClearedFirst, Cleared, SubtreeFreed, NodeOk, BytePath, TablePath;
      ghost var ns0, ts0 := nodes, tables;
      PrunedStart(nodes, tables, shape, layout, p);
      var i := 0;
      while i < SLOTS
        invariant 0 <= i <= SLOTS
        invariant Pruned(nodes, ns0, layout, p, i) && ClearedFirst(tables, ts0, shape, layout, p, i)
        invariant WellShaped(tables, shape, pgd) && PoolOk(pool, nodes, tables)
      {
        ghost var ns, ts := nodes, tables;
        PrunedFacts(nodes, ns0, layout, p, i);
        NextChild(nodes, ns0, layout, p, i);
        var child := nodes[node].children[i];
        if child == 0 {
          PrunedSkip(nodes, ns0, tables, ts0, shape, layout, p, i);
        } else if nodes[child].leaf {
          UnmapTablePage(nodes[child].va);
          ClearedLeaf(ts, tables, shape, layout, p + [i], nodes[child].va);
          FreeNode(child);
          nodes := nodes[node := nodes[node].(children := nodes[node].children[i := 0])];
          LeafGone(ns, nodes, layout, p, i);
          PrunedChild(ns, ns0, nodes, layout, p, i);
          ClearedChild(ts, ts0, tables, shape, layout, p, i);
          PoolFewerNodes(pool, ns, nodes, tables);
        } else {
          RemoveMapsFromNode(child, p + [i]);
          PrunedSubtree(ns, ns0, nodes, layout, p, i);
          ClearedChild(ts, ts0, tables, shape, layout, p, i);
        }
        i := i + 1;
      }
      PrunedFacts(nodes, ns0, layout, p, SLOTS);
      PrunedAll(nodes, ns0, tables, ts0, shape, layout, p);
      PoolFewerNodes(pool, nodes, nodes - {node}, tables);
      FreeNode(node);
    }

    /** Frees the tables below a table, and the top table itself. */
    method FreeTable(table: nat, level: nat, ghost p: seq<nat>)
      requires p in shape.at && table == shape.at[p] && |p| == level
      requires TablesPlaced(shape) && TablesWhole(tables, shape, p)
      requires forall f | f in tables :: f in shape.spot && shape.spot[f] in shape.at && shape.at[shape.spot[f]] == f
      modifies this`tables
      ensures level > 0 ==> TablesPruned(tables, old(tables), shape, p, ENTRIES)
      ensures level == 0 ==> tables == map[]
      decreases 3 - level
    {
      hide TablesPlaced, TablesWhole, TablesPruned, TableOk, FrameOf;
      ghost var ts0 := tables;
      TablesStart(tables, shape, p);
      var i := 0;
      while i < ENTRIES
        invariant 0 <= i <= ENTRIES && TablesPruned(tables, ts0, shape, p, i)
      {
        ghost var ts := tables;
        NextTable(tables, ts0, shape, p, i);
        var e := tables[table][i];
        if !Present(e) {
          TablesSkip(tables, ts0, shape, p, i);
        } else {
          var child := FrameOf(e);
          if KindOf(e) == PD_TABLE && level < 3 {
            TablesLeft(ts, ts0, shape, p, i);
            FreeTable(child, level + 1, p + [i]);
            ChildLeft(ts, tables, shape, p, p + [i]);
            TablesChild(ts, ts0, tables, shape, p, i);
          } else {
            assert false;
          }
          FreeFrame(child);
        }
        i := i + 1;
      }
      if level == 0 {
        assert p == [];
        TablesAll(tables, ts0, shape, table);
        FreeFrame(table);
      }
    }

    /** Unmaps every page of the task and frees its whole mapping tree. */
    method RemoveMaps()
      requires Valid()
      modifies this`nodes, this`tables
      ensures nodes == map[] && WellShaped(tables, shape, pgd)
      ensures forall v: nat | IsPage(v) :: Walk(tables, pgd, v) == None
    {
      hide WellFormed, WellShaped, PoolOk, Walk, Whole, NodesPlaced, Placed, Cleared, SubtreeFreed, Agree, BytePath, TablePath, Found;
      ghost var ns, ts := nodes, tables;
      PlacesOk(nodes, layout, root);
      MapTreeRoot(nodes, layout, root);
      UnmappedPages(ns, layout, ts, shape);
      RemoveMapsFromNode(root, []);
      NothingMapped(nodes, ns, tables, ts, shape, layout, pgd);
    }

    /** Frees everything the address space of a task is made of. */
    method KillTask()
      requires Valid()
      modifies this`nodes, this`tables
      ensures nodes == map[] && tables == map[]
    {
      hide WellFormed, PoolOk, Agree, Walk, TablesWhole, TablesPlaced, TableOk;
      RemoveMaps();
      TablesEmpty(tables, shape, pgd);
      FreeTable(pgd, 0, []);
    }

    // ----- finding room -----

    /** The lowest run of unmapped pages that holds size bytes, from the second page
        of the address space on.  w is some such run. */
    method GetTaskValidVA(size: nat, ghost w: nat) returns (found: nat)
      requires Valid() && 0 < size && IsPage(w) && PAGE <= w && w + Pages(size) * PAGE <= SLOT_END
      requires RunFree(tables, pgd, w, Pages(size))
      ensures IsPage(found) && PAGE <= found <= w
      ensures RunFree(tables, pgd, found, Pages(size))
      ensures forall u: nat | IsPage(u) && PAGE <= u < found :: !RunFree(tables, pgd, u, Pages(size))
      ensures forall a: nat | found <= a < found + size :: Unreached(tables, pgd, a)
      ensures forall u: nat | IsPage(u) && PAGE <= u < found :: exists a: nat :: u <= a < u + size && !Unreached(tables, pgd, a)
    {
      hide Agree, WellFormed, WellShaped, PoolOk, Walk, HasSlots, BytePath, Pages, Scanned, RunFree, Unreached;
      PagesNeeded(size);
      SlotsBelowIff(SLOT_END);
      var n := Pages(size);
      var va := PAGE;
      var current := 0;
      ScanStart(tables, pgd, n);
      while true
        invariant 0 <= current < n && va < w + n * PAGE && Scanned(tables, pgd, va, current, n)
        decreases w + n * PAGE - va
      {
        ScanPage(tables, pgd, va, current, n);
        var pa := GetTaskPagePA(va);
        if pa == 0 {
          ScanFree(tables, pgd, va, current, n);
          current := current + 1;
          if current == n {
            ScanFound(tables, pgd, va + PAGE - n * PAGE, w, n);
            BytesFound(tables, pgd, va + PAGE - n * PAGE, w, size);
            return va - current * PAGE + PAGE;
          }
        } else {
          ScanMapped(tables, pgd, va, current, n);
          current := 0;
        }
        va := va + PAGE;
        ScanGoesOn(tables, pgd, va, current, n, w);
      }
    }

    /** The malloc system call, once the allocator has handed out size bytes at pa. */
    method MapAllocation(size: nat, pa: nat, flags: nat, ghost w: nat) returns (va: nat)
      requires Valid() && 0 < size && |pool| >= BLOCKS_PER_PAGE * Pages(size)
      requires IsPage(w) && PAGE <= w && w + Pages(size) * PAGE <= SLOT_END && RunFree(tables, pgd, w, Pages(size))
      requires IsFrame(pa) && pa + Pages(size) * PAGE <= VA_END
      modifies this
      ensures Valid() && |pool| >= |old(pool)| - BLOCKS_PER_PAGE * Pages(size)
      ensures IsPage(va) && PAGE <= va <= w && RunFree(old(tables), pgd, va, Pages(size))
      ensures forall u: nat | IsPage(u) && PAGE <= u < va :: !RunFree(old(tables), pgd, u, Pages(size))
      ensures forall i: nat | i < Pages(size) ::
                Walk(tables, pgd, va + i * PAGE) == Some(PageDescriptor(pa + i * PAGE, MAIR_IDX_NORMAL, flags))
      ensures forall v: nat | IsPage(v) && PageOf(Walk(old(tables), pgd, v)) != 0 ::
                Walk(tables, pgd, v) == Walk(old(tables), pgd, v)
      ensures forall v: nat | IsPage(v) && !(va <= v < va + Pages(size) * PAGE) ::
                Walk(tables, pgd, v) == Walk(old(tables), pgd, v)
      ensures forall a: nat | va <= a < va + size ::
                && Physical(tables, pgd, a) == Some(pa + (a - va)) && HasRights(tables, pgd, a, flags)
                && Unreached(old(tables), pgd, a)
    {
      hide Agree, WellFormed, WellShaped, PoolOk, Walk, HasSlots, BytePath, PageDescriptor, Pages, IsFrame, RunFree, Physical, HasRights, Unreached;
      SlotsBelowIff(SLOT_END);
      va := GetTaskValidVA(size, w);
      ghost var ts := tables;
      MapTaskPage(va, pa, size, flags);
      forall i: nat | i < Pages(size)
        ensures Walk(tables, pgd, va + i * PAGE) == Some(PageDescriptor(pa + i * PAGE, MAIR_IDX_NORMAL, flags))
      {
        PageInRun(va, Pages(size), i);
      }
      forall v: nat | IsPage(v) && PageOf(Walk(ts, pgd, v)) != 0
        ensures Walk(tables, pgd, v) == Walk(ts, pgd, v)
      {
        if va <= v < va + Pages(size) * PAGE {
          InRun(ts, pgd, va, Pages(size), v);
        }
      }
    }

    /** The free system call for the block of `length` bytes mapped at va, once the
        allocator has freed it.  No page of the block translates any more exactly if it
        has two pages at most. */
    method UnmapAllocation(va: nat, length: nat)
      requires Valid() && IsPage(va) && HasSlots(BytePath(va)) && va + Pages(length) * PAGE <= VA_END
      requires PageOf(Walk(tables, pgd, va)) != 0 ==>
                 (forall i | 0 <= i < Pages(length) ::
                    IsPage(StepAt(va, i)) && HasSlots(BytePath(StepAt(va, i))) && Walk(tables, pgd, StepAt(va, i)) != None)
                 && forall i: nat | i < Pages(length) :: Walk(tables, pgd, va + i * PAGE) != None
      modifies this`nodes, this`tables, this`layout
      ensures Valid()
      ensures PageOf(Walk(old(tables), pgd, va)) == 0 ==> tables == old(tables)
      ensures PageOf(Walk(old(tables), pgd, va)) != 0 ==>
                ((forall i: nat | i < Pages(length) :: Walk(tables, pgd, va + i * PAGE) == None) <==> Pages(length) <= 2)
      ensures PageOf(Walk(old(tables), pgd, va)) != 0 ==>
                ((forall a: nat | va <= a < va + length :: Walk(tables, pgd, PageStart(a)) == None) <==> length <= 2 * PAGE)
    {
      hide Agree, WellFormed, WellShaped, PoolOk, Walk, HasSlots, BytePath, Pages, StepAt, Visited, PageStart;
      ghost var n := Pages(length);
      var pa := GetTaskPagePA(va);
      if pa == 0 {
        return;
      }
      UnmapTaskPage(va, length);
      BlockVisited(va, n);
      forall i: nat | i < n
        ensures IsPage(va + i * PAGE)
      {
        PageInRun(va, n, i);
      }
      if n > 2 {
        assert Walk(tables, pgd, va + 2 * PAGE) != None;
      }
      BytesUnmapped(tables, pgd, va, length);
      assert n * PAGE < length + PAGE;
    }
  }

  /** The pages of a block of n pages that are visited. */
  lemma BlockVisited(va: nat, n: nat)
    ensures n <= 2 ==> forall i: nat | i < n :: Visited(va, n, va + i * PAGE)
    ensures n > 2 ==> !Visited(va, n, va + 2 * PAGE)
  {
    assert StepAt(va, 0) == va && StepAt(va, 1) == va + PAGE;
    if n > 2 {
      assert StepAt(va, 2) == va + 3 * PAGE;
      forall i: nat | i < n
        ensures va + 2 * PAGE != StepAt(va, i)
      {
        StepsGrow(va, i);
      }
    } else {
      forall i: nat | i < n
        ensures Visited(va, n, va + i * PAGE)
      {
        assert va + i * PAGE == StepAt(va, i);
      }
    }
  }

  lemma MapTreeRoot(ns: Nodes, l: Layout, root: nat)
    requires WellFormed(ns, l, root, {})
    ensures [] in l.at && l.at[[]] == root
  {
  }

  /** One step down the tree towards q. */
  lemma NodeLink(ns: Nodes, l: Layout, root: nat, pending: set<seq<nat>>, q: seq<nat>, i: nat)
    requires WellFormed(ns, l, root, pending) && HasSlots(q) && i < LEVELS && q[..i] in l.at
    ensures q[..i + 1] == q[..i] + [q[i]]
    ensures l.at[q[..i]] in ns && q[i] < |ns[l.at[q[..i]]].children|
    ensures ns[l.at[q[..i]]].children[q[i]] == if q[..i + 1] in l.at then l.at[q[..i + 1]] else 0
    ensures q[..i + 1] in l.at ==> l.at[q[..i + 1]] != 0
  {
    hide WellFormed, NodeOk;
    assert q[..i + 1] == q[..i] + [q[i]];
    NodeThere(ns, l, root, pending, q[..i]);
    ChildThere(ns, l, q[..i], q[i]);
    if q[..i + 1] in l.at {
      NodeThere(ns, l, root, pending, q[..i + 1]);
    }
  }

  lemma NodeThere(ns: Nodes, l: Layout, root: nat, pending: set<seq<nat>>, p: seq<nat>)
    requires WellFormed(ns, l, root, pending) && p in l.at
    ensures NodeOk(ns, l, p) && l.at[p] != 0
  {
    hide ChildOk, LeafOk;
    assert NodeOk(ns, l, p);
  }

  lemma ChildThere(ns: Nodes, l: Layout, p: seq<nat>, i: nat)
    requires NodeOk(ns, l, p) && |p| < LEVELS && i < SLOTS
    ensures l.at[p] in ns && i < |ns[l.at[p]].children|
    ensures ns[l.at[p]].children[i] == if p + [i] in l.at then l.at[p + [i]] else 0
  {
    assert ChildOk(ns, l, p, i);
  }

  lemma LeafPresent(ns: Nodes, l: Layout, root: nat, q: seq<nat>)
    requires WellFormed(ns, l, root, {}) && q in l.at
    ensures l.at[q] in ns
  {
    assert NodeOk(ns, l, q);
  }

  /** A new inner node on the way to q does not map q. */
  lemma MappedBelow(ns: Nodes, l: Layout, root: nat, q: seq<nat>, i: nat, ns2: Nodes, l2: Layout)
    requires WellFormed(ns, l, root, {}) && HasSlots(q) && i + 1 < LEVELS && q[..i + 1] !in l.at
    requires WellFormed(ns2, l2, root, {}) && l2.at.Keys == l.at.Keys + {q[..i + 1]}
    ensures Mapped(ns2, l2, q) == Mapped(ns, l, q)
  {
    hide WellFormed;
    MapTree.MissingAbove(ns, l, root, {}, q, i + 1);
  }

  lemma PoolSame(pool: seq<nat>, ns: Nodes, ts: Tables, ts2: Tables)
    requires PoolOk(pool, ns, ts) && ts2.Keys == ts.Keys
    ensures PoolOk(pool, ns, ts2)
  {
  }

  lemma RootTable(ts: Tables, s: Shape, pgd: nat)
    requires WellShaped(ts, s, pgd)
    ensures [] in s.at && s.at[[]] == pgd && pgd in ts
  {
    assert TableOk(ts, s, []);
  }

  /** The indexes of an address, one level at a time. */
  lemma PathPrefixes(va: nat)
    ensures var q := TablePath(va);
            && Indexes(q)
            && q[..1] == [] + [va / 0x80_0000_0000 % 512]
            && q[..2] == q[..1] + [va / 0x4000_0000 % 512]
            && q[..3] == q[..2] + [va / 0x20_0000 % 512]
            && q[3] == va / 0x1000 % 512
  {
  }

  lemma NoLeaf(ts: Tables, s: Shape, pgd: nat, q: seq<nat>, k: nat)
    requires WellShaped(ts, s, pgd) && Indexes(q) && k <= 3 && q[..k] !in s.at
    ensures Leaf(ts, s, q) == 0
  {
    PageTable.MissingAbove(ts, s, pgd, q, k);
  }

  lemma FreshTask(root: nat, pgd: nat, ns: Nodes, l: Layout, ts: Tables, s: Shape)
    requires root != 0 && IsFrame(pgd)
    requires ns == map[root := BlankNode(0)] && ts == map[pgd := BlankTable()]
    requires l == Layout(map[[] := root], map[root := []]) && s == Shape(map[[] := pgd], map[pgd := []])
    ensures WellFormed(ns, l, root, {}) && WellShaped(ts, s, pgd) && Agree(ns, l, ts, s)
    ensures forall va :: Walk(ts, pgd, va) == None
  {
    var top: seq<nat> := [];
    forall i: nat | i < SLOTS
      ensures ChildOk(ns, l, top, i)
    {
      assert top + [i] != top;
    }
    forall i: nat | i < ENTRIES
      ensures EntryOk(ts, s, top, i)
    {
      assert top + [i] != top;
    }
    forall va
      ensures Walk(ts, pgd, va) == None
    {
    }
  }

  /** Entry i of a table, seen as a link. */
  lemma TableFacts(ts: Tables, s: Shape, pgd: nat, p: seq<nat>, i: nat)
    requires WellShaped(ts, s, pgd) && p in s.at && |p| < 3 && i < ENTRIES
    ensures s.at[p] in ts
    ensures Present(ts[s.at[p]][i]) <==> p + [i] in s.at
    ensures Present(ts[s.at[p]][i]) ==> KindOf(ts[s.at[p]][i]) == PD_TABLE && FrameOf(ts[s.at[p]][i]) == s.at[p + [i]]
  {
    assert TableOk(ts, s, p) && EntryOk(ts, s, p, i);
    if p + [i] in s.at {
      assert TableOk(ts, s, p + [i]);
      TableDescriptorFields(s.at[p + [i]]);
    }
  }

  lemma PoolHead(pool: seq<nat>, ns: Nodes, ts: Tables)
    requires PoolOk(pool, ns, ts) && pool != []
    ensures pool[0] != 0 && IsFrame(pool[0]) && pool[0] !in ns && pool[0] !in ts
  {
  }

  /** The rest of the pool stays fresh when only its head has been used. */
  lemma PoolTail(pool: seq<nat>, ns: Nodes, ts: Tables, ns2: Nodes, ts2: Tables)
    requires PoolOk(pool, ns, ts) && pool != []
    requires ns2.Keys <= ns.Keys + {pool[0]} && ts2.Keys <= ts.Keys + {pool[0]}
    ensures PoolOk(pool[1..], ns2, ts2)
  {
  }

  lemma LeafInTree(ns: Nodes, l: Layout, root: nat, pending: set<seq<nat>>, q: seq<nat>)
    requires WellFormed(ns, l, root, pending) && q in l.at
    ensures l.at[q] in ns
  {
    assert NodeOk(ns, l, q);
  }

  lemma PoolNodes(pool: seq<nat>, ns: Nodes, ns2: Nodes, ts: Tables)
    requires PoolOk(pool, ns, ts) && ns2.Keys == ns.Keys
    ensures PoolOk(pool, ns2, ts)
  {
  }

  /** Mapping a page in both keeps them in step. */
  lemma MapAgrees(ns: Nodes, l: Layout, ts: Tables, s: Shape, ns2: Nodes, l2: Layout, ts2: Tables, s2: Shape,
                  va: nat, pa: nat, e: nat, flags: nat)
    requires Agree(ns, l, ts, s) && IsPage(va) && IsFrame(pa) && e == PageDescriptor(pa, MAIR_IDX_NORMAL, flags)
    requires forall q | |q| == LEVELS ::
               Mapped(ns2, l2, q) == if q == BytePath(va) then Some(pa) else Mapped(ns, l, q)
    requires forall q | Indexes(q) ::
               Found(ts2, s2, q) == if q == TablePath(va) then Some(e) else Found(ts, s, q)
    ensures Agree(ns2, l2, ts2, s2)
  {
    hide Mapped, Found, BytePath, TablePath, PageDescriptor;
    PageDescriptorFields(pa, MAIR_IDX_NORMAL, flags);
    forall v: nat | IsPage(v)
      ensures PageAgrees(ns2, l2, ts2, s2, v)
    {
      PathPrefixes(v);
      PathsInjective(v, va);
      assert PageAgrees(ns, l, ts, s, v);
    }
  }

  /** What the walk finds follows from the leaf slots. */
  lemma WalksChange(pgd: nat, ts: Tables, s: Shape, ts2: Tables, s2: Shape, va: nat, e: Option<nat>)
    requires WellShaped(ts, s, pgd) && WellShaped(ts2, s2, pgd) && IsPage(va)
    requires forall q | Indexes(q) :: Found(ts2, s2, q) == if q == TablePath(va) then e else Found(ts, s, q)
    ensures forall v: nat | IsPage(v) :: Walk(ts2, pgd, v) == if v == va then e else Walk(ts, pgd, v)
  {
    hide Found, TablePath, Walk, WellShaped;
    forall v: nat | IsPage(v)
      ensures Walk(ts2, pgd, v) == if v == va then e else Walk(ts, pgd, v)
    {
      WalkIsLeaf(ts, s, pgd, v);
      WalkIsLeaf(ts2, s2, pgd, v);
      PathPrefixes(v);
      PathsInjective(v, va);
    }
  }

  /** How many pages size bytes take. */
  function Pages(size: nat): (n: nat)
    ensures size <= n * PAGE < size + PAGE
  {
    (size + PAGE - 1) / PAGE
  }

  // ----- byte addresses -----

  /** The start of the page that holds address a. */
  function PageStart(a: nat): nat {
    a - a % PAGE
  }

  /** Where the hardware finds address a, whatever the rights. */
  function Physical(ts: Tables, pgd: nat, a: nat): Option<nat> {
    match Walk(ts, pgd, PageStart(a)) case Some(e) => Some(FrameOf(e) + a % PAGE) case None => None
  }

  /** Address a is in normal memory, with the rights that flags ask for. */
  predicate HasRights(ts: Tables, pgd: nat, a: nat, flags: nat) {
    match Walk(ts, pgd, PageStart(a))
    case None => false
    case Some(e) => e / 4 % 8 == 1 && e / 0x40 % 4 == flags % 4 && e / 0x40_0000_0000_0000 % 2 == 1 - flags / 4 % 2
  }

  /** Nothing is found at address a. */
  ghost predicate Unreached(ts: Tables, pgd: nat, a: nat) {
    PageOf(Walk(ts, pgd, PageStart(a))) == 0
  }

  lemma InPages(va: nat, size: nat, a: nat)
    requires IsPage(va) && va + Pages(size) * PAGE <= VA_END && va <= a < va + size
    ensures IsPage(PageStart(a)) && va <= PageStart(a) < va + Pages(size) * PAGE
    ensures PageStart(a) == va + (a - va) / PAGE * PAGE && (a - va) / PAGE < Pages(size) && a % PAGE == (a - va) % PAGE
  {
    var q := va / PAGE;
    assert va == q * PAGE;
    InPage(q, a);
  }

  lemma InPage(q: nat, a: nat)
    requires q * PAGE <= a
    ensures a - a % PAGE == q * PAGE + (a - q * PAGE) / PAGE * PAGE && a % PAGE == (a - q * PAGE) % PAGE
    ensures (a - a % PAGE) % PAGE == 0
  {
    var d := a - q * PAGE;
    assert a == (q + d / PAGE) * PAGE + d % PAGE;
  }

  /** Page by page is byte by byte. */
  lemma BytesMapped(ts: Tables, pgd: nat, va: nat, pa: nat, size: nat, flags: nat)
    requires IsPage(va) && va + Pages(size) * PAGE <= VA_END && IsFrame(pa) && pa + Pages(size) * PAGE <= VA_END
    requires forall v: nat | IsPage(v) && va <= v < va + Pages(size) * PAGE ::
               Walk(ts, pgd, v) == Some(PageDescriptor(pa + (v - va), MAIR_IDX_NORMAL, flags))
    ensures forall a: nat | va <= a < va + size :: Physical(ts, pgd, a) == Some(pa + (a - va)) && HasRights(ts, pgd, a, flags)
  {
    hide Walk, PageDescriptor, PageStart, Physical, HasRights, Pages, IsPage, IsFrame;
    forall a: nat | va <= a < va + size
      ensures Physical(ts, pgd, a) == Some(pa + (a - va)) && HasRights(ts, pgd, a, flags)
    {
      InPages(va, size, a);
      ByteMapped(ts, pgd, va, pa, flags, (a - va) / PAGE, a, Pages(size));
    }
  }

  lemma ByteMapped(ts: Tables, pgd: nat, va: nat, pa: nat, flags: nat, k: nat, a: nat, n: nat)
    requires k < n && IsFrame(pa) && pa + n * PAGE <= VA_END && va <= a
    requires PageStart(a) == va + k * PAGE && a % PAGE == (a - va) % PAGE && k == (a - va) / PAGE
    requires Walk(ts, pgd, va + k * PAGE) == Some(PageDescriptor(pa + (va + k * PAGE - va), MAIR_IDX_NORMAL, flags))
    ensures Physical(ts, pgd, a) == Some(pa + (a - va)) && HasRights(ts, pgd, a, flags)
  {
    hide Walk, PageDescriptor, PageStart, FrameOf;
    FrameStep(pa, k);
    PageDescriptorFields(pa + k * PAGE, MAIR_IDX_NORMAL, flags);
    assert a - va == k * PAGE + a % PAGE;
  }

  /** A run of unmapped pages holds size bytes. */
  lemma RunHolds(ts: Tables, pgd: nat, va: nat, size: nat)
    requires IsPage(va) && va + Pages(size) * PAGE <= VA_END
    ensures RunFree(ts, pgd, va, Pages(size)) <==> forall a: nat | va <= a < va + size :: Unreached(ts, pgd, a)
  {
    hide Walk, Pages, PageStart, PageOf;
    if RunFree(ts, pgd, va, Pages(size)) {
      forall a: nat | va <= a < va + size
        ensures Unreached(ts, pgd, a)
      {
        InPages(va, size, a);
        assert PageFree(ts, pgd, va + (a - va) / PAGE * PAGE);
      }
    }
    if forall a: nat | va <= a < va + size :: Unreached(ts, pgd, a) {
      forall i: nat | i < Pages(size)
        ensures PageFree(ts, pgd, va + i * PAGE)
      {
        FirstByte(va, size, i);
        assert Unreached(ts, pgd, va + i * PAGE);
      }
    }
  }

  lemma FirstByte(va: nat, size: nat, i: nat)
    requires IsPage(va) && i < Pages(size)
    ensures va + i * PAGE < va + size && PageStart(va + i * PAGE) == va + i * PAGE
  {
  }

  lemma BytesFound(ts: Tables, pgd: nat, found: nat, w: nat, size: nat)
    requires IsPage(found) && found <= w && w + Pages(size) * PAGE <= VA_END && RunFree(ts, pgd, found, Pages(size))
    requires forall u: nat | IsPage(u) && PAGE <= u < found :: !RunFree(ts, pgd, u, Pages(size))
    ensures forall a: nat | found <= a < found + size :: Unreached(ts, pgd, a)
    ensures forall u: nat | IsPage(u) && PAGE <= u < found :: exists a: nat :: u <= a < u + size && !Unreached(ts, pgd, a)
  {
    hide RunFree, Unreached, Pages, IsPage;
    RunHolds(ts, pgd, found, size);
    forall u: nat | IsPage(u) && PAGE <= u < found
      ensures exists a: nat :: u <= a < u + size && !Unreached(ts, pgd, a)
    {
      RunHolds(ts, pgd, u, size);
    }
  }

  /** No byte of a block is found exactly if no page of it is. */
  lemma BytesUnmapped(ts: Tables, pgd: nat, va: nat, size: nat)
    requires IsPage(va) && va + Pages(size) * PAGE <= VA_END
    ensures (forall i: nat | i < Pages(size) :: Walk(ts, pgd, va + i * PAGE) == None)
            <==> forall a: nat | va <= a < va + size :: Walk(ts, pgd, PageStart(a)) == None
  {
    hide Walk, Pages, PageStart;
    if forall i: nat | i < Pages(size) :: Walk(ts, pgd, va + i * PAGE) == None {
      forall a: nat | va <= a < va + size
        ensures Walk(ts, pgd, PageStart(a)) == None
      {
        InPages(va, size, a);
      }
    }
    if forall a: nat | va <= a < va + size :: Walk(ts, pgd, PageStart(a)) == None {
      forall i: nat | i < Pages(size)
        ensures Walk(ts, pgd, va + i * PAGE) == None
      {
        FirstByte(va, size, i);
        assert Walk(ts, pgd, PageStart(va + i * PAGE)) == None;
      }
    }
  }

  lemma PagesNeeded(size: nat)
    ensures 0 < size ==> 0 < Pages(size)
  {
  }

  function PageOf(w: Option<nat>): nat {
    match w case Some(e) => FrameOf(e) case None => 0
  }

  lemma FrameStep(pa: nat, p: nat)
    requires IsFrame(pa) && pa + p * PAGE < VA_END
    ensures IsFrame(pa + p * PAGE)
  {
    var k := pa / PAGE;
    assert pa == k * PAGE;
    assert pa + p * PAGE == (k + p) * PAGE;
  }

  /** A page that the tables translate is in the tree. */
  lemma InTree(ns: Nodes, l: Layout, ts: Tables, s: Shape, root: nat, pgd: nat, va: nat)
    requires Agree(ns, l, ts, s) && WellShaped(ts, s, pgd) && IsPage(va) && Walk(ts, pgd, va) != None
    ensures BytePath(va) in l.at
  {
    WalkIsLeaf(ts, s, pgd, va);
    assert PageAgrees(ns, l, ts, s, va);
  }

  lemma PrefixesInTree(ns: Nodes, l: Layout, root: nat, q: seq<nat>)
    requires WellFormed(ns, l, root, {}) && |q| == LEVELS && q in l.at
    ensures forall i | 0 <= i <= LEVELS :: q[..i] in l.at
  {
    forall i | 0 <= i <= LEVELS
      ensures q[..i] in l.at
    {
      if q[..i] !in l.at {
        MapTree.MissingAbove(ns, l, root, {}, q, i);
      }
    }
  }

  lemma LeafParent(ns: Nodes, l: Layout, q: seq<nat>)
    requires |q| == LEVELS && NodeOk(ns, l, q) && NodeOk(ns, l, q[..LEVELS - 1])
    ensures ns[l.at[q]].parent == l.at[q[..LEVELS - 1]] && l.at[q[..LEVELS - 1]] in ns
    ensures q[LEVELS - 1] < |ns[l.at[q[..LEVELS - 1]]].children|
  {
  }

  lemma PoolFewerNodes(pool: seq<nat>, ns: Nodes, ns2: Nodes, ts: Tables)
    requires PoolOk(pool, ns, ts) && ns2.Keys <= ns.Keys
    ensures PoolOk(pool, ns2, ts)
  {
  }

  lemma UnmapAgrees(ns: Nodes, l: Layout, ts: Tables, ns2: Nodes, l2: Layout, ts2: Tables, s: Shape, va: nat)
    requires Agree(ns, l, ts, s) && IsPage(va)
    requires forall q | |q| == LEVELS :: Mapped(ns2, l2, q) == if q == BytePath(va) then None else Mapped(ns, l, q)
    requires forall q | Indexes(q) :: Found(ts2, s, q) == if q == TablePath(va) then None else Found(ts, s, q)
    ensures Agree(ns2, l2, ts2, s)
  {
    hide Mapped, Found, BytePath, TablePath;
    forall v: nat | IsPage(v)
      ensures PageAgrees(ns2, l2, ts2, s, v)
    {
      PathPrefixes(v);
      PathsInjective(v, va);
      assert PageAgrees(ns, l, ts, s, v);
    }
  }

  /** A page without a leaf is not translated. */
  lemma UnmappedPages(ns: Nodes, l: Layout, ts: Tables, s: Shape)
    requires Agree(ns, l, ts, s)
    ensures forall v: nat | IsPage(v) && BytePath(v) !in l.at :: Found(ts, s, TablePath(v)) == None
  {
    hide BytePath, TablePath, Found;
    forall v: nat | IsPage(v) && BytePath(v) !in l.at
      ensures Found(ts, s, TablePath(v)) == None
    {
      assert PageAgrees(ns, l, ts, s, v);
    }
  }

  // ----- which pages UnmapTaskPage visits -----

  /** The i-th triangular number of pages past va. */
  function StepAt(va: nat, i: nat): nat {
    if i == 0 then va else StepAt(va, i - 1) + i * PAGE
  }

  ghost predicate Visited(va: nat, n: nat, v: nat) {
    exists i: nat | i < n :: v == StepAt(va, i)
  }

  lemma VisitedStep(va: nat, n: nat, v: nat)
    ensures Visited(va, n + 1, v) <==> Visited(va, n, v) || v == StepAt(va, n)
  {
  }

  lemma {:induction false} StepsGrow(va: nat, i: nat)
    ensures va + i * PAGE <= StepAt(va, i)
    ensures forall j: nat | j < i :: StepAt(va, j) < StepAt(va, i)
    decreases i
  {
    if i > 0 {
      StepsGrow(va, i - 1);
    }
  }

  /** The pages visited are the pages asked for exactly when these are two at most. */
  lemma UnmapsRangeIffTwo(va: nat, n: nat)
    requires IsPage(va) && va + n * PAGE <= VA_END
    ensures (forall v: nat | IsPage(v) :: Visited(va, n, v) <==> va <= v < va + n * PAGE) <==> n <= 2
  {
    assert StepAt(va, 1) == va + PAGE;
    if n <= 2 {
      forall v: nat | IsPage(v)
        ensures Visited(va, n, v) <==> va <= v < va + n * PAGE
      {
        if va <= v < va + n * PAGE {
          assert v == StepAt(va, 0) || v == StepAt(va, 1);
        }
      }
    } else {
      var third := va + 2 * PAGE;
      assert StepAt(va, 2) == va + 3 * PAGE;
      forall i: nat | i < n
        ensures third != StepAt(va, i)
      {
        StepsGrow(va, i);
      }
      assert IsPage(third) && va <= third < va + n * PAGE;
    }
  }

  /** Two allocations, of three pages and of one, and the first is freed: a page of it goes
      on translating. */
  method FreedPageStays() returns (t: Task, va: nat, other: nat)
    ensures exists i: nat :: i < 3 && Walk(t.tables, t.pgd, va + i * PAGE) != None
  {
    hide Agree, WellFormed, WellShaped, PoolOk, Walk, HasSlots, BytePath, PageDescriptor, RunFree, StepAt, IsFrame, PageOf;
    hide Task.Shaped;
    FirstBlocks();
    t := new Task(PAGE, 2 * PAGE, FirstPool());
    BlankRun(t.tables, t.pgd, PAGE, 3);
    va := t.MapAllocation(3 * PAGE, 64 * PAGE, 0, PAGE);
    ThirdDistance();
    assert va == PAGE;
    ThreeMapped(t.tables, t.pgd);
    BlankRun(t.tables, t.pgd, 4 * PAGE, 1);
    ghost var ts := t.tables;
    other := t.MapAllocation(PAGE, 80 * PAGE, 0, 4 * PAGE);
    NotFirstThree(ts, t.pgd, other);
    BothThere(ts, t.tables, t.pgd, PageDescriptor(80 * PAGE + 0 * PAGE, MAIR_IDX_NORMAL, 0));
    LowPageHasSlots(PAGE);
    t.UnmapAllocation(va, 3 * PAGE);
  }

  function FirstPool(): seq<nat> {
    seq(44, i requires 0 <= i < 44 => (i + 16) * PAGE)
  }

  lemma FirstBlocks()
    ensures PoolOk(FirstPool(), map[2 * PAGE := BlankNode(0)], map[PAGE := BlankTable()])
    ensures IsFrame(PAGE) && IsFrame(64 * PAGE) && IsFrame(80 * PAGE)
  {
    forall i | 0 <= i < 44
      ensures IsFrame(FirstPool()[i])
    {
      assert (i + 16) * PAGE / 0x1000 == i + 16;
    }
  }

  lemma BlankRun(ts: Tables, pgd: nat, va: nat, n: nat)
    requires forall i: nat | i < n :: Walk(ts, pgd, va + i * PAGE) == None
    ensures RunFree(ts, pgd, va, n)
  {
  }

  lemma ThirdDistance()
    ensures StepAt(PAGE, 0) == PAGE && StepAt(PAGE, 1) == 2 * PAGE && StepAt(PAGE, 2) == 4 * PAGE
  {
    assert StepAt(PAGE, 1) == StepAt(PAGE, 0) + PAGE;
  }

  lemma ThreeMapped(ts: Tables, pgd: nat)
    requires forall i: nat | i < 3 :: Walk(ts, pgd, PAGE + i * PAGE) == Some(PageDescriptor(64 * PAGE + i * PAGE, MAIR_IDX_NORMAL, 0))
    ensures forall i: nat | 1 <= i < 4 :: PageOf(Walk(ts, pgd, i * PAGE)) != 0
  {
    hide Walk, PageDescriptor, FrameOf;
    FirstBlocks();
    forall i: nat | 1 <= i < 4
      ensures PageOf(Walk(ts, pgd, i * PAGE)) != 0
    {
      FrameStep(64 * PAGE, i - 1);
      PageDescriptorFields(64 * PAGE + (i - 1) * PAGE, MAIR_IDX_NORMAL, 0);
      assert Walk(ts, pgd, PAGE + (i - 1) * PAGE) == Some(PageDescriptor(64 * PAGE + (i - 1) * PAGE, MAIR_IDX_NORMAL, 0));
    }
  }

  /** Both blocks are mapped where the first one is to be freed. */
  lemma BothThere(ts: Tables, ts2: Tables, pgd: nat, e: nat)
    requires forall i: nat | 1 <= i < 4 :: PageOf(Walk(ts, pgd, i * PAGE)) != 0
    requires forall v: nat | IsPage(v) && PageOf(Walk(ts, pgd, v)) != 0 :: Walk(ts2, pgd, v) == Walk(ts, pgd, v)
    requires Walk(ts2, pgd, 4 * PAGE + 0 * PAGE) == Some(e)
    ensures forall i: nat | i < 3 ::
              IsPage(StepAt(PAGE, i)) && HasSlots(BytePath(StepAt(PAGE, i))) && Walk(ts2, pgd, StepAt(PAGE, i)) != None
    ensures forall i: nat | i < 3 :: Walk(ts2, pgd, PAGE + i * PAGE) != None
  {
    hide Walk, HasSlots, BytePath, StepAt;
    ThirdDistance();
    forall i: nat | 1 <= i < 4
      ensures Walk(ts2, pgd, i * PAGE) != None
    {
      assert IsPage(i * PAGE);
    }
    forall i: nat | i < 3
      ensures Walk(ts2, pgd, PAGE + i * PAGE) != None
    {
      assert PAGE + i * PAGE == (i + 1) * PAGE;
    }
    forall i: nat | i < 3
      ensures IsPage(StepAt(PAGE, i)) && HasSlots(BytePath(StepAt(PAGE, i))) && Walk(ts2, pgd, StepAt(PAGE, i)) != None
    {
      assert StepAt(PAGE, i) == 1 * PAGE || StepAt(PAGE, i) == 2 * PAGE || StepAt(PAGE, i) == 4 * PAGE;
      LowPageHasSlots(StepAt(PAGE, i));
    }
  }

  lemma NotFirstThree(ts: Tables, pgd: nat, v: nat)
    requires forall i: nat | 1 <= i < 4 :: PageOf(Walk(ts, pgd, i * PAGE)) != 0
    requires IsPage(v) && PAGE <= v <= 4 * PAGE && RunFree(ts, pgd, v, 1)
    ensures v == 4 * PAGE
  {
    assert PageFree(ts, pgd, v + 0 * PAGE);
    var i := v / PAGE;
    assert v == i * PAGE;
  }

  // ----- runs of unmapped pages -----

  predicate PageFree(ts: Tables, pgd: nat, va: nat) {
    PageOf(Walk(ts, pgd, va)) == 0
  }

  ghost predicate RunFree(ts: Tables, pgd: nat, va: nat, n: nat) {
    forall i: nat | i < n :: PageFree(ts, pgd, va + i * PAGE)
  }

  lemma RunExtends(ts: Tables, pgd: nat, va: nat, n: nat)
    requires RunFree(ts, pgd, va, n) && PageFree(ts, pgd, va + n * PAGE)
    ensures RunFree(ts, pgd, va, n + 1)
  {
    hide PageFree;
    forall i: nat | i < n + 1
      ensures PageFree(ts, pgd, va + i * PAGE)
    {
      assert i == n || PageFree(ts, pgd, va + i * PAGE);
    }
  }

  lemma OnePage(va: nat, v: nat)
    requires IsPage(va) && IsPage(v) && va <= v < va + PAGE
    ensures v == va
  {
  }

  lemma PageInRun(va: nat, n: nat, i: nat)
    requires IsPage(va) && i < n && va + n * PAGE <= VA_END
    ensures IsPage(va + i * PAGE) && va <= va + i * PAGE < va + n * PAGE
  {
  }

  lemma WholePagesApart(va: nat, v: nat)
    requires IsPage(va) && IsPage(v) && va <= v
    ensures v == va + (v - va) / PAGE * PAGE
  {
  }

  lemma InRun(ts: Tables, pgd: nat, va: nat, n: nat, v: nat)
    requires RunFree(ts, pgd, va, n) && IsPage(va) && IsPage(v) && va <= v < va + n * PAGE
    ensures PageFree(ts, pgd, v)
  {
    hide PageFree;
    var i := (v - va) / PAGE;
    WholePagesApart(va, v);
    assert v == va + i * PAGE;
    assert PageFree(ts, pgd, va + i * PAGE);
  }

  /** The pages below va have been looked at, the last `current` of them are unmapped,
      and none of them starts a run of n unmapped pages that ends by va. */
  ghost predicate Scanned(ts: Tables, pgd: nat, va: nat, current: nat, n: nat) {
    && va % PAGE == 0 && PAGE + current * PAGE <= va && RunFree(ts, pgd, va - current * PAGE, current)
    && (va - current * PAGE == PAGE || !PageFree(ts, pgd, va - current * PAGE - PAGE))
    && forall u: nat | IsPage(u) && PAGE <= u && u + n * PAGE <= va :: !RunFree(ts, pgd, u, n)
  }

  lemma ScanStart(ts: Tables, pgd: nat, n: nat)
    requires 0 < n
    ensures Scanned(ts, pgd, PAGE, 0, n)
  {
  }

  lemma ScanPage(ts: Tables, pgd: nat, va: nat, current: nat, n: nat)
    requires Scanned(ts, pgd, va, current, n) && va < VA_END
    ensures IsPage(va) && PAGE + current * PAGE <= va
  {
  }

  lemma RunEnd(u: nat, n: nat)
    requires u % PAGE == 0
    ensures (u + n * PAGE) % PAGE == 0
  {
  }

  lemma NothingFree(ts: Tables, pgd: nat, va: nat)
    ensures RunFree(ts, pgd, va, 0)
  {
  }

  lemma ScanMapped(ts: Tables, pgd: nat, va: nat, current: nat, n: nat)
    requires Scanned(ts, pgd, va, current, n) && 0 < n && !PageFree(ts, pgd, va) && va < VA_END
    ensures Scanned(ts, pgd, va + PAGE, 0, n)
  {
    hide PageFree, RunFree;
    NothingFree(ts, pgd, va + PAGE);
    forall u: nat | IsPage(u) && PAGE <= u && u + n * PAGE <= va + PAGE
      ensures !RunFree(ts, pgd, u, n)
    {
      if u + n * PAGE > va {
        RunEnd(u, n);
        SamePage(u + n * PAGE, va);
        MappedInRun(ts, pgd, u, n, va);
      }
    }
  }

  /** Page addresses less than a page apart are the same. */
  lemma SamePage(v: nat, w: nat)
    requires v % PAGE == 0 && w % PAGE == 0 && w < v <= w + PAGE
    ensures v == w + PAGE
  {
  }

  lemma ScanFree(ts: Tables, pgd: nat, va: nat, current: nat, n: nat)
    requires Scanned(ts, pgd, va, current, n) && current < n && PageFree(ts, pgd, va) && va < VA_END
    ensures current + 1 == n ==>
              IsPage(va + PAGE - n * PAGE) && PAGE <= va + PAGE - n * PAGE && RunFree(ts, pgd, va + PAGE - n * PAGE, n)
    ensures current + 1 == n ==>
              forall u: nat | IsPage(u) && PAGE <= u < va + PAGE - n * PAGE :: !RunFree(ts, pgd, u, n)
    ensures current + 1 < n ==> Scanned(ts, pgd, va + PAGE, current + 1, n)
  {
    hide PageFree, RunFree;
    RunExtends(ts, pgd, va - current * PAGE, current);
    forall u: nat | current + 1 < n && IsPage(u) && PAGE <= u && u + n * PAGE <= va + PAGE
      ensures !RunFree(ts, pgd, u, n)
    {
      if u + n * PAGE > va {
        RunEnd(u, n);
        SamePage(u + n * PAGE, va);
        MappedInRun(ts, pgd, u, n, va - current * PAGE - PAGE);
      }
    }
  }

  /** A run known to be unmapped has not been passed yet. */
  lemma ScanGoesOn(ts: Tables, pgd: nat, va: nat, current: nat, n: nat, w: nat)
    requires IsPage(w) && PAGE <= w && RunFree(ts, pgd, w, n)
    requires Scanned(ts, pgd, va, current, n)
    ensures va < w + n * PAGE
  {
  }

  lemma ScanFound(ts: Tables, pgd: nat, found: nat, w: nat, n: nat)
    requires IsPage(w) && PAGE <= w && RunFree(ts, pgd, w, n)
    requires forall u: nat | IsPage(u) && PAGE <= u < found :: !RunFree(ts, pgd, u, n)
    ensures found <= w
  {
  }

  lemma MappedInRun(ts: Tables, pgd: nat, u: nat, n: nat, v: nat)
    requires IsPage(u) && IsPage(v) && u <= v < u + n * PAGE && !PageFree(ts, pgd, v)
    ensures !RunFree(ts, pgd, u, n)
  {
    hide PageFree;
    var i := (v - u) / PAGE;
    assert v == u + i * PAGE;
  }
}
