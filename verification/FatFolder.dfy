/** Directories on a volume: their clusters seen as slots, listed along the chain, and
    what creating a file and writing to one mean for the listing. */
module FatFolder {
  import opened Options
  import opened Bytes
  import opened Runs
  import opened Spans
  import opened FatChain
  import opened FatDisk
  import opened FatFile
  import opened FatDirectory
  import opened FatNames
  import opened FatEntries
  import opened Fat32

  // ----- bytes and slots -----

  predicate IsSlots(b: seq<Byte>) {
    |b| % SLOT_SIZE == 0
  }

  function SlotsOf(b: seq<Byte>): (s: seq<Slot>)
    ensures IsSlots(b) ==> |s| * SLOT_SIZE == |b|
    decreases |b|
  {
    if |b| < SLOT_SIZE then [] else [SlotAt(b, 0)] + SlotsOf(b[SLOT_SIZE..])
  }

  function BytesOf(slots: seq<Slot>): (b: seq<Byte>)
    ensures |b| == |slots| * SLOT_SIZE
  {
    if slots == [] then [] else slots[0] + BytesOf(slots[1..])
  }

  lemma {:induction false} SlotsOfBytes(slots: seq<Slot>)
    ensures SlotsOf(BytesOf(slots)) == slots
    decreases |slots|
  {
    if slots != [] {
      var b := BytesOf(slots);
      SlotsOfBytes(slots[1..]);
      assert SlotAt(b, 0) == slots[0] && b[SLOT_SIZE..] == BytesOf(slots[1..]);
    }
  }

  lemma {:induction false} SlotsConcat(a: seq<Byte>, b: seq<Byte>)
    requires IsSlots(a) && IsSlots(b)
    ensures IsSlots(a + b) && SlotsOf(a + b) == SlotsOf(a) + SlotsOf(b)
    decreases |a|
  {
    if a == [] {
      assert a + b == b;
    } else {
      SlotsConcat(a[SLOT_SIZE..], b);
      assert SlotAt(a + b, 0) == SlotAt(a, 0) && (a + b)[SLOT_SIZE..] == a[SLOT_SIZE..] + b;
    }
  }

  lemma SlotsStep(b: seq<Byte>)
    requires IsSlots(b) && SLOT_SIZE <= |b|
    ensures SlotsOf(b) == [SlotAt(b, 0)] + SlotsOf(b[SLOT_SIZE..])
  {
  }

  /** Replacing the bytes of slot k replaces that slot. */
  lemma {:induction false} SlotReplaced(b: seq<Byte>, k: nat, e: Slot)
    requires IsSlots(b) && (k + 1) * SLOT_SIZE <= |b|
    ensures SlotsOf(Splice(b, k * SLOT_SIZE, e)) == SlotsOf(b)[k := e]
    ensures SlotsOf(b)[k] == SlotAt(b, k * SLOT_SIZE)
    decreases k
  {
    hide SlotsOf;
    var c := Splice(b, k * SLOT_SIZE, e);
    SlotsLeft(|b|);
    SlotsStep(b);
    SlotsStep(c);
    if k == 0 {
      assert SlotAt(c, 0) == e && c[SLOT_SIZE..] == b[SLOT_SIZE..];
    } else {
      var rest := b[SLOT_SIZE..];
      SlotReplaced(rest, k - 1, e);
      RestReplaced(b, k, e);
      assert SlotAt(c, 0) == SlotAt(b, 0);
    }
  }

  lemma RestReplaced(b: seq<Byte>, k: nat, e: Slot)
    requires 0 < k && (k + 1) * SLOT_SIZE <= |b|
    ensures Splice(b, k * SLOT_SIZE, e)[SLOT_SIZE..] == Splice(b[SLOT_SIZE..], (k - 1) * SLOT_SIZE, e)
    ensures SlotAt(b[SLOT_SIZE..], (k - 1) * SLOT_SIZE) == SlotAt(b, k * SLOT_SIZE)
  {
  }

  // ----- names -----

  function Names(entries: seq<Entry>): (n: seq<seq<Byte>>)
    ensures |n| == |entries|
  {
    seq(|entries|, i requires 0 <= i < |entries| => entries[i].name)
  }

  lemma NamesCons(e: Entry, rest: seq<Entry>)
    ensures Names([e] + rest) == [e.name] + Names(rest)
  {
  }

  /** The names listed depend on a short entry only through its first twelve bytes. */
  lemma {:induction false} NamesKept(slots: seq<Slot>, k: nat, e: Slot, long: seq<Slot>)
    requires k < |slots| && slots[k][..12] == e[..12] && e[11] != ATTR_LONG
    ensures Names(Listing(slots[k := e], long)) == Names(Listing(slots, long))
    decreases |slots|
  {
    hide Names;
    var after := slots[k := e];
    if k == 0 {
      assert after[1..] == slots[1..];
      SameHead(slots[0], e, long);
      NamesCons(Entry(NameOf(long, e), e), Listing(slots[1..], []));
      NamesCons(Entry(NameOf(long, e), slots[0]), Listing(slots[1..], []));
    } else if slots[0][0] != 0 {
      var next := if slots[0][0] == DELETED then long else if slots[0][11] == ATTR_LONG then long + [slots[0]] else [];
      assert after[1..] == slots[1..][k - 1 := e];
      NamesKept(slots[1..], k - 1, e, next);
      var head := Entry(NameOf(long, slots[0]), slots[0]);
      NamesCons(head, Listing(slots[1..], []));
      NamesCons(head, Listing(after[1..], []));
    }
  }

  lemma SameHead(s: Slot, e: Slot, long: seq<Slot>)
    requires s[..12] == e[..12]
    ensures s[0] == e[0] && s[11] == e[11] && NameOf(long, s) == NameOf(long, e)
  {
    assert s[..12][0] == e[..12][0] && s[..12][11] == e[..12][11];
    assert s[..8] == s[..12][..8] && e[..8] == e[..12][..8];
    assert s[8..11] == s[..12][8..11] && e[8..11] == e[..12][8..11];
    assert s[..Spaces(s[..8])] == s[..8][..Spaces(s[..8])] && e[..Spaces(e[..8])] == e[..8][..Spaces(e[..8])];
  }

  /** Updating the slot a file was read from keeps all names of the directory. */
  lemma UpdateKeepsNames(b: seq<Byte>, own: nat, entry: Slot)
    requires IsSlots(b) && (own + 1) * SLOT_SIZE <= |b|
    requires SlotAt(b, own * SLOT_SIZE)[..12] == entry[..12] && entry[11] != ATTR_LONG
    requires forall k | 0 <= k < own :: Key(SlotAt(b, k * SLOT_SIZE)) != Key(entry)
    ensures Names(Listing(SlotsOf(Updated(b, entry)), [])) == Names(Listing(SlotsOf(b), []))
  {
    hide Listing, Names, FindSlot, SlotsOf;
    SameKey(SlotAt(b, own * SLOT_SIZE), entry);
    FindSlotSkips(b, Key(entry), own);
    FindSlotHere(b, Key(entry), own * SLOT_SIZE);
    SlotReplaced(b, own, entry);
    NamesKept(SlotsOf(b), own, entry, []);
  }

  lemma SameKey(s: Slot, e: Slot)
    requires s[..12] == e[..12]
    ensures Key(s) == Key(e)
  {
    assert s[..11] == s[..12][..11] && e[..11] == e[..12][..11];
  }

  /** A write to a file keeps all names in its directory, over all its clusters. */
  lemma WriteKeepsNames(fat0: Fat, data0: Data, fat: Fat, data: Data, ch0: seq<nat>, app: seq<nat>, dir: seq<nat>,
                        cl: nat, off: nat, buf: seq<Byte>, entry: Slot, own: nat)
    requires Updates(fat0, data0, fat, data, ch0, app, dir, cl, off, buf, entry) && cl % SLOT_SIZE == 0
    requires InData(data0, dir) && (own + 1) * SLOT_SIZE <= Start(|dir|, cl)
    requires var b := FileBytes(data0, dir, cl);
             && SlotAt(b, own * SLOT_SIZE)[..12] == entry[..12] && entry[11] != ATTR_LONG
             && forall k | 0 <= k < own :: Key(SlotAt(b, k * SLOT_SIZE)) != Key(entry)
    ensures IsSlots(FileBytes(data0, dir, cl)) && IsSlots(FileBytes(data, dir, cl))
    ensures Names(Listing(SlotsOf(FileBytes(data, dir, cl)), [])) == Names(Listing(SlotsOf(FileBytes(data0, dir, cl)), []))
  {
    hide FileBytes, Grown, IsChain, Listing, Names, SlotsOf, Updated, Key;
    StartIsSlots(|dir|, cl);
    UpdateKeepsNames(FileBytes(data0, dir, cl), own, entry);
  }

  lemma {:induction false} StartIsSlots(k: nat, cl: nat)
    requires cl % SLOT_SIZE == 0
    ensures Start(k, cl) % SLOT_SIZE == 0
    decreases k
  {
    if k > 0 {
      StartIsSlots(k - 1, cl);
    }
  }

  // ----- listing a directory -----

  method ToSlots(b: seq<Byte>) returns (buf: array<Slot>)
    requires IsSlots(b)
    ensures fresh(buf) && buf[..] == SlotsOf(b)
  {
    var slots := SlotsOf(b);
    buf := new Slot[|slots|](i requires 0 <= i < |slots| => slots[i]);
  }

  /** The slots of a chain, cluster after cluster. */
  ghost function ChainSlots(data: Data, ch: seq<nat>, cl: nat): seq<Slot>
    requires Sized(data, cl) && InData(data, ch)
  {
    SlotsOf(FileBytes(data, ch, cl))
  }

  /** The slots from cluster i of a directory on. */
  ghost function SlotsFrom(data: Data, dir: seq<nat>, cl: nat, i: nat): seq<Slot>
    requires Sized(data, cl) && InData(data, dir) && cl % SLOT_SIZE == 0
    decreases |dir| - i
  {
    if i >= |dir| then [] else SlotsOf(data[dir[i]]) + SlotsFrom(data, dir, cl, i + 1)
  }

  lemma {:induction false} SlotsAlong(data: Data, dir: seq<nat>, cl: nat, i: nat)
    requires Sized(data, cl) && InData(data, dir) && cl % SLOT_SIZE == 0 && i <= |dir|
    ensures InData(data, dir[..i]) && IsSlots(FileBytes(data, dir[..i], cl))
    ensures SlotsFrom(data, dir, cl, 0) == SlotsOf(FileBytes(data, dir[..i], cl)) + SlotsFrom(data, dir, cl, i)
    decreases i
  {
    hide FileBytes, SlotsOf;
    StartIsSlots(i, cl);
    InDataParts(data, dir[..i], dir[i..]);
    if i == 0 {
      FileBytesNone(data, cl);
      assert dir[..0] == [];
      NoSlots();
    } else {
      SlotsAlong(data, dir, cl, i - 1);
      FileBytesSnoc(data, dir[..i], cl);
      assert dir[..i][..i - 1] == dir[..i - 1];
      SlotsConcat(FileBytes(data, dir[..i - 1], cl), data[dir[i - 1]]);
    }
  }

  lemma NoSlots()
    ensures SlotsOf([]) == []
  {
  }

  /** The entries of a directory, cluster after cluster. */
  method GetFatEntries(v: FatVolume, cluster: nat, ghost dir: seq<nat>) returns (nodes: seq<Entry>)
    requires v.Valid() && |v.Table()| <= END && IsChain(v.Table(), dir) && InData(v.Content(), dir) && cluster == dir[0]
    ensures nodes == Listing(ChainSlots(v.Content(), dir, v.g.ClusterSize()), [])
  {
    hide FatOf, DataOf, FileBytes, IsChain, InData, Sized, Listing, Pending, NoEnd, SlotsOf, SlotsFrom, Geometry.Fits, Geometry.ClusterSize;
    ClusterIsSlots(v.g);
    ghost var data, cl := v.Content(), v.g.ClusterSize();
    ghost var all := SlotsFrom(data, dir, cl, 0);
    ChainStarts(v.Table(), dir);
    SlotsAlong(data, dir, cl, |dir|);
    assert dir[..|dir|] == dir;
    SlotsEnd(data, dir, cl);
    assert all == SlotsOf(FileBytes(data, dir, cl));
    nodes := [];
    var long: seq<Slot> := [];
    var current := cluster;
    ghost var i := 0;
    while true
      invariant 0 <= i < |dir| && current == dir[i]
      invariant Listing(all, []) == nodes + Listing(SlotsFrom(data, dir, cl, i), long)
      decreases |dir| - i
    {
      ChainNext(v.Table(), dir, i);
      SlotsNext(data, dir, cl, i);
      var bytes := v.ReadCluster(current);
      var buf := ToSlots(bytes);
      ghost var rest, before := SlotsFrom(data, dir, cl, i + 1), long;
      var ended;
      nodes, long, ended := ListCluster(buf, nodes, long);
      if ended {
        EndsHere(buf[..], rest, before);
        assert Listing(all, []) == nodes;
        return;
      }
      ListingParts(buf[..], rest, before);
      current := v.NextCluster(current);
      if current == 0 {
        assert i + 1 == |dir| && rest == [];
        ListingNothing(long);
        return;
      }
      i := i + 1;
    }
  }

  lemma ClusterIsSlots(g: Geometry)
    ensures g.ClusterSize() % SLOT_SIZE == 0
  {
    assert g.ClusterSize() == (g.sectorsPerCluster * SLOTS_PER_SECTOR) * SLOT_SIZE;
  }

  lemma ChainStarts(fat: Fat, dir: seq<nat>)
    requires IsChain(fat, dir)
    ensures dir != []
  {
  }

  lemma SlotsNext(data: Data, dir: seq<nat>, cl: nat, i: nat)
    requires Sized(data, cl) && InData(data, dir) && cl % SLOT_SIZE == 0 && i < |dir|
    ensures 2 <= dir[i] < |data| && IsSlots(data[dir[i]])
    ensures SlotsFrom(data, dir, cl, i) == SlotsOf(data[dir[i]]) + SlotsFrom(data, dir, cl, i + 1)
  {
  }

  lemma SlotsEnd(data: Data, dir: seq<nat>, cl: nat)
    requires Sized(data, cl) && InData(data, dir) && cl % SLOT_SIZE == 0
    ensures SlotsFrom(data, dir, cl, |dir|) == []
  {
  }

  // ----- creating a file -----

  /** Cluster c has n free slots in a row. */
  ghost predicate RoomIn(data: Data, c: nat, n: nat) {
    2 <= c < |data| && IsSlots(data[c]) && !NoneBefore(SlotsOf(data[c]), |SlotsOf(data[c])|, n)
  }

  /** The effect of a creation: a new file at slot k of cluster i of the directory, the
      first one with room, behind which the chain may have grown by the clusters app; no
      other cluster has changed. */
  ghost predicate Created(fat0: Fat, data0: Data, fat: Fat, data: Data, dir: seq<nat>, app: seq<nat>, i: nat, k: nat,
                          long: seq<Slot>, name: seq<Byte>, slot: Slot)
  {
    && Grown(fat0, fat, dir, app)
    && |data0| == |data| == |fat| && InData(data0, dir + app)
    && i < |dir + app| && (app == [] || i + 1 == |dir + app|)
    && (forall j | 0 <= j < i :: !RoomIn(data0, (dir + app)[j], PieceCount(name) + 1))
    && HoldsPieces(long, name, PieceCount(name), Checksum(slot[..11], 11))
    && IsSlots(data0[(dir + app)[i]]) && FirstRoom(SlotsOf(data0[(dir + app)[i]]), k, |long| + 1)
    && data == data0[(dir + app)[i] := BytesOf(WithFile(SlotsOf(data0[(dir + app)[i]]), k, long, slot))]
  }

  /** Creates a file in a cluster of a directory on the volume, if there is room in it. */
  method CreateInCluster(v: FatVolume, parent: nat, name: seq<Byte>, short: seq<Byte>, attrs: Byte)
    returns (at: Option<nat>, title: seq<Byte>, ghost long: seq<Slot>)
    requires v.Valid() && 2 <= parent < v.g.Entries() && IsFileName(name) && |short| == 11
    modifies v`disk
    ensures v.Valid() && |v.disk| == |old(v.disk)| && v.Table() == old(v.Table()) && IsSlots(old(v.Content())[parent])
    ensures at.None? ==> v.Content() == old(v.Content()) && !RoomIn(v.Content(), parent, PieceCount(name) + 1)
    ensures at.Some? ==>
              var slots := SlotsOf(old(v.Content())[parent]);
              && PieceCount(name) <= at.value < |slots| && |long| == PieceCount(name)
              && FirstRoom(slots, at.value - PieceCount(name), PieceCount(name) + 1)
              && HoldsPieces(long, name, PieceCount(name), Checksum(short, 11))
              && v.Content() == old(v.Content())[parent :=
                   BytesOf(WithFile(slots, at.value - PieceCount(name), long, NewSlot(short, attrs)))]
              && title == Backwards(name, PieceCount(name))
  {
    hide FatOf, DataOf, SlotsOf, FirstRoom, HoldsPieces, NewSlot, IsFileName, NoneBefore, BytesOf, Geometry.Fits, Geometry.ClusterSize;
    ClusterIsSlots(v.g);
    var bytes := v.ReadCluster(parent);
    var buf := ToSlots(bytes);
    at, title, long := CreateInSlots(buf, name, short, attrs);
    if at.Some? {
      v.WriteCluster(parent, BytesOf(buf[..]));
    }
  }

  /** Creates an empty file in the first cluster of a directory that has room for it, the
      chain of the directory being extended by free clusters, as they are, while none has. */
  method CreateFatNode(v: FatVolume, parent: nat, text: seq<Byte>, attrs: Byte, ghost dir: seq<nat>)
    returns (node: Node, title: seq<Byte>, ghost app: seq<nat>, ghost i: nat, ghost k: nat, ghost long: seq<Slot>)
    requires v.Valid() && WellFormed(v.Table()) && Allocated(v.Table(), parent) && dir == ChainOf(v.Table(), parent)
    requires IsText(text) && IsFileName(CString(text))
    requires exists c: nat :: (c in dir || c in FreeSet(v.Table())) && RoomIn(v.Content(), c, PieceCount(CString(text)) + 1)
    modifies v`disk
    ensures v.Valid() && |v.disk| == |old(v.disk)|
    ensures Created(old(v.Table()), old(v.Content()), v.Table(), v.Content(), dir, app, i, k, long,
                    CString(text), NewSlot(ShortOf(text), attrs))
    ensures node == Node(0, (dir + app)[i], NewSlot(ShortOf(text), attrs))
    ensures title == Backwards(CString(text), PieceCount(CString(text)))
  {
    hide FatOf, DataOf, Grown, IsChain, InData, RoomIn, WellFormed, IsFileName, HoldsPieces, FirstRoom, NewSlot, ShortOf, Backwards,
         BytesOf, SlotsOf, WithFile, CString, Geometry.Fits, Geometry.ClusterSize;
    ghost var fat0, data0 := v.Table(), v.Content();
    var name := CString(text);
    NotOver(name);
    var short := GenerateShort(text);
    app, i := [], 0;
    GrownStart(fat0, dir);
    assert dir + [] == dir;
    ChainInData(fat0, dir, data0, v.g.ClusterSize());
    ChainStarts(fat0, dir);
    var cluster := parent;
    while true
      invariant v.Valid() && |v.disk| == |old(v.disk)| && v.Content() == data0
      invariant Grown(fat0, v.Table(), dir, app) && InData(data0, dir + app)
      invariant i < |dir + app| && cluster == (dir + app)[i] && (app == [] || i + 1 == |dir + app|)
      invariant forall j | 0 <= j < i :: !RoomIn(data0, (dir + app)[j], PieceCount(name) + 1)
      decreases |dir| + |FreeSet(fat0)| - i
    {
      ghost var fat := v.Table();
      InDataAt(data0, dir + app, i);
      var at;
      at, title, long := CreateInCluster(v, cluster, name, short, attrs);
      if at.Some? {
        k := at.value - PieceCount(name);
        node := Node(0, cluster, NewSlot(short, attrs));
        assert node.entry[..11] == short;
        return;
      }
      assert !RoomIn(data0, (dir + app)[i], PieceCount(name) + 1);
      AppLeft(fat0, fat, data0, dir, app, i, PieceCount(name) + 1);
      ghost var ch := dir + app;
      cluster, app := v.NextOrLink(cluster, fat0, dir, app, i);
      SamePrefix(ch, dir + app);
      AppBound(fat0, v.Table(), dir, app);
      i := i + 1;
    }
  }

  lemma InDataAt(data: Data, ch: seq<nat>, i: nat)
    requires InData(data, ch) && i < |ch|
    ensures 2 <= ch[i] < |data|
  {
  }

  lemma SamePrefix(a: seq<nat>, b: seq<nat>)
    requires a <= b
    ensures forall j | 0 <= j < |a| :: a[j] == b[j]
  {
  }

  /** While a free cluster or one of the directory has room that has not been looked at, the
      chain can go on. */
  lemma AppLeft(fat0: Fat, fat: Fat, data: Data, dir: seq<nat>, app: seq<nat>, i: nat, n: nat)
    requires Grown(fat0, fat, dir, app) && i < |dir + app| && (app == [] || i + 1 == |dir + app|)
    requires forall j | 0 <= j <= i :: !RoomIn(data, (dir + app)[j], n)
    requires exists c: nat :: (c in dir || c in FreeSet(fat0)) && RoomIn(data, c, n)
    ensures i + 1 == |dir + app| ==> FreeSet(fat) != {}
  {
    hide RoomIn, WellFormed, IsChain;
    if i + 1 == |dir + app| {
      var c: nat :| (c in dir || c in FreeSet(fat0)) && RoomIn(data, c, n);
      assert c !in dir + app;
      assert c in FreeSet(fat0) && c !in Elements(app);
    }
  }

  lemma AppBound(fat0: Fat, fat: Fat, dir: seq<nat>, app: seq<nat>)
    requires Grown(fat0, fat, dir, app)
    ensures |dir + app| <= |dir| + |FreeSet(fat0)|
  {
  }

  // ----- listing after a creation -----

  lemma WithFileInside(p: seq<Slot>, m: seq<Slot>, q: seq<Slot>, k: nat, long: seq<Slot>, s: Slot)
    requires FreeSlots(m, k, |long| + 1)
    ensures FreeSlots(p + m + q, |p| + k, |long| + 1)
    ensures WithFile(p + m + q, |p| + k, long, s) == p + WithFile(m, k, long, s) + q
  {
    var all, n := p + m + q, |long| + 1;
    assert forall j | |p| + k <= j < |p| + k + n :: all[j] == m[j - |p|];
    assert all[..|p| + k] == p + m[..k] && all[|p| + k + n..] == m[k + n..] + q;
  }

  /** The slots of a chain around its cluster i. */
  lemma SlotsAround(data: Data, ch: seq<nat>, cl: nat, i: nat)
    requires Sized(data, cl) && InData(data, ch) && cl % SLOT_SIZE == 0 && i < |ch|
    ensures InData(data, ch[..i]) && InData(data, ch[i + 1..]) && 2 <= ch[i] < |data| && IsSlots(data[ch[i]])
    ensures ChainSlots(data, ch, cl)
            == ChainSlots(data, ch[..i], cl) + SlotsOf(data[ch[i]]) + ChainSlots(data, ch[i + 1..], cl)
  {
    hide FileBytes, SlotsOf;
    var p, c, q := ch[..i], [ch[i]], ch[i + 1..];
    assert ch == (p + c) + q && ch[..i + 1] == p + c;
    InDataParts(data, p + c, q);
    InDataParts(data, p, c);
    StartIsSlots(|p|, cl);
    StartIsSlots(|q|, cl);
    StartIsSlots(|p + c|, cl);
    FileBytesConcat(data, p + c, q, cl);
    FileBytesSnoc(data, p + c, cl);
    assert (p + c)[..i] == p;
    SlotsConcat(FileBytes(data, p, cl), data[ch[i]]);
    SlotsConcat(FileBytes(data, p + c, cl), FileBytes(data, q, cl));
  }

  lemma ChainSlotsSame(data: Data, data': Data, ch: seq<nat>, cl: nat)
    requires Sized(data, cl) && Sized(data', cl) && |data| == |data'| && InData(data, ch) && cl % SLOT_SIZE == 0
    requires forall i | 0 <= i < |ch| :: data'[ch[i]] == data[ch[i]]
    ensures ChainSlots(data', ch, cl) == ChainSlots(data, ch, cl)
  {
    FileBytesAgree(data, data', ch, cl);
  }

  /** What a creation does to the slots of the directory. */
  lemma CreatedSlots(fat0: Fat, data0: Data, fat: Fat, data: Data, dir: seq<nat>, app: seq<nat>, i: nat, k: nat,
                     long: seq<Slot>, name: seq<Byte>, slot: Slot, cl: nat)
    requires Created(fat0, data0, fat, data, dir, app, i, k, long, name, slot)
    requires dir != [] && Sized(data0, cl) && Sized(data, cl) && cl % SLOT_SIZE == 0
    ensures var ch := dir + app;
            && InData(data, ch) && InData(data0, ch) && InData(data0, ch[..i]) && InData(data0, ch[i + 1..])
            && 2 <= ch[i] < |data0|
            && var p, m, q := ChainSlots(data0, ch[..i], cl), SlotsOf(data0[ch[i]]), ChainSlots(data0, ch[i + 1..], cl);
               && FirstRoom(m, k, |long| + 1)
               && ChainSlots(data0, ch, cl) == p + m + q
               && ChainSlots(data, ch, cl) == p + WithFile(m, k, long, slot) + q
  {
    hide SlotsOf, FileBytes, ChainSlots, HoldsPieces, BytesOf, WithFile, WellFormed, RoomIn, FirstRoom, IsChain;
    var ch := dir + app;
    GrownIsChain(fat0, fat, dir, app);
    GrownBound(fat0, fat, dir, app);
    ChainDistinctAll(fat, ch);
    var m := SlotsOf(data0[ch[i]]);
    RoomThere(m, k, |long| + 1);
    SlotsOfBytes(WithFile(m, k, long, slot));
    SlotsAround(data0, ch, cl, i);
    SlotsAround(data, ch, cl, i);
    ChainSlotsSame(data0, data, ch[..i], cl);
    ChainSlotsSame(data0, data, ch[i + 1..], cl);
  }

  lemma GrownBound(fat0: Fat, fat: Fat, dir: seq<nat>, app: seq<nat>)
    requires Grown(fat0, fat, dir, app)
    ensures |fat| <= END
  {
  }

  lemma RoomThere(slots: seq<Slot>, k: nat, n: nat)
    requires FirstRoom(slots, k, n)
    ensures FreeSlots(slots, k, n) && k + n <= |slots|
  {
  }

  /** Where the chain did not grow, the file is in a run of free slots of the directory. */
  lemma CreatedInPlace(fat0: Fat, data0: Data, fat: Fat, data: Data, dir: seq<nat>, i: nat, k: nat,
                       long: seq<Slot>, name: seq<Byte>, slot: Slot, cl: nat) returns (g: nat)
    requires Created(fat0, data0, fat, data, dir, [], i, k, long, name, slot)
    requires dir != [] && Sized(data0, cl) && Sized(data, cl) && cl % SLOT_SIZE == 0
    ensures InData(data0, dir) && InData(data, dir) && FreeSlots(ChainSlots(data0, dir, cl), g, |long| + 1)
    ensures ChainSlots(data, dir, cl) == WithFile(ChainSlots(data0, dir, cl), g, long, slot)
    ensures i < |dir| && InData(data0, dir[..i])
    ensures EndsClean(ChainSlots(data0, dir, cl)) ==>
              (NoEnd(ChainSlots(data0, dir, cl)[..g]) <==> NoEnd(ChainSlots(data0, dir[..i], cl)))
  {
    hide Created, SlotsOf, ChainSlots, WithFile, FirstRoom, FreeSlots, NoEnd, EndsClean;
    CreatedPlaces(fat0, data0, fat, data, dir, [], i, k, long, name, slot);
    assert dir + [] == dir;
    CreatedSlots(fat0, data0, fat, data, dir, [], i, k, long, name, slot, cl);
    var p, m, q := ChainSlots(data0, dir[..i], cl), SlotsOf(data0[dir[i]]), ChainSlots(data0, dir[i + 1..], cl);
    RoomThere(m, k, |long| + 1);
    WithFileInside(p, m, q, k, long, slot);
    g := |p| + k;
    if EndsClean(p + m + q) {
      SeenIff(p, m, q, k, |long| + 1);
    }
  }

  /** What can hide a run of a cluster is in the clusters before. */
  lemma SeenIff(p: seq<Slot>, m: seq<Slot>, q: seq<Slot>, k: nat, n: nat)
    requires EndsClean(p + m + q) && FirstRoom(m, k, n)
    ensures k <= |m| && (NoEnd((p + m + q)[..|p| + k]) <==> NoEnd(p))
  {
    hide FirstRoom;
    var all := p + m + q;
    assert EndsClean(m) by {
      assert forall j | 0 <= j < |m| :: m[j] == all[|p| + j];
    }
    RoomThere(m, k, n);
    NoEndBefore(m, k, n);
    NoEndParts(p, m[..k]);
    assert all[..|p| + k] == p + m[..k];
  }

  lemma NoEndParts(a: seq<Slot>, b: seq<Slot>)
    ensures NoEnd(a + b) <==> NoEnd(a) && NoEnd(b)
  {
    assert forall j | 0 <= j < |a| :: (a + b)[j] == a[j];
    assert forall j | 0 <= j < |b| :: (a + b)[|a| + j] == b[j];
  }

  /** Where it grew, the file is behind all that was there. */
  lemma CreatedBehind(fat0: Fat, data0: Data, fat: Fat, data: Data, dir: seq<nat>, app: seq<nat>, i: nat, k: nat,
                      long: seq<Slot>, name: seq<Byte>, slot: Slot, cl: nat) returns (g: nat)
    requires Created(fat0, data0, fat, data, dir, app, i, k, long, name, slot) && app != []
    requires dir != [] && Sized(data0, cl) && Sized(data, cl) && cl % SLOT_SIZE == 0
    ensures InData(data0, dir) && InData(data0, app) && InData(data, dir + app)
    ensures FreeSlots(ChainSlots(data0, app, cl), g, |long| + 1)
    ensures ChainSlots(data, dir + app, cl)
            == ChainSlots(data0, dir, cl) + WithFile(ChainSlots(data0, app, cl), g, long, slot)
  {
    hide Created, SlotsOf, ChainSlots, WithFile, FirstRoom, FreeSlots;
    CreatedPlaces(fat0, data0, fat, data, dir, app, i, k, long, name, slot);
    CreatedSlots(fat0, data0, fat, data, dir, app, i, k, long, name, slot, cl);
    var n := |app| - 1;
    var m := SlotsOf(data0[app[n]]);
    assert (dir + app)[..i] == dir + app[..n] && (dir + app)[i + 1..] == [] && (dir + app)[i] == app[n];
    InDataParts(data0, dir, app);
    assert app == app[..n] + app[n..];
    InDataParts(data0, app[..n], app[n..]);
    TwoChains(data0, dir, app[..n], cl);
    SlotsAround(data0, app, cl, n);
    assert app[n + 1..] == [];
    NoChain(data0, cl);
    RoomThere(m, k, |long| + 1);
    var p := ChainSlots(data0, app[..n], cl);
    WithFileInside(p, m, [], k, long, slot);
    assert p + m + [] == p + m && p + WithFile(m, k, long, slot) + [] == p + WithFile(m, k, long, slot);
    g := |p| + k;
    assert (ChainSlots(data0, dir, cl) + p) + WithFile(m, k, long, slot) + []
        == ChainSlots(data0, dir, cl) + (p + WithFile(m, k, long, slot));
  }

  lemma CreatedPlaces(fat0: Fat, data0: Data, fat: Fat, data: Data, dir: seq<nat>, app: seq<nat>, i: nat, k: nat,
                      long: seq<Slot>, name: seq<Byte>, slot: Slot)
    requires Created(fat0, data0, fat, data, dir, app, i, k, long, name, slot)
    ensures |data| == |data0| && i < |dir + app| && (app == [] || i + 1 == |dir + app|)
  {
  }

  lemma NoChain(data: Data, cl: nat)
    requires Sized(data, cl) && cl % SLOT_SIZE == 0
    ensures InData(data, []) && ChainSlots(data, [], cl) == []
  {
  }

  lemma TwoChains(data: Data, a: seq<nat>, b: seq<nat>, cl: nat)
    requires Sized(data, cl) && InData(data, a) && InData(data, b) && cl % SLOT_SIZE == 0
    ensures InData(data, a + b) && ChainSlots(data, a + b, cl) == ChainSlots(data, a, cl) + ChainSlots(data, b, cl)
  {
    hide FileBytes, SlotsOf;
    StartIsSlots(|a|, cl);
    StartIsSlots(|b|, cl);
    StartIsSlots(|a + b|, cl);
    FileBytesConcat(data, a, b, cl);
    SlotsConcat(FileBytes(data, a, cl), FileBytes(data, b, cl));
  }

  /** Slots behind a directory are listed exactly if it has no unused slot. */
  lemma ListingBehind(a: seq<Slot>, b: seq<Slot>)
    ensures Listing(a + b, []) == if NoEnd(a) then Listing(a, []) + Listing(b, Pending(a, [])) else Listing(a, [])
  {
    if NoEnd(a) {
      ListingParts(a, b, []);
    } else {
      EndsHere(a, b, []);
    }
  }

  /** Creating a file in a directory and listing the directory, all on the volume.  If the
      chain did not grow, the new name is listed between the old entries exactly unless an
      unused slot in an earlier cluster hides it or it starts with 0xE5.  If the chain grew,
      it and whatever the new clusters held is listed behind the old entries, and nothing of
      this if the directory had an unused slot. */
  method CreateThenListDirectory(v: FatVolume, parent: nat, text: seq<Byte>, attrs: Byte, ghost dir: seq<nat>)
    returns (node: Node, nodes: seq<Entry>, ghost app: seq<nat>, ghost i: nat, ghost g: nat, ghost long: seq<Slot>)
    requires v.Valid() && WellFormed(v.Table()) && Allocated(v.Table(), parent) && dir == ChainOf(v.Table(), parent)
    requires IsText(text) && IsFileName(CString(text)) && attrs != ATTR_LONG
    requires exists c: nat :: (c in dir || c in FreeSet(v.Table())) && RoomIn(v.Content(), c, PieceCount(CString(text)) + 1)
    requires InData(v.Content(), dir) && IsDirectoryContent(ChainSlots(v.Content(), dir, v.g.ClusterSize()))
    modifies v`disk
    ensures v.Valid() && Grown(old(v.Table()), v.Table(), dir, app) && InData(old(v.Content()), app)
    ensures forall c | 2 <= c < |v.Content()| && c !in dir + app :: v.Content()[c] == old(v.Content())[c]
    ensures node.entry == NewSlot(ShortOf(text), attrs) && |long| == PieceCount(CString(text))
    ensures HoldsPieces(long, CString(text), PieceCount(CString(text)), Checksum(ShortOf(text), 11))
    ensures app == [] ==>
              var slots, name := ChainSlots(old(v.Content()), dir, v.g.ClusterSize()), CString(text);
              && FreeSlots(slots, g, |long| + 1)
              && var before, after := Listing(slots[..g], []), Listing(slots[g + |long| + 1..], []);
                 && (nodes == before + [Entry(name, node.entry)] + after <==> NoEnd(slots[..g]) && name[0] != DELETED)
                 && (if NoEnd(slots[..g]) then Listing(slots, []) == before + after
                     else nodes == Listing(slots, []) == before)
                 && (NoEnd(slots[..g]) && name[0] == DELETED ==>
                       nodes == before + Listing(slots[g + |long| + 1..], long))
    ensures app == [] ==>
              && i < |dir| && InData(old(v.Content()), dir[..i])
              && RoomIn(old(v.Content()), dir[i], |long| + 1)
              && (forall j | 0 <= j < i :: !RoomIn(old(v.Content()), dir[j], |long| + 1))
              && (NoEnd(ChainSlots(old(v.Content()), dir, v.g.ClusterSize())[..g])
                  <==> NoEnd(ChainSlots(old(v.Content()), dir[..i], v.g.ClusterSize())))
    ensures app != [] ==>
              var slots, added := ChainSlots(old(v.Content()), dir, v.g.ClusterSize()), ChainSlots(old(v.Content()), app, v.g.ClusterSize());
              && FreeSlots(added, g, |long| + 1)
              && nodes == if NoEnd(slots) then Listing(slots, []) + Listing(WithFile(added, g, long, node.entry), Pending(slots, []))
                          else Listing(slots, [])
  {
    hide FatOf, DataOf, Grown, IsChain, InData, RoomIn, WellFormed, IsFileName, HoldsPieces, FreeSlots, NewSlot, ShortOf, CString,
         IsDirectoryContent, Listing, Pending, Sized, FileBytes, SlotsOf, ChainSlots, Created, NoEnd, WithFile, Geometry.Fits, Geometry.ClusterSize;
    ghost var fat0, data0, cl, name := v.Table(), v.Content(), v.g.ClusterSize(), CString(text);
    ClusterIsSlots(v.g);
    var title;
    ghost var k;
    ChainStarts(fat0, dir);
    node, title, app, i, k, long := CreateFatNode(v, parent, text, attrs, dir);
    CreatedFacts(fat0, data0, v.Table(), v.Content(), dir, app, i, k, long, name, node.entry);
    NotOver(name);
    ShortStarts(text);
    SlotStarts(text, attrs);
    ChainInData(v.Table(), dir + app, v.Content(), cl);
    InDataParts(v.Content(), dir, app);
    nodes := GetFatEntries(v, parent, dir + app);
    if app == [] {
      assert dir + app == dir;
      g := CreatedInPlace(fat0, data0, v.Table(), v.Content(), dir, i, k, long, name, node.entry, cl);
      CreatedRoom(fat0, data0, v.Table(), v.Content(), dir, i, k, long, name, node.entry);
      ContentEnds(ChainSlots(data0, dir, cl));
      CreatedIff(ChainSlots(data0, dir, cl), g, long, node.entry, name, Checksum(ShortOf(text), 11));
    } else {
      g := CreatedBehind(fat0, data0, v.Table(), v.Content(), dir, app, i, k, long, name, node.entry, cl);
      RoomInside(ChainSlots(data0, app, cl), g, |long| + 1);
      ListingBehind(ChainSlots(data0, dir, cl), WithFile(ChainSlots(data0, app, cl), g, long, node.entry));
    }
  }

  lemma CreatedFacts(fat0: Fat, data0: Data, fat: Fat, data: Data, dir: seq<nat>, app: seq<nat>, i: nat, k: nat,
                     long: seq<Slot>, name: seq<Byte>, slot: Slot)
    requires Created(fat0, data0, fat, data, dir, app, i, k, long, name, slot) && dir != []
    ensures Grown(fat0, fat, dir, app) && |fat| <= END && IsChain(fat, dir + app) && InData(data0, app)
    ensures |data0| == |data| && HoldsPieces(long, name, PieceCount(name), Checksum(slot[..11], 11)) && |long| == PieceCount(name)
    ensures forall c | 2 <= c < |data| && c !in dir + app :: data[c] == data0[c]
  {
    GrownIsChain(fat0, fat, dir, app);
    InDataParts(data0, dir, app);
  }

  lemma CreatedRoom(fat0: Fat, data0: Data, fat: Fat, data: Data, dir: seq<nat>, i: nat, k: nat,
                    long: seq<Slot>, name: seq<Byte>, slot: Slot)
    requires Created(fat0, data0, fat, data, dir, [], i, k, long, name, slot)
    ensures i < |dir| && RoomIn(data0, dir[i], |long| + 1)
    ensures forall j | 0 <= j < i :: !RoomIn(data0, dir[j], |long| + 1)
  {
    hide SlotsOf, WithFile, BytesOf;
    assert dir + [] == dir;
    FoundRoom(SlotsOf(data0[dir[i]]), k, |long| + 1);
  }

  lemma FoundRoom(slots: seq<Slot>, k: nat, n: nat)
    requires FirstRoom(slots, k, n) && 0 < n
    ensures !NoneBefore(slots, |slots|, n)
  {
    assert FreeSlots(slots, k, n);
  }

  lemma ContentEnds(slots: seq<Slot>)
    requires IsDirectoryContent(slots)
    ensures EndsClean(slots)
  {
  }

  lemma SlotStarts(text: seq<Byte>, attrs: Byte)
    requires IsText(text)
    ensures var s := NewSlot(ShortOf(text), attrs);
            s[..11] == ShortOf(text) && s[0] == ShortOf(text)[0] && s[11] == attrs
  {
  }
}
