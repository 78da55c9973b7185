/** Small volumes on which creating and writing files goes wrong. */
module FatCases {
  import opened Options
  import opened Bytes
  import opened Runs
  import opened Spans
  import opened FatChain
  import opened FatDisk
  import opened FatFile
  import opened FatDirectory
  import opened FatNames
  import opened FatEntries
  import opened Fat32
  import opened FatFolder

  // ----- a volume with a directory and nothing else -----

  const ROOT_DIR: nat := 2

  /** 126 clusters of one sector each, behind a table of one sector. */
  function SmallGeometry(): Geometry {
    Geometry(0, 0, 1, 1, 1)
  }

  function SmallDisk(stale: Sector): Disk {
    [Zeros(SECTOR_SIZE)] + seq(126, i => stale)
  }

  lemma SmallFits(stale: Sector)
    ensures SmallGeometry().Fits(SmallDisk(stale))
  {
    StartIsProduct(126, 1);
  }

  /** Nothing is allocated, and every cluster holds the stale bytes. */
  lemma SmallContent(stale: Sector)
    ensures SmallGeometry().Fits(SmallDisk(stale))
    ensures FatOf(SmallGeometry(), SmallDisk(stale)) == seq(128, i => 0)
    ensures forall c | 2 <= c < 128 :: DataOf(SmallGeometry(), SmallDisk(stale))[c] == stale
  {
    hide FatOf, DataOf, Flat;
    var g, disk := SmallGeometry(), SmallDisk(stale);
    SmallFits(stale);
    forall n: nat | n < 128
      ensures FatOf(g, disk)[n] == 0
    {
      FatAt(g, disk, n);
      EntryPlace(g, n);
    }
    forall c: nat | 2 <= c < 128
      ensures DataOf(g, disk)[c] == stale
    {
      DataAt(g, disk, c);
      StartIsProduct(c - 2, 1);
      assert disk[c - 1..c] == [stale];
      OneSector(stale);
    }
  }

  lemma OneSector(s: Sector)
    ensures Flat([s]) == s
  {
    assert [s][1..] == [];
    assert Flat([s]) == s + Flat([]);
  }

  /** The table with a directory of one cluster. */
  function OneDirectory(): Fat {
    seq(128, i => 0)[ROOT_DIR := LAST]
  }

  lemma OneDirectoryFacts()
    ensures WellFormed(OneDirectory()) && Allocated(OneDirectory(), ROOT_DIR) && ChainOf(OneDirectory(), ROOT_DIR) == [ROOT_DIR]
    ensures forall c: nat | 3 <= c < 128 :: c in FreeSet(OneDirectory())
    ensures 0 < |FreeSet(OneDirectory())|
  {
    var fat := OneDirectory();
    assert IsChain(fat, [ROOT_DIR]) && [ROOT_DIR][0] == ROOT_DIR;
    assert HasChain(fat, ROOT_DIR);
    forall n: nat | Allocated(fat, n)
      ensures HasChain(fat, n)
    {
      assert n == ROOT_DIR;
    }
    ChainUnique(fat, ChainOf(fat, ROOT_DIR), [ROOT_DIR]);
    assert Free(fat, 3) && 3 in FreeSet(fat);
  }

  /** A volume whose only file is a directory of one cluster. */
  method NewVolume(content: Sector, stale: Sector) returns (v: FatVolume)
    ensures fresh(v) && v.Valid() && v.g == SmallGeometry() && v.g.ClusterSize() == SECTOR_SIZE
    ensures v.Table() == OneDirectory() && v.Content()[ROOT_DIR] == content
    ensures forall c | 3 <= c < 128 :: v.Content()[c] == stale
  {
    hide FatOf, DataOf, Geometry.Fits;
    SmallContent(stale);
    v := new FatVolume(SmallGeometry(), SmallDisk(stale));
    v.WriteClusterLink(ROOT_DIR, LAST);
    Low28Same(LAST);
    v.WriteCluster(ROOT_DIR, content);
  }

  // ----- a full volume -----

  function FilledTable(n: nat): Fat {
    seq(128, i => if 2 <= i < n then LAST else 0)
  }

  lemma FullTable()
    ensures var fat := FilledTable(128);
            && WellFormed(fat) && (forall n | 2 <= n < 128 :: Allocated(fat, n)) && FirstFree(fat) == 0
            && forall n | 2 <= n < 128 :: Link(fat, n)[n] == 0
  {
    var fat := FilledTable(128);
    forall n: nat | 2 <= n < 128
      ensures Allocated(fat, n) && HasChain(fat, n) && ChainOf(fat, n) == [n]
    {
      assert IsChain(fat, [n]) && [n][0] == n;
      ChainUnique(fat, ChainOf(fat, n), [n]);
    }
    NoneFree(fat, 2);
  }

  lemma NoneFree(fat: Fat, n: nat)
    requires 2 <= n <= |fat| && forall m: nat | n <= m < |fat| :: fat[m] != 0
    ensures FirstFree(fat, n) == 0
    decreases |fat| - n
  {
    if n < |fat| {
      NoneFree(fat, n + 1);
    }
  }

  /** The last free cluster of a volume is taken, and the chain of its directory is to be
      extended: the directory's only cluster is then free. */
  method LinkWhenFull() returns (v: FatVolume, linked: nat)
    ensures v.Valid() && linked == 0 && |v.Table()| == 128 && Free(v.Table(), ROOT_DIR)
  {
    hide FatOf, DataOf, Geometry.Fits, WellFormed, Link, FirstFree;
    v := NewVolume(Zeros(SECTOR_SIZE), Zeros(SECTOR_SIZE));
    var i := 3;
    Low28Same(LAST);
    while i < 128
      invariant 3 <= i <= 128 && fresh(v) && v.Valid() && v.g == SmallGeometry() && v.Table() == FilledTable(i)
    {
      v.WriteClusterLink(i, LAST);
      i := i + 1;
    }
    FullTable();
    linked := v.LinkFreeCluster(ROOT_DIR);
  }

  // ----- an empty directory -----

  function Name(c: Byte): seq<Byte> {
    [c] + Zeros(7)
  }

  lemma NameFacts(c: Byte)
    requires c != 0
    ensures IsText(Name(c)) && CString(Name(c)) == [c] && IsFileName([c]) && PieceCount([c]) == 1
  {
    assert Name(c)[1..] == Zeros(7) && Name(c)[1] == 0;
    assert CString(Zeros(7)) == [];
  }

  lemma {:induction false} BlankSlots(n: nat)
    ensures |SlotsOf(Zeros(n * SLOT_SIZE))| == n && forall i | 0 <= i < n :: SlotsOf(Zeros(n * SLOT_SIZE))[i] == Zeros(SLOT_SIZE)
    decreases n
  {
    if n > 0 {
      var b := Zeros(n * SLOT_SIZE);
      assert b[SLOT_SIZE..] == Zeros((n - 1) * SLOT_SIZE) && SlotAt(b, 0) == Zeros(SLOT_SIZE);
      BlankSlots(n - 1);
    }
  }

  /** A cluster of unused slots has room at its first slot. */
  lemma BlankRoom(data: Data, c: nat)
    requires 2 <= c < |data| && data[c] == Zeros(SECTOR_SIZE)
    ensures RoomIn(data, c, 2) && SlotsOf(data[c])[0][0] == 0
  {
    BlankSlots(SLOTS_PER_SECTOR);
    assert FreeSlots(SlotsOf(data[c]), 0, 2);
  }

  /** Creating a file in a directory of one cluster that has room. */
  lemma CreatedInRoot(fat: Fat, data: Data, fat': Fat, data': Data, app: seq<nat>, i: nat, k: nat,
                      long: seq<Slot>, name: seq<Byte>, slot: Slot)
    requires Created(fat, data, fat', data', [ROOT_DIR], app, i, k, long, name, slot)
    requires |data| == 128 && RoomIn(data, ROOT_DIR, PieceCount(name) + 1)
    requires WellFormed(fat) && Allocated(fat, ROOT_DIR) && ChainOf(fat, ROOT_DIR) == [ROOT_DIR]
    ensures app == [] && i == 0 && |data'| == 128
    ensures WellFormed(fat') && Allocated(fat', ROOT_DIR) && ChainOf(fat', ROOT_DIR) == [ROOT_DIR]
    ensures |FreeSet(fat')| == |FreeSet(fat)|
    ensures forall c | 3 <= c < 128 :: data'[c] == data[c]
  {
    hide RoomIn, HoldsPieces, FirstRoom, BytesOf, WithFile, SlotsOf, WellFormed;
    assert ([ROOT_DIR] + app)[0] == ROOT_DIR;
    assert app == [];
    assert ChainOf(fat, ROOT_DIR) + [] == ChainOf(fat, ROOT_DIR);
  }

  // ----- a gap -----

  /** A volume with an empty directory in which a file has been created. */
  method NewFile(stale: Sector) returns (v: FatVolume, node: Node)
    ensures fresh(v) && v.Valid() && v.g.ClusterSize() == SECTOR_SIZE && |v.Content()| == 128
    ensures WellFormed(v.Table()) && Allocated(v.Table(), ROOT_DIR) && ChainOf(v.Table(), ROOT_DIR) == [ROOT_DIR]
    ensures 0 < |FreeSet(v.Table())| && forall c | 3 <= c < 128 :: v.Content()[c] == stale
    ensures node.contentCluster == 0 && node.parentCluster == ROOT_DIR && EntrySize(node.entry) == 0
  {
    hide FatOf, DataOf, FileBytes, IsChain, WellFormed, Created, RoomIn, IsText, CString, IsFileName, Geometry.Fits, Geometry.ClusterSize;
    v := NewVolume(Zeros(SECTOR_SIZE), stale);
    OneDirectoryFacts();
    NameFacts(97);
    BlankRoom(v.Content(), ROOT_DIR);
    assert ROOT_DIR in [ROOT_DIR] && RoomIn(v.Content(), ROOT_DIR, PieceCount(CString(Name(97))) + 1);
    ghost var fat0, data0 := v.Table(), v.Content();
    var title;
    ghost var app, i, k, long;
    node, title, app, i, k, long := CreateFatNode(v, ROOT_DIR, Name(97), 0, [ROOT_DIR]);
    CreatedInRoot(fat0, data0, v.Table(), v.Content(), app, i, k, long, [97], node.entry);
  }

  /** A file is created, one byte is written to it, and another one three bytes from its
      start.  Its byte 2 is then what the disk held before, although the file had a recorded
      size of one byte. */
  method StaleGap() returns (size: nat, out: seq<Byte>)
    ensures size == 1 && out == [9]
  {
    hide FatOf, DataOf, FileBytes, IsChain, WellFormed, Updates, Geometry.Fits, Geometry.ClusterSize;
    var v, node := NewFile(seq(SECTOR_SIZE, i => 9));
    ghost var fat1, data1 := v.Table(), v.Content();
    OneNeeded(0);
    OneNeeded(3);
    var written;
    ghost var app, app';
    node, written, app := v.Write(node, [1], 0, [], [ROOT_DIR]);
    size := EntrySize(node.entry);
    ghost var fat2, data2, first := v.Table(), v.Content(), node.entry;
    FirstWritten(fat1, data1, fat2, data2, app, first);
    node, written, app' := v.Write(node, [5], 3, app, [ROOT_DIR]);
    SecondWritten(fat2, data2, v.Table(), v.Content(), app, app', node.entry);
    out := v.ReadNode(node.contentCluster, false, 2, 1);
    StaleByteShows(fat1, data1, fat2, data2, v.Table(), v.Content(), app, first, node.entry);
  }

  lemma OneNeeded(off: nat)
    requires off + 1 <= SECTOR_SIZE
    ensures Needed(off, 1, SECTOR_SIZE) == 1
  {
  }

  /** The first write takes one cluster. */
  lemma FirstWritten(fat1: Fat, data1: Data, fat2: Fat, data2: Data, app: seq<nat>, e: Slot)
    requires Updates(fat1, data1, fat2, data2, [], app, [ROOT_DIR], SECTOR_SIZE, 0, [1], e)
    requires Allocated(fat1, ROOT_DIR) && ChainOf(fat1, ROOT_DIR) == [ROOT_DIR]
    ensures |app| == 1 && ROOT_DIR < app[0] < |data1| == |data2| && app == [app[0]]
    ensures WellFormed(fat2) && Allocated(fat2, app[0]) && ChainOf(fat2, app[0]) == app
    ensures Allocated(fat2, ROOT_DIR) && ChainOf(fat2, ROOT_DIR) == [ROOT_DIR]
  {
    hide FileBytes, Updated, WellFormed;
    OneNeeded(0);
    assert [] + app == app;
    OtherChainKept(fat1, fat2, [], app, ROOT_DIR);
    GrownIsChain(fat1, fat2, [], app);
    ChainAllocated(fat2, app, 0);
    ChainUnique(fat2, ChainOf(fat2, app[0]), app);
    assert Free(fat1, app[0]);
  }

  /** The second one takes no other. */
  lemma SecondWritten(fat2: Fat, data2: Data, fat3: Fat, data3: Data, app: seq<nat>, app': seq<nat>, e: Slot)
    requires Updates(fat2, data2, fat3, data3, app, app', [ROOT_DIR], SECTOR_SIZE, 3, [5], e) && |app| == 1
    ensures app' == [] && app + app' == app && WellFormed(fat3) && Allocated(fat3, app[0]) && ChainOf(fat3, app[0]) == app
  {
    hide FileBytes, Updated, WellFormed;
    OneNeeded(3);
    GrownIsChain(fat2, fat3, app, app');
    ChainAllocated(fat3, app, 0);
    ChainUnique(fat3, ChainOf(fat3, app[0]), app);
  }

  lemma StaleByteShows(fat1: Fat, data1: Data, fat2: Fat, data2: Data, fat3: Fat, data3: Data, app: seq<nat>,
                       first: Slot, second: Slot)
    requires Updates(fat1, data1, fat2, data2, [], app, [ROOT_DIR], SECTOR_SIZE, 0, [1], first) && |app| == 1
    requires Updates(fat2, data2, fat3, data3, app, [], [ROOT_DIR], SECTOR_SIZE, 3, [5], second)
    requires 2 <= app[0] < |data1| && |data1[app[0]]| == SECTOR_SIZE && data1[app[0]][2] == 9
    ensures Sized(data3, SECTOR_SIZE) && InData(data3, app) && Window(FileBytes(data3, app, SECTOR_SIZE), 2, 1) == [9]
  {
    hide FileBytes, Updated, Grown;
    assert [] + app == app && app + [] == app && Start(1, SECTOR_SIZE) == Start(0, SECTOR_SIZE) + SECTOR_SIZE;
    WriteThenRead(fat1, data1, fat2, data2, [], app, [ROOT_DIR], SECTOR_SIZE, 0, [1], first, 2);
    WriteThenRead(fat2, data2, fat3, data3, app, [], [ROOT_DIR], SECTOR_SIZE, 3, [5], second, 2);
    assert app[..0] == [];
    FileBytesNone(data1, SECTOR_SIZE);
    FileBytesSnoc(data1, app, SECTOR_SIZE);
  }

  // ----- files that are not listed, and entries that are -----

  lemma OneClusterSlots(data: Data, c: nat)
    requires Sized(data, SECTOR_SIZE) && 2 <= c < |data|
    ensures InData(data, [c]) && ChainSlots(data, [c], SECTOR_SIZE) == SlotsOf(data[c])
  {
    hide FileBytes;
    assert [c][..0] == [];
    FileBytesNone(data, SECTOR_SIZE);
    FileBytesSnoc(data, [c], SECTOR_SIZE);
    assert [] + data[c] == data[c];
  }

  lemma BlankDirectory(slots: seq<Slot>)
    requires slots != [] && forall i | 0 <= i < |slots| :: slots[i][0] == 0
    ensures IsDirectoryContent(slots)
    ensures forall i, long | 0 <= i <= |slots| :: Listing(slots[i..], long) == []
    ensures forall i | 0 <= i <= |slots| :: Listing(slots[..i], []) == []
  {
    forall i: nat | 0 < i < |slots|
      ensures !NoEnd(slots[..i])
    {
      assert slots[..i][0] == slots[0];
    }
    PendingNothing();
  }

  /** A file whose name is the single byte 0xE5 is created in an empty directory, which is
      as empty as before. */
  method CreatesDeleted() returns (nodes: seq<Entry>)
    ensures nodes == []
  {
    hide FatOf, DataOf, FileBytes, IsChain, WellFormed, RoomIn, IsText, CString, IsFileName, NewSlot, ShortOf, HoldsPieces, Grown, FreeSlots,
         IsDirectoryContent, ChainSlots, SlotsOf, Listing, NoEnd, WithFile, Pending, Geometry.Fits, Geometry.ClusterSize;
    var v := NewVolume(Zeros(SECTOR_SIZE), Zeros(SECTOR_SIZE));
    OneDirectoryFacts();
    NameFacts(DELETED);
    BlankRoom(v.Content(), ROOT_DIR);
    assert ROOT_DIR in [ROOT_DIR] && RoomIn(v.Content(), ROOT_DIR, PieceCount(CString(Name(DELETED))) + 1);
    OneClusterSlots(v.Content(), ROOT_DIR);
    BlankSlots(SLOTS_PER_SECTOR);
    ghost var slots := SlotsOf(v.Content()[ROOT_DIR]);
    BlankDirectory(slots);
    assert slots[..|slots|] == slots && slots[0..] == slots;
    BlankEnds(slots);
    var node;
    ghost var app, i, g, long;
    node, nodes, app, i, g, long := CreateThenListDirectory(v, ROOT_DIR, Name(DELETED), 0, [ROOT_DIR]);
    if app == [] {
      RoomInside(slots, g, |long| + 1);
    }
  }

  lemma BlankEnds(slots: seq<Slot>)
    requires slots != [] && slots[0][0] == 0
    ensures !NoEnd(slots)
  {
  }

  /** The slot of a file with a short name only. */
  function Used(): (s: Slot)
    ensures s[0] == 65 && s[11] == 0
  {
    NewSlot(seq(11, i => 65), 0)
  }

  lemma UsedName()
    ensures NameOf([], Used()) != [] && NameOf([], Used())[0] == 65
  {
  }

  /** A directory of n files and, where n is less than 16, unused slots behind them. */
  function FilledTo(n: nat): (b: Sector)
    requires n <= SLOTS_PER_SECTOR
  {
    BytesOf(seq(n, i => Used()) + seq(SLOTS_PER_SECTOR - n, i => Zeros(SLOT_SIZE)))
  }

  lemma FilledSlots(n: nat)
    requires n <= SLOTS_PER_SECTOR
    ensures var slots := SlotsOf(FilledTo(n));
            && |slots| == SLOTS_PER_SECTOR && IsDirectoryContent(slots)
            && (forall i | 0 <= i < |slots| :: slots[i] == if i < n then Used() else Zeros(SLOT_SIZE))
            && (NoEnd(slots) <==> n == SLOTS_PER_SECTOR)
            && (15 <= n ==> forall g, m | 2 <= m :: !FreeSlots(slots, g, m))
  {
    hide NewSlot, Used, IsDirectoryContent, FreeSlots, SlotsOf, BytesOf;
    var slots: seq<Slot> := seq(n, i => Used()) + seq(SLOTS_PER_SECTOR - n, i => Zeros(SLOT_SIZE));
    SlotsOfBytes(slots);
    FilledContent(slots, n);
    if 15 <= n {
      FilledRoom(slots, n);
    }
  }

  lemma FilledRoom(slots: seq<Slot>, n: nat)
    requires 15 <= n <= |slots| == SLOTS_PER_SECTOR && forall i | 0 <= i < n :: slots[i] == Used()
    ensures forall g, m | 2 <= m :: !FreeSlots(slots, g, m)
  {
    hide Used;
    forall g: nat, m: nat | 2 <= m
      ensures !FreeSlots(slots, g, m)
    {
      assert g < 15 ==> !IsFree(slots[g]);
    }
  }

  lemma FilledContent(slots: seq<Slot>, n: nat)
    requires n <= |slots| && forall i | 0 <= i < |slots| :: slots[i] == if i < n then Used() else Zeros(SLOT_SIZE)
    ensures IsDirectoryContent(slots) && (NoEnd(slots) <==> n == |slots|)
  {
    hide Used, Pending;
    assert n < |slots| ==> slots[n][0] == 0;
    forall i: nat | n < i < |slots|
      ensures !NoEnd(slots[..i])
    {
      assert slots[..i][n][0] == 0;
    }
    forall i: nat | i < |slots| && NoEnd(slots[..i]) && IsFree(slots[i])
      ensures Pending(slots[..i], []) == []
    {
      if i == 0 {
        PendingNothing();
      } else {
        assert slots[..i] == slots[..i - 1] + [slots[i - 1]];
        PendingEntry(slots[..i - 1], slots[i - 1]);
      }
    }
  }

  /** The directory of a new volume and a free cluster, for a file called "b". */
  lemma FilledVolume(data: Data, n: nat, m: nat)
    requires |data| == 128 && Sized(data, SECTOR_SIZE) && n <= SLOTS_PER_SECTOR && m <= 14
    requires data[ROOT_DIR] == FilledTo(n) && data[3] == FilledTo(m)
    ensures InData(data, [ROOT_DIR]) && ChainSlots(data, [ROOT_DIR], SECTOR_SIZE) == SlotsOf(FilledTo(n))
    ensures RoomIn(data, 3, 2)
  {
    hide SlotsOf, FilledTo, ChainSlots, FileBytes;
    OneClusterSlots(data, ROOT_DIR);
    FilledSlots(m);
    var slots := SlotsOf(data[3]);
    assert FreeSlots(slots, m, 2) by {
      assert slots[m] == slots[m + 1] == Zeros(SLOT_SIZE);
    }
  }

  /** In a directory with one unused slot a file is created that needs two: the directory
      lists as before. */
  method HiddenFile() returns (before: seq<Entry>, nodes: seq<Entry>)
    ensures nodes == before
  {
    hide FatOf, DataOf, FileBytes, IsChain, WellFormed, RoomIn, IsText, CString, IsFileName, NewSlot, ShortOf, HoldsPieces, Grown, FreeSlots,
         IsDirectoryContent, ChainSlots, SlotsOf, Listing, NoEnd, WithFile, Pending, FilledTo, Geometry.Fits, Geometry.ClusterSize, InData;
    var v := NewVolume(FilledTo(15), FilledTo(0));
    OneDirectoryFacts();
    NameFacts(98);
    FilledVolume(v.Content(), 15, 0);
    FilledSlots(15);
    assert 3 in FreeSet(v.Table()) && RoomIn(v.Content(), 3, PieceCount(CString(Name(98))) + 1);
    before := GetFatEntries(v, ROOT_DIR, [ROOT_DIR]);
    var node;
    ghost var app, i, g, long;
    node, nodes, app, i, g, long := CreateThenListDirectory(v, ROOT_DIR, Name(98), 0, [ROOT_DIR]);
    assert !FreeSlots(SlotsOf(FilledTo(15)), g, |long| + 1);
  }

  /** In a full directory a file is created, for which a cluster is linked that held a
      directory before: its old entry is listed behind those of the directory. */
  method StaleNames() returns (before: seq<Entry>, nodes: seq<Entry>)
    ensures |before| < |nodes| && nodes[..|before|] == before
    ensures nodes[|before|].slot == Used() && nodes[|before|].name != [98]
  {
    hide FatOf, DataOf, FileBytes, IsChain, WellFormed, RoomIn, IsText, CString, IsFileName, NewSlot, ShortOf, HoldsPieces, Grown, FreeSlots,
         IsDirectoryContent, ChainSlots, SlotsOf, Listing, NoEnd, WithFile, Pending, FilledTo, Used, Geometry.Fits, Geometry.ClusterSize, InData, Free;
    var v := NewVolume(FilledTo(16), FilledTo(1));
    OneDirectoryFacts();
    NameFacts(98);
    FilledVolume(v.Content(), 16, 1);
    FilledSlots(16);
    assert 3 in FreeSet(v.Table()) && RoomIn(v.Content(), 3, PieceCount(CString(Name(98))) + 1);
    before := GetFatEntries(v, ROOT_DIR, [ROOT_DIR]);
    var node;
    ghost var app, i, g, long;
    ghost var fat0, data0 := v.Table(), v.Content();
    node, nodes, app, i, g, long := CreateThenListDirectory(v, ROOT_DIR, Name(98), 0, [ROOT_DIR]);
    assert !FreeSlots(SlotsOf(FilledTo(16)), g, |long| + 1);
    FilledPending(16);
    StaleCluster(fat0, data0, v.Table(), app);
    StaleListed(ChainSlots(data0, app, SECTOR_SIZE), g, long, node.entry);
    UsedName();
  }

  lemma FilledPending(n: nat)
    requires n == SLOTS_PER_SECTOR
    ensures Pending(SlotsOf(FilledTo(n)), []) == []
  {
    hide Pending, SlotsOf, FilledTo;
    FilledSlots(n);
    var slots := SlotsOf(FilledTo(n));
    assert slots == slots[..15] + [slots[15]];
    assert NoEnd(slots[..15]);
    PendingEntry(slots[..15], slots[15]);
  }

  lemma StaleCluster(fat0: Fat, data0: Data, fat: Fat, app: seq<nat>)
    requires fat0 == OneDirectory() && Grown(fat0, fat, [ROOT_DIR], app) && app != []
    requires |data0| == 128 && Sized(data0, SECTOR_SIZE) && forall c | 3 <= c < 128 :: data0[c] == FilledTo(1)
    ensures InData(data0, app)
    ensures var slots := ChainSlots(data0, app, SECTOR_SIZE); slots != [] && slots[0] == Used()
  {
    hide SlotsOf, FilledTo, ChainSlots, FileBytes, IsChain, WellFormed;
    forall i | 0 <= i < |app|
      ensures 3 <= app[i] < 128
    {
      assert Free(fat0, app[i]);
    }
    SlotsAround(data0, app, SECTOR_SIZE, 0);
    assert app[..0] == [];
    NoChain(data0, SECTOR_SIZE);
    FilledSlots(1);
  }

  /** The entry in the first slot of what was linked is listed first. */
  lemma StaleListed(slots: seq<Slot>, g: nat, long: seq<Slot>, s: Slot)
    requires slots != [] && slots[0] == Used() && FreeSlots(slots, g, |long| + 1)
    ensures var l := Listing(WithFile(slots, g, long, s), []); l != [] && l[0] == Entry(NameOf([], Used()), Used())
  {
    hide Used, NameOf;
    assert !IsFree(Used());
    assert 0 < g;
    assert WithFile(slots, g, long, s)[0] == slots[..g][0] == Used();
  }
}
