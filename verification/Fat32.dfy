/** The FAT32 driver: table access, cluster access, chain extension, and reading
    and writing a file at any offset. */
module Fat32 {
  import opened Bytes
  import opened Runs
  import opened Spans
  import opened FatChain
  import opened FatDisk
  import opened FatFile
  import opened FatDirectory

  class FatVolume {
    const g: Geometry
    var disk: Disk

    ghost predicate Valid()
      reads this
    {
      g.Fits(disk)
    }

    ghost function Table(): (fat: Fat)
      requires Valid()
      reads this
      ensures |fat| == g.Entries()
    {
      FatOf(g, disk)
    }

    ghost function Content(): (data: Data)
      requires Valid()
      reads this
      ensures |data| == g.Entries() && Sized(data, g.ClusterSize())
    {
      DataSized(g, disk);
      DataOf(g, disk)
    }

    constructor (g: Geometry, disk: Disk)
      requires g.Fits(disk)
      ensures Valid() && this.g == g && this.disk == disk
    {
      this.g := g;
      this.disk := disk;
    }

    // ----- the table -----

    /** Scans the table sector by sector for the lowest free cluster. */
    method FreeCluster() returns (cluster: nat)
      requires Valid()
      ensures cluster == FirstFree(Table())
    {
      var i := 0;
      while i < g.fatSectors
        invariant i <= g.fatSectors
        invariant forall m | 2 <= m < i * ENTRIES_PER_SECTOR :: Table()[m] != 0
      {
        TableBelowData(g, disk);
        var sector := disk[g.base + g.firstFat + i];
        var entry := 0;
        while entry < ENTRIES_PER_SECTOR
          invariant entry <= ENTRIES_PER_SECTOR
          invariant forall m | 2 <= m < i * ENTRIES_PER_SECTOR + entry :: Table()[m] != 0
        {
          var value := Low28(Word(sector, entry * 4));
          EntryPlace(g, i * ENTRIES_PER_SECTOR + entry);
          FatAt(g, disk, i * ENTRIES_PER_SECTOR + entry);
          assert value == Table()[i * ENTRIES_PER_SECTOR + entry];
          if value == 0 {
            cluster := i * ENTRIES_PER_SECTOR + entry;
            if cluster >= 2 {
              return;
            }
          }
          entry := entry + 1;
        }
        i := i + 1;
      }
      cluster := 0;
    }

    method NextCluster(clusterNo: nat) returns (next: nat)
      requires Valid() && clusterNo < g.Entries()
      ensures next == Next(Table(), clusterNo)
    {
      EntryPlace(g, clusterNo);
      TableBelowData(g, disk);
      var sector := disk[g.EntrySector(clusterNo)];
      var value := Low28(Word(sector, g.EntryOffset(clusterNo)));
      FatAt(g, disk, clusterNo);
      if value >= END {
        return 0;
      }
      return value;
    }

    /** Stores the low 28 bits of value in the entry of a cluster. */
    method WriteClusterLink(clusterNo: nat, value: nat)
      requires Valid() && clusterNo < g.Entries()
      modifies this`disk
      ensures Valid() && |disk| == old(|disk|)
      ensures Table() == old(Table())[clusterNo := Low28(value)]
      ensures Content() == old(Content())
      ensures forall i | 0 <= i < |disk| && i != g.EntrySector(clusterNo) :: disk[i] == old(disk)[i]
    {
      EntryPlace(g, clusterNo);
      TableBelowData(g, disk);
      var s := g.EntrySector(clusterNo);
      var sector: Sector := disk[s];
      sector := Splice(sector, g.EntryOffset(clusterNo), WordBytes(Low28(value)));
      EntryStoredEffect(g, disk, clusterNo, Low28(value));
      disk := disk[s := sector];
    }

    /** Follows the links from cluster to the end of its chain ch. */
    method LastCluster(cluster: nat, ghost ch: seq<nat>) returns (last: nat)
      requires Valid() && IsChain(Table(), ch) && ch[0] == cluster
      ensures last == LastOf(ch)
    {
      last := cluster;
      ghost var i := 0;
      while true
        invariant 0 <= i < |ch| && last == ch[i]
        decreases |ch| - i
      {
        ChainAllocated(Table(), ch, i);
        var next := NextCluster(last);
        if next == 0 {
          return;
        }
        last := next;
        i := i + 1;
      }
    }

    /** Walks to the end of the chain of cluster and links the lowest free cluster
        there.  The result is 0, and the table damaged, when no cluster is free. */
    method LinkFreeCluster(cluster: nat) returns (free: nat)
      requires Valid() && WellFormed(Table()) && Allocated(Table(), cluster)
      modifies this`disk
      ensures Valid() && |disk| == old(|disk|)
      ensures free == FirstFree(old(Table()))
      ensures Table() == Link(old(Table()), cluster)
      ensures Content() == old(Content())
    {
      ghost var fat := Table();
      free := FreeCluster();
      var last := LastCluster(cluster, ChainOf(fat, cluster));
      Low28Same(free);
      WriteClusterLink(last, free);
      Low28Same(LAST);
      WriteClusterLink(free, 0x0FFF_FFFF);
    }

    // ----- the data clusters -----

    method ReadCluster(cluster: nat) returns (buf: seq<Byte>)
      requires Valid() && 2 <= cluster < g.Entries()
      ensures buf == Content()[cluster] && |buf| == g.ClusterSize()
    {
      ClusterPlace(g, disk, cluster);
      var sector := g.base + g.ClusterSector(cluster);
      buf := Flat(disk[sector..sector + g.sectorsPerCluster]);
      DataAt(g, disk, cluster);
    }

    method WriteCluster(cluster: nat, buf: seq<Byte>)
      requires Valid() && 2 <= cluster < g.Entries() && |buf| == g.ClusterSize()
      modifies this`disk
      ensures Valid() && |disk| == old(|disk|)
      ensures Table() == old(Table())
      ensures Content() == old(Content())[cluster := buf]
    {
      hide FatOf, DataOf, Sectors;
      ClusterPlace(g, disk, cluster);
      ClusterStoredEffect(g, disk, cluster, buf);
      disk := Stored(disk, g.base + g.ClusterSector(cluster), Sectors(buf, g.sectorsPerCluster));
    }

    /** Reads a cluster, overwrites part of it, and writes it back. */
    method PatchCluster(cluster: nat, start: nat, bytes: seq<Byte>)
      requires Valid() && 2 <= cluster < g.Entries() && start + |bytes| <= g.ClusterSize()
      modifies this`disk
      ensures Valid() && |disk| == old(|disk|)
      ensures Table() == old(Table())
      ensures Content() == old(Content())[cluster := Splice(old(Content())[cluster], start, bytes)]
    {
      var tmp := ReadCluster(cluster);
      tmp := Splice(tmp, start, bytes);
      WriteCluster(cluster, tmp);
    }

    // ----- files -----

    /** The cluster after the current one, linked afresh when the chain ends here. */
    method NextOrLink(cluster: nat, ghost fat0: Fat, ghost ch0: seq<nat>, ghost app: seq<nat>, ghost i: nat)
      returns (next: nat, ghost app': seq<nat>)
      requires Valid() && Grown(fat0, Table(), ch0, app)
      requires i < |ch0 + app| && cluster == (ch0 + app)[i]
      requires i + 1 == |ch0 + app| ==> FreeSet(Table()) != {}
      modifies this`disk
      ensures Valid() && |disk| == old(|disk|) && Content() == old(Content())
      ensures Grown(fat0, Table(), ch0, app')
      ensures i + 1 < |ch0 + app'| && next == (ch0 + app')[i + 1]
      ensures app <= app' && |ch0 + app'| == Max(|ch0 + app|, i + 2)
      ensures InData(Content(), ch0 + app')
    {
      hide Grown, WellFormed, IsChain, InData;
      ghost var fat, ch := Table(), ch0 + app;
      GrownIsChain(fat0, fat, ch0, app);
      ChainAllocated(fat, ch, i);
      ChainNext(fat, ch, i);
      next := NextCluster(cluster);
      app' := app;
      if next != 0 {
        ChainInData(fat, ch, Content(), g.ClusterSize());
        return;
      }
      FreeExists(fat);
      GrownLink(fat0, fat, ch0, app, cluster);
      next := LinkFreeCluster(cluster);
      app' := app + [next];
      assert ch0 + app' == ch + [next];
      GrownIsChain(fat0, Table(), ch0, app');
      ChainInData(Table(), ch0 + app', Content(), g.ClusterSize());
    }

    /** The first cluster of a file's content, allocated if there is none yet. */
    method FirstCluster(head: nat, ghost ch0: seq<nat>) returns (head': nat, ghost app: seq<nat>)
      requires Valid() && WellFormed(Table())
      requires if head == 0 then ch0 == [] else Allocated(Table(), head) && ch0 == ChainOf(Table(), head)
      requires head == 0 ==> FreeSet(Table()) != {}
      modifies this`disk
      ensures Valid() && |disk| == old(|disk|) && Content() == old(Content())
      ensures Grown(old(Table()), Table(), ch0, app)
      ensures |ch0 + app| == Max(|ch0|, 1) && head' == (ch0 + app)[0] && (head != 0 ==> head' == head)
      ensures InData(Content(), ch0 + app)
    {
      ghost var fat := Table();
      head' := head;
      app := [];
      if head' == 0 {
        FreeExists(fat);
        head' := FreeCluster();
        GrownNew(fat);
        Low28Same(LAST);
        WriteClusterLink(head', 0x0FFF_FFFF);
        app := [head'];
      } else {
        GrownStart(fat, ch0);
        assert ch0 + [] == ch0;
      }
      ChainInData(Table(), ch0 + app, Content(), g.ClusterSize());
    }

    /** Moves n clusters down the chain, linking fresh ones past its end. */
    method SeekCluster(head: nat, n: nat, ghost fat0: Fat, ghost ch0: seq<nat>, ghost app: seq<nat>)
      returns (cluster: nat, ghost app': seq<nat>)
      requires Valid() && Grown(fat0, Table(), ch0, app)
      requires ch0 + app != [] && head == (ch0 + app)[0] && InData(Content(), ch0 + app)
      requires |ch0 + app| <= Max(|ch0|, 1)
      requires n < |ch0| + |FreeSet(fat0)|
      modifies this`disk
      ensures Valid() && |disk| == old(|disk|) && Content() == old(Content())
      ensures Grown(fat0, Table(), ch0, app') && InData(Content(), ch0 + app')
      ensures |ch0 + app'| == Max(|ch0|, n + 1)
      ensures (ch0 + app')[0] == head && cluster == (ch0 + app')[n]
    {
      hide Grown, InData, FatOf, DataOf, Geometry.Fits;
      cluster := head;
      app' := app;
      var i := 0;
      while i < n
        invariant 0 <= i <= n
        invariant Valid() && |disk| == old(|disk|) && Content() == old(Content())
        invariant Grown(fat0, Table(), ch0, app') && InData(Content(), ch0 + app')
        invariant |ch0 + app'| == Max(|ch0|, i + 1)
        invariant (ch0 + app')[0] == head && cluster == (ch0 + app')[i]
      {
        FreeLeft(fat0, Table(), ch0, app', i, n + 1);
        cluster, app' := NextOrLink(cluster, fat0, ch0, app', i);
        i := i + 1;
      }
    }

    /** Puts the next bytes of buf in the current cluster, from byte start of it on. */
    method WriteCurrent(cluster: nat, buf: seq<Byte>, written: nat, start: nat, ghost data0: Data, ghost ch: seq<nat>,
                        ghost off: nat, ghost k: nat, ghost need: nat)
      returns (written': nat)
      requires Valid() && IsChain(Table(), ch) && |Table()| <= END
      requires WritePart(data0, Content(), ch, g.ClusterSize(), off, buf, written, k, start, need)
      requires written < |buf| && start < g.ClusterSize() && cluster == ch[k]
      modifies this`disk
      ensures Valid() && |disk| == old(|disk|) && Table() == old(Table())
      ensures written < written' <= |buf|
      ensures WritePart(data0, Content(), ch, g.ClusterSize(), off, buf, written', k, g.ClusterSize(), need)
    {
      hide FatOf, DataOf, FileBytes, IsChain;
      var clsize := g.ClusterSize();
      var writeLen := clsize - start;
      if writeLen > |buf| - written {
        writeLen := |buf| - written;
      }
      ChainDistinctAll(Table(), ch);
      WritePartCluster(data0, Content(), ch, clsize, off, buf, written, writeLen, k, start, need);
      PatchCluster(cluster, start, buf[written..written + writeLen]);
      written' := written + writeLen;
    }

    /** Moves on to the next cluster, linked afresh when the chain ends. */
    method NextForWrite(cluster: nat, ghost buf: seq<Byte>, ghost written: nat, ghost data0: Data, ghost off: nat,
                        ghost k: nat, ghost need: nat, ghost fat0: Fat, ghost ch0: seq<nat>, ghost app: seq<nat>)
      returns (next: nat, ghost app': seq<nat>)
      requires Valid() && Grown(fat0, Table(), ch0, app)
      requires need <= |ch0| + |FreeSet(fat0)|
      requires WritePart(data0, Content(), ch0 + app, g.ClusterSize(), off, buf, written, k, g.ClusterSize(), need)
      requires written < |buf| && cluster == (ch0 + app)[k]
      modifies this`disk
      ensures Valid() && |disk| == old(|disk|) && Content() == old(Content())
      ensures Grown(fat0, Table(), ch0, app')
      ensures app <= app' && |ch0 + app'| == Max(|ch0 + app|, k + 2) && next == (ch0 + app')[k + 1]
      ensures WritePart(data0, Content(), ch0 + app', g.ClusterSize(), off, buf, written, k + 1, 0, need)
    {
      WritePartMore(data0, Content(), ch0 + app, g.ClusterSize(), off, buf, written, k, need);
      FreeLeft(fat0, Table(), ch0, app, k, need);
      next, app' := NextOrLink(cluster, fat0, ch0, app, k);
      ChainDistinctAll(Table(), ch0 + app');
      WritePartGrow(data0, Content(), ch0 + app, ch0 + app', g.ClusterSize(), off, buf, written, k, need);
    }

    /** Writes as much of buf as fits in the current cluster and, while bytes are
        left, moves on. */
    method WriteRound(cluster: nat, buf: seq<Byte>, written: nat, start: nat, ghost data0: Data, ghost off: nat,
                      ghost k: nat, ghost need: nat, ghost fat0: Fat, ghost ch0: seq<nat>, ghost app: seq<nat>)
      returns (next: nat, written': nat, ghost app': seq<nat>, ghost k': nat)
      requires Valid() && Grown(fat0, Table(), ch0, app)
      requires need <= |ch0| + |FreeSet(fat0)| && |ch0 + app| == Max(|ch0|, k + 1)
      requires WritePart(data0, Content(), ch0 + app, g.ClusterSize(), off, buf, written, k, start, need)
      requires written < |buf| && start < g.ClusterSize() && cluster == (ch0 + app)[k]
      modifies this`disk
      ensures Valid() && |disk| == old(|disk|) && written < written' <= |buf|
      ensures Grown(fat0, Table(), ch0, app')
      ensures app <= app' && |ch0 + app'| == Max(|ch0|, k' + 1)
      ensures WritePart(data0, Content(), ch0 + app', g.ClusterSize(), off, buf, written', k', 0, need)
      ensures next == (ch0 + app')[k']
    {
      hide Grown, WritePart, IsChain;
      GrownIsChain(fat0, Table(), ch0, app);
      app', k' := app, k;
      written' := WriteCurrent(cluster, buf, written, start, data0, ch0 + app, off, k, need);
      if written' == |buf| {
        WritePartDone(data0, Content(), ch0 + app, g.ClusterSize(), off, buf, k, need);
        return cluster, written', app', k';
      }
      next, app' := NextForWrite(cluster, buf, written', data0, off, k, need, fat0, ch0, app);
      k' := k + 1;
    }

    /** Read-modify-writes cluster after cluster, from byte start of the k0-th one on. */
    method WriteClusters(first: nat, buf: seq<Byte>, start: nat, ghost k0: nat, ghost off: nat, ghost need: nat,
                         ghost fat0: Fat, ghost ch0: seq<nat>, ghost app: seq<nat>)
      returns (written: nat, ghost app': seq<nat>)
      requires Valid() && Grown(fat0, Table(), ch0, app) && InData(Content(), ch0 + app)
      requires |ch0 + app| == Max(|ch0|, k0 + 1) && first == (ch0 + app)[k0]
      requires need <= |ch0| + |FreeSet(fat0)|
      requires WriteSpan(off, |buf|, k0, start, need, g.ClusterSize())
      modifies this`disk
      ensures Valid() && |disk| == old(|disk|) && written == |buf|
      ensures app <= app'
      ensures Written(fat0, old(Content()), Table(), Content(), ch0, app', g.ClusterSize(), off, buf)
    {
      ghost var data0 := Content();
      var cluster := first;
      written := 0;
      app' := app;
      ghost var k: nat, pos: nat := k0, start;
      WritePartStart(data0, ch0 + app, g.ClusterSize(), off, buf, k0, start, need);
      while written < |buf|
        invariant Valid() && |disk| == old(|disk|)
        invariant Grown(fat0, Table(), ch0, app')
        invariant app <= app' && |ch0 + app'| == Max(|ch0|, k + 1)
        invariant WritePart(data0, Content(), ch0 + app', g.ClusterSize(), off, buf, written, k, pos, need)
        invariant cluster == (ch0 + app')[k] && pos == if written == 0 then start else 0
      {
        cluster, written, app', k := WriteRound(cluster, buf, written, if written == 0 then start else 0,
                                                data0, off, k, need, fat0, ch0, app');
        pos := 0;
      }
      WritePartEnd(fat0, data0, Table(), Content(), ch0, app', g.ClusterSize(), off, buf, k, pos, need);
    }

    /** Writes buf at the given offset of the file whose content starts at head (0
        for a file without content), extending its chain as far as needed. */
    method WriteContent(head: nat, buf: seq<Byte>, offset: nat, ghost ch0: seq<nat>)
      returns (head': nat, written: nat, ghost app: seq<nat>)
      requires Valid() && WellFormed(Table())
      requires if head == 0 then ch0 == [] else Allocated(Table(), head) && ch0 == ChainOf(Table(), head)
      requires Needed(offset, |buf|, g.ClusterSize()) <= |ch0| + |FreeSet(Table())|
      modifies this`disk
      ensures Valid() && |disk| == old(|disk|)
      ensures written == |buf|
      ensures ch0 + app != [] && head' == (ch0 + app)[0] && (head != 0 ==> head' == head)
      ensures Written(old(Table()), old(Content()), Table(), Content(), ch0, app, g.ClusterSize(), offset, buf)
    {
      ghost var fat0 := Table();
      var clsize := g.ClusterSize();
      var clusterIndex := offset / clsize;
      var clusterOffset := offset % clsize;
      ghost var need := Needed(offset, |buf|, clsize);
      RunDivides(offset, clsize);
      NeededCovers(offset, |buf|, clsize);
      var cluster;
      head', app := FirstCluster(head, ch0);
      cluster, app := SeekCluster(head', clusterIndex, fat0, ch0, app);
      ghost var reached := ch0 + app;
      written, app := WriteClusters(cluster, buf, clusterOffset, clusterIndex, offset, need, fat0, ch0, app);
      assert reached[0] == (ch0 + app)[0];
    }

    /** Reads the index-th cluster of the chain ch; fails past its end. */
    method ReadNodeIndex(head: nat, index: nat, ghost ch: seq<nat>) returns (ok: bool, buf: seq<Byte>)
      requires Valid() && IsChain(Table(), ch) && ch[0] == head
      ensures ok <==> index < |ch|
      ensures ok ==> 2 <= ch[index] < |Content()| && buf == Content()[ch[index]]
    {
      var cluster := head;
      buf := [];
      var i := 0;
      while i < index
        invariant 0 <= i <= index && i < |ch| && cluster == ch[i]
      {
        ChainAllocated(Table(), ch, i);
        cluster := NextCluster(cluster);
        if cluster == 0 {
          return false, buf;
        }
        i := i + 1;
      }
      buf := ReadCluster(cluster);
      ok := true;
    }

    /** Reads up to size bytes at the given offset of a file. */
    method ReadNode(head: nat, isDirectory: bool, offset: nat, size: nat) returns (out: seq<Byte>)
      requires Valid() && WellFormed(Table()) && (head != 0 ==> Allocated(Table(), head))
      requires offset + size < 0x1_0000_0000_0000_0000
      ensures isDirectory || head == 0 ==> out == []
      ensures !isDirectory && head != 0 ==>
                (&& InData(Content(), ChainOf(Table(), head))
                 && out == Window(FileBytes(Content(), ChainOf(Table(), head), g.ClusterSize()), offset, size))
    {
      hide ReadPart, FileBytes, CopyLen, CopyStart, LastRun, RunOf, Window, IsChain;
      out := [];
      if isDirectory || head == 0 {
        return;
      }
      var clsize := g.ClusterSize();
      var lastCluster := LastRun(offset, size, clsize);
      var clusterIndex := offset / clsize;
      ghost var ch := ChainOf(Table(), head);
      ChainInData(Table(), ch, Content(), clsize);
      ghost var b := FileBytes(Content(), ch, clsize);
      ReadPartStart(b, offset, size, clsize);
      while clusterIndex <= lastCluster
        invariant |out| <= size && ReadPart(b, offset, size, clsize, clusterIndex, out)
        decreases lastCluster + 1 - clusterIndex
      {
        var ok, content := ReadNodeIndex(head, clusterIndex, ch);
        if !ok {
          break;
        }
        var start := CopyStart(offset, clsize, clusterIndex);
        var len := CopyLen(offset, size, clsize, clusterIndex, size - |out|);
        FileBytesCluster(Content(), ch, clsize, clusterIndex);
        ReadPartStep(b, offset, size, clsize, clusterIndex, out, content);
        out := out + content[start..start + len];
        clusterIndex := clusterIndex + 1;
      }
      ReadPartEnd(b, offset, size, clsize, clusterIndex, out, |ch|);
    }

    // ----- directory entries -----

    /** The first slot of a sector whose name equals that of entry. */
    method FindInSectorBuffer(sector: Sector, key: seq<Byte>) returns (f: nat)
      ensures f == FindSlot(sector, key, 0)
    {
      var i := 0;
      while i < SLOTS_PER_SECTOR
        invariant 0 <= i <= SLOTS_PER_SECTOR
        invariant FindSlot(sector, key, 0) == FindSlot(sector, key, i * SLOT_SIZE)
      {
        if Key(SlotAt(sector, i * SLOT_SIZE)) == key {
          return i * SLOT_SIZE;
        }
        i := i + 1;
      }
      f := SECTOR_SIZE;
    }

    /** Replaces slot f of sector j of a cluster. */
    method WriteSlot(cluster: nat, j: nat, f: nat, entry: Slot)
      requires Valid() && 2 <= cluster < g.Entries() && j < g.sectorsPerCluster && f + SLOT_SIZE <= SECTOR_SIZE
      requires g.base + g.ClusterSector(cluster) + j < |disk|
      modifies this`disk
      ensures Valid() && |disk| == old(|disk|) && Table() == old(Table())
      ensures |old(Content())[cluster]| >= (j + 1) * SECTOR_SIZE
      ensures Content() == old(Content())[cluster :=
                Splice(old(Content())[cluster], j * SECTOR_SIZE,
                       Splice(old(disk)[g.base + g.ClusterSector(cluster) + j], f, entry))]
    {
      hide FatOf, DataOf, Splice, FileBytes;
      var at := g.base + g.ClusterSector(cluster) + j;
      var sector: Sector := Splice(disk[at], f, entry);
      SectorStoredEffect(g, disk, cluster, j, sector);
      DataAt(g, disk, cluster);
      disk := disk[at := sector];
    }

    /** Sector j of a cluster, and where it lies in the cluster's content. */
    method ReadSector(cluster: nat, j: nat) returns (sector: Sector)
      requires Valid() && 2 <= cluster < g.Entries() && j < g.sectorsPerCluster
      ensures g.base + g.ClusterSector(cluster) + j < |disk|
      ensures sector == disk[g.base + g.ClusterSector(cluster) + j]
      ensures j * SECTOR_SIZE + SECTOR_SIZE <= |Content()[cluster]|
      ensures sector == Content()[cluster][j * SECTOR_SIZE..j * SECTOR_SIZE + SECTOR_SIZE]
    {
      hide FatOf, DataOf, FileBytes, Flat;
      ClusterPlace(g, disk, cluster);
      var a := g.base + g.ClusterSector(cluster);
      sector := disk[a + j];
      DataAt(g, disk, cluster);
      FlatAt(disk[a..a + g.sectorsPerCluster], j);
    }

    /** Overwrites the first slot of cluster i of a directory that carries the short
        name of entry, if one does. */
    method UpdateInCluster(cluster: nat, entry: Slot, ghost dir: seq<nat>, ghost i: nat) returns (found: bool)
      requires Valid() && |Table()| <= END && IsChain(Table(), dir) && InData(Content(), dir)
      requires i < |dir| && cluster == dir[i]
      modifies this`disk
      ensures Valid() && |disk| == old(|disk|) && Table() == old(Table()) && InData(Content(), dir)
      ensures !found ==> disk == old(disk)
      ensures var b, key, at := old(FileBytes(Content(), dir, g.ClusterSize())), Key(entry), Start(i, g.ClusterSize());
              && at + g.ClusterSize() <= |b|
              && (found ==> (&& FindSlot(b, key, at) < |b|
                             && FileBytes(Content(), dir, g.ClusterSize()) == Splice(b, FindSlot(b, key, at), entry)))
              && (!found ==> FindSlot(b, key, at) == FindSlot(b, key, at + g.ClusterSize()))
      ensures forall c | 2 <= c < |Content()| && c !in dir :: Content()[c] == old(Content())[c]
    {
      hide FatOf, DataOf, FileBytes, IsChain, InData, FindSlot, Key, Sized, Geometry.Fits, Splice, Start;
      ghost var clsize := g.ClusterSize();
      ghost var data0, at, key := Content(), Start(i, clsize), Key(entry);
      ghost var b := FileBytes(data0, dir, clsize);
      FileBytesCluster(data0, dir, clsize, i);
      ChainNext(Table(), dir, i);
      var j := 0;
      while j < g.sectorsPerCluster
        invariant 0 <= j <= g.sectorsPerCluster && disk == old(disk)
        invariant FindSlot(b, key, at) == FindSlot(b, key, at + j * SECTOR_SIZE)
      {
        var sector := ReadSector(cluster, j);
        var f := FindInSectorBuffer(sector, Key(entry));
        SliceOfSlice(b, at, clsize, j * SECTOR_SIZE, SECTOR_SIZE);
        FindInSector(b, key, at + j * SECTOR_SIZE, sector, 0);
        if f < SECTOR_SIZE {
          assert FindSlot(b, key, at) == at + j * SECTOR_SIZE + f;
          WriteSlot(cluster, j, f, entry);
          SlotStored(Table(), data0, dir, clsize, i, j * SECTOR_SIZE, sector, f, entry);
          return true;
        }
        j := j + 1;
      }
      found := false;
    }

    /** Overwrites the first directory slot, from the given cluster of the directory
        on, that carries the short name of entry. */
    method UpdateEntry(cluster: nat, entry: Slot, ghost dir: seq<nat>, ghost i: nat) returns (found: bool)
      requires Valid() && |Table()| <= END && IsChain(Table(), dir) && InData(Content(), dir)
      requires i < |dir| && cluster == dir[i]
      requires var b := FileBytes(Content(), dir, g.ClusterSize());
               Start(i, g.ClusterSize()) <= |b| && FindSlot(b, Key(entry), 0) == FindSlot(b, Key(entry), Start(i, g.ClusterSize()))
      modifies this`disk
      ensures Valid() && |disk| == old(|disk|) && Table() == old(Table()) && InData(Content(), dir)
      ensures FileBytes(Content(), dir, g.ClusterSize())
              == Updated(old(FileBytes(Content(), dir, g.ClusterSize())), entry)
      ensures found <==> FindSlot(old(FileBytes(Content(), dir, g.ClusterSize())), Key(entry), 0)
                         < |old(FileBytes(Content(), dir, g.ClusterSize()))|
      ensures forall c | 2 <= c < |Content()| && c !in dir :: Content()[c] == old(Content())[c]
      decreases |dir| - i
    {
      hide FatOf, DataOf, FileBytes, IsChain, InData, FindSlot, Key, Sized, Geometry.Fits;
      ghost var b, clsize := FileBytes(Content(), dir, g.ClusterSize()), g.ClusterSize();
      ChainNext(Table(), dir, i);
      found := UpdateInCluster(cluster, entry, dir, i);
      if found {
        return;
      }
      assert Start(i, clsize) + clsize == Start(i + 1, clsize);
      var next := NextCluster(cluster);
      if next != 0 {
        found := UpdateEntry(next, entry, dir, i + 1);
        return;
      }
      FindSlotAtEnd(b, Key(entry));
    }

    /** Writes buf at the given offset of a file and brings its directory entry up to
        date.  ch0 is the file's chain so far, dir the rest of its directory. */
    method Write(node: Node, buf: seq<Byte>, offset: nat, ghost ch0: seq<nat>, ghost dir: seq<nat>)
      returns (node': Node, written: nat, ghost app: seq<nat>)
      requires Valid() && WellFormed(Table())
      requires if node.contentCluster == 0 then ch0 == []
               else Allocated(Table(), node.contentCluster) && ch0 == ChainOf(Table(), node.contentCluster)
      requires Allocated(Table(), node.parentCluster) && dir == ChainOf(Table(), node.parentCluster)
      requires forall c | c in dir :: c !in ch0
      requires Needed(offset, |buf|, g.ClusterSize()) <= |ch0| + |FreeSet(Table())|
      requires offset + |buf| < 0x1_0000_0000
      modifies this`disk
      ensures Valid() && |disk| == old(|disk|) && written == |buf|
      ensures Updates(old(Table()), old(Content()), Table(), Content(), ch0, app, dir, g.ClusterSize(), offset, buf, node'.entry)
      ensures ch0 + app != [] && node'.contentCluster == (ch0 + app)[0] && node'.parentCluster == node.parentCluster
      ensures Key(node'.entry) == Key(node.entry) && node'.entry[..12] == node.entry[..12]
      ensures EntrySize(node'.entry) == Max(EntrySize(node.entry), offset + |buf|)
      ensures EntryCluster(node'.entry) == if node.contentCluster == 0 then node'.contentCluster else EntryCluster(node.entry)
    {
      hide FatOf, DataOf, FileBytes, IsChain, Written, Updated, FindSlot, Geometry.Fits;
      ghost var fat0, data0 := Table(), Content();
      var head;
      head, written, app := WriteContent(node.contentCluster, buf, offset, ch0);
      WrittenHead(fat0, data0, Table(), Content(), ch0, app, g.ClusterSize(), offset, buf);
      var entry := node.entry;
      if node.contentCluster == 0 {
        entry := WithCluster(entry, head);
      }
      if offset + |buf| > EntrySize(entry) {
        entry := WithSize(entry, offset + |buf|);
      }
      node' := Node(head, node.parentCluster, entry);
      ghost var data1 := Content();
      DirectoryKept(fat0, data0, Table(), data1, ch0, app, dir, g.ClusterSize(), offset, buf, node.parentCluster);
      var found := UpdateEntry(node.parentCluster, entry, dir, 0);
      UpdateKeepsFile(fat0, data0, Table(), data1, Content(), ch0, app, dir, g.ClusterSize(), offset, buf, entry);
    }
  }

  /** The effect of a whole write: the file, its chain, the directory slot, and
      nothing else. */
  ghost predicate Updates(fat0: Fat, data0: Data, fat: Fat, data: Data, ch0: seq<nat>, app: seq<nat>, dir: seq<nat>,
                          cl: nat, off: nat, buf: seq<Byte>, entry: Slot)
  {
    && Grown(fat0, fat, ch0, app) && IsChain(fat, dir)
    && |data0| == |data| == |fat| && Sized(data0, cl) && Sized(data, cl)
    && InData(data, ch0 + app) && InData(data, dir)
    && |ch0 + app| == Max(|ch0|, Needed(off, |buf|, cl))
    && off + |buf| <= Start(|ch0 + app|, cl)
    && FileBytes(data, ch0 + app, cl) == Splice(FileBytes(data0, ch0 + app, cl), off, buf)
    && FileBytes(data, dir, cl) == Updated(FileBytes(data0, dir, cl), entry)
    && (forall c | 2 <= c < |data| && c !in ch0 + app && c !in dir :: data[c] == data0[c])
  }

  lemma WrittenHead(fat0: Fat, data0: Data, fat: Fat, data: Data, ch0: seq<nat>, app: seq<nat>,
                    cl: nat, off: nat, buf: seq<Byte>)
    requires Written(fat0, data0, fat, data, ch0, app, cl, off, buf) && ch0 + app != []
    ensures (ch0 + app)[0] < END
  {
  }

  /** Writing the content leaves the directory's chain and bytes alone. */
  lemma DirectoryKept(fat0: Fat, data0: Data, fat: Fat, data: Data, ch0: seq<nat>, app: seq<nat>, dir: seq<nat>,
                      cl: nat, off: nat, buf: seq<Byte>, parent: nat)
    requires Written(fat0, data0, fat, data, ch0, app, cl, off, buf)
    requires Allocated(fat0, parent) && dir == ChainOf(fat0, parent)
    requires forall c | c in dir :: c !in ch0
    ensures |fat| <= END && IsChain(fat, dir) && InData(data, dir) && InData(data0, dir)
    ensures FileBytes(data, dir, cl) == FileBytes(data0, dir, cl)
    ensures forall c | c in dir :: c !in ch0 + app
  {
    OtherChainKept(fat0, fat, ch0, app, parent);
    ChainInData(fat0, dir, data0, cl);
    forall i | 0 <= i < |dir|
      ensures data[dir[i]] == data0[dir[i]]
    {
      assert dir[i] in dir;
    }
    FileBytesAgree(data0, data, dir, cl);
  }

  /** Updating the directory leaves the file's bytes alone. */
  lemma UpdateKeepsFile(fat0: Fat, data0: Data, fat: Fat, data1: Data, data: Data, ch0: seq<nat>, app: seq<nat>,
                        dir: seq<nat>, cl: nat, off: nat, buf: seq<Byte>, entry: Slot)
    requires Written(fat0, data0, fat, data1, ch0, app, cl, off, buf)
    requires IsChain(fat, dir) && |data| == |data1| && Sized(data, cl)
    requires InData(data0, dir) && InData(data1, dir) && InData(data, dir)
    requires forall c | c in dir :: c !in ch0 + app
    requires FileBytes(data1, dir, cl) == FileBytes(data0, dir, cl)
    requires FileBytes(data, dir, cl) == Updated(FileBytes(data1, dir, cl), entry)
    requires forall c | 2 <= c < |data| && c !in dir :: data[c] == data1[c]
    ensures Updates(fat0, data0, fat, data, ch0, app, dir, cl, off, buf, entry)
  {
    var ch := ch0 + app;
    forall i | 0 <= i < |ch|
      ensures data[ch[i]] == data1[ch[i]]
    {
      assert ch[i] in ch;
    }
    FileBytesAgree(data1, data, ch, cl);
  }

  // ----- what a write means for later reads -----

  /** After a write, reading the window returns exactly the bytes written; the file
      keeps its other old bytes; past its old end it shows what the newly linked
      clusters happened to hold; and it has clusters enough for offset + size bytes. */
  lemma WriteThenRead(fat0: Fat, data0: Data, fat: Fat, data: Data, ch0: seq<nat>, app: seq<nat>, dir: seq<nat>,
                      cl: nat, off: nat, buf: seq<Byte>, entry: Slot, j: nat)
    requires Updates(fat0, data0, fat, data, ch0, app, dir, cl, off, buf, entry)
    requires j < Start(|ch0 + app|, cl) && !(off <= j < off + |buf|)
    ensures InData(data0, ch0) && InData(data0, app)
    ensures Window(FileBytes(data, ch0 + app, cl), off, |buf|) == buf
    ensures off + |buf| <= |ch0 + app| * cl
    ensures j < Start(|ch0|, cl) ==> FileBytes(data, ch0 + app, cl)[j] == FileBytes(data0, ch0, cl)[j]
    ensures Start(|ch0|, cl) <= j ==>
              (&& j - Start(|ch0|, cl) < |FileBytes(data0, app, cl)|
               && FileBytes(data, ch0 + app, cl)[j] == FileBytes(data0, app, cl)[j - Start(|ch0|, cl)])
  {
    hide Grown, IsChain, Updated, FileBytes, Needed, Start, Sized, InData, Splice, Window;
    InDataSame(data, data0, ch0 + app);
    InDataParts(data0, ch0, app);
    FileBytesConcat(data0, ch0, app, cl);
    StartIsProduct(|ch0 + app|, cl);
    SpliceReads(FileBytes(data0, ch0 + app, cl), off, buf, j);
    ConcatAt(FileBytes(data0, ch0, cl), FileBytes(data0, app, cl), j);
  }

  lemma InDataSame(data: Data, data0: Data, ch: seq<nat>)
    requires InData(data, ch) && |data0| == |data|
    ensures InData(data0, ch)
  {
  }

  lemma SpliceReads(b: seq<Byte>, off: nat, buf: seq<Byte>, j: nat)
    requires off + |buf| <= |b| && j < |b| && !(off <= j < off + |buf|)
    ensures Window(Splice(b, off, buf), off, |buf|) == buf && Splice(b, off, buf)[j] == b[j]
  {
  }

  /** A write changes no other file: every chain that shares no cluster with the
      written file or its directory keeps its clusters and its bytes, so any read
      through it returns what it did before. */
  lemma WriteKeepsOtherFiles(fat0: Fat, data0: Data, fat: Fat, data: Data, ch0: seq<nat>, app: seq<nat>, dir: seq<nat>,
                             cl: nat, off: nat, buf: seq<Byte>, entry: Slot, d: nat, o: nat, n: nat)
    requires Updates(fat0, data0, fat, data, ch0, app, dir, cl, off, buf, entry)
    requires Allocated(fat0, d)
    requires forall x | x in ChainOf(fat0, d) :: x !in ch0 && x !in dir
    ensures Allocated(fat, d) && ChainOf(fat, d) == ChainOf(fat0, d)
    ensures InData(data0, ChainOf(fat0, d)) && InData(data, ChainOf(fat, d))
    ensures Window(FileBytes(data, ChainOf(fat, d), cl), o, n) == Window(FileBytes(data0, ChainOf(fat0, d), cl), o, n)
  {
    hide FileBytes, Updated, Needed, Splice;
    var cd := ChainOf(fat0, d);
    OtherChainKept(fat0, fat, ch0, app, d);
    ChainInData(fat0, cd, data0, cl);
    forall i | 0 <= i < |cd|
      ensures data[cd[i]] == data0[cd[i]]
    {
      assert cd[i] in cd;
    }
    FileBytesAgree(data0, data, cd, cl);
  }

  lemma FindSlotAtEnd(b: seq<Byte>, key: seq<Byte>)
    ensures FindSlot(b, key, |b|) == |b|
  {
  }

  /** What overwriting a slot in cluster i of a directory does to the directory. */
  lemma SlotStored(fat: Fat, data: Data, dir: seq<nat>, cl: nat, i: nat, q: nat, sector: Sector, f: nat, entry: Slot)
    requires |fat| <= END && IsChain(fat, dir) && |data| == |fat| && Sized(data, cl) && InData(data, dir) && i < |dir|
    requires q + SECTOR_SIZE <= cl && sector == data[dir[i]][q..q + SECTOR_SIZE] && f + SLOT_SIZE <= SECTOR_SIZE
    ensures Start(i, cl) + q + f + SLOT_SIZE <= Start(|dir|, cl)
    ensures var data' := data[dir[i] := Splice(data[dir[i]], q, Splice(sector, f, entry))];
            && InData(data', dir)
            && FileBytes(data', dir, cl) == Splice(FileBytes(data, dir, cl), Start(i, cl) + q + f, entry)
  {
    hide IsChain, FileBytes;
    ChainDistinctAll(fat, dir);
    FileBytesCluster(data, dir, cl, i);
    var v := Splice(data[dir[i]], q, Splice(sector, f, entry));
    FileBytesUpdate(data, dir, cl, i, v);
    SpliceNested(FileBytes(data, dir, cl), Start(i, cl), data[dir[i]], q, sector, f, entry);
  }

  lemma ChainInData(fat: Fat, ch: seq<nat>, data: Data, cl: nat)
    requires IsChain(fat, ch) && |data| == |fat| && Sized(data, cl)
    ensures InData(data, ch)
  {
  }

  lemma ChainDistinctAll(fat: Fat, ch: seq<nat>)
    requires |fat| <= END && IsChain(fat, ch)
    ensures forall i, j | 0 <= i < j < |ch| :: ch[i] != ch[j]
  {
    forall i, j | 0 <= i < j < |ch|
      ensures ch[i] != ch[j]
    {
      ChainDistinct(fat, ch, i, j);
    }
  }

  /** A free cluster is left while the chain is shorter than a length it may reach. */
  lemma FreeLeft(fat0: Fat, fat: Fat, ch0: seq<nat>, app: seq<nat>, i: nat, need: nat)
    requires Grown(fat0, fat, ch0, app) && need <= |ch0| + |FreeSet(fat0)| && i + 1 < need
    ensures i + 1 == |ch0 + app| ==> FreeSet(fat) != {}
  {
    if i + 1 == |ch0 + app| {
      assert |FreeSet(fat)| > 0;
    }
  }
}
