/** How a FAT32 volume lies on the card: the table in the sectors from firstFat
    on, four bytes an entry, and the data clusters from firstData on. */
module FatDisk {
  import opened Bytes
  import opened Runs
  import opened FatChain

  type Disk = seq<Sector>

  const ENTRIES_PER_SECTOR: nat := 128

  /** base is the partition's first sector; the others come from the boot sector. */
  datatype Geometry = Geometry(base: nat, firstFat: nat, fatSectors: nat, sectorsPerCluster: nat, firstData: nat) {

    function Entries(): nat {
      fatSectors * ENTRIES_PER_SECTOR
    }

    function ClusterSize(): nat {
      sectorsPerCluster * SECTOR_SIZE
    }

    /** The partition-relative first sector of a data cluster. */
    function ClusterSector(c: nat): nat
      requires 2 <= c
    {
      Start(c - 2, sectorsPerCluster) + firstData
    }

    /** Every table entry names a data cluster on the card, the table lies below the
        data, and byte offsets fit in 32 bits. */
    predicate Fits(disk: Disk) {
      && 0 < fatSectors && 0 < sectorsPerCluster
      && Entries() <= END
      && firstFat + fatSectors <= firstData
      && base + ClusterSector(Entries()) <= |disk|
      && ClusterSector(Entries()) * SECTOR_SIZE <= 0x1_0000_0000
    }

    /** The card sector that holds the table entry of cluster n, and the offset in it. */
    function EntrySector(n: nat): nat {
      base + firstFat + n * 4 / SECTOR_SIZE
    }

    function EntryOffset(n: nat): nat {
      n * 4 % SECTOR_SIZE
    }
  }

  /** Where an entry lies: the sector and offset arithmetic of the source. */
  lemma EntryPlace(g: Geometry, n: nat)
    ensures g.EntrySector(n) == g.base + g.firstFat + n / ENTRIES_PER_SECTOR
    ensures g.EntryOffset(n) == n % ENTRIES_PER_SECTOR * 4 <= SECTOR_SIZE - 4
    ensures n < g.Entries() ==> n / ENTRIES_PER_SECTOR < g.fatSectors
  {
  }

  /** The whole table lies on the card, below the data. */
  lemma TableBelowData(g: Geometry, disk: Disk)
    requires g.Fits(disk)
    ensures g.base + g.firstFat + g.fatSectors <= g.base + g.firstData <= |disk|
  {
  }

  lemma ClusterPlace(g: Geometry, disk: Disk, c: nat)
    requires g.Fits(disk) && 2 <= c < g.Entries()
    ensures g.firstData <= g.ClusterSector(c)
    ensures g.ClusterSector(c) + g.sectorsPerCluster <= g.ClusterSector(g.Entries())
    ensures g.base + g.ClusterSector(c) + g.sectorsPerCluster <= |disk|
  {
    ClusterOrder(g, c, g.Entries());
  }

  /** Distinct clusters lie in distinct runs of sectors. */
  lemma ClusterOrder(g: Geometry, c: nat, d: nat)
    requires 2 <= c < d
    ensures g.firstData <= g.ClusterSector(c)
    ensures g.ClusterSector(c) + g.sectorsPerCluster <= g.ClusterSector(d)
  {
    StartMono(c - 2, d - 2, g.sectorsPerCluster);
  }

  /** The 28-bit entry of cluster n. */
  function Entry(g: Geometry, disk: Disk, n: nat): nat
    requires g.Fits(disk) && n < g.Entries()
  {
    EntryPlace(g, n);
    TableBelowData(g, disk);
    Low28(Word(disk[g.EntrySector(n)], g.EntryOffset(n)))
  }

  /** The first n entries of the table. */
  function FatPrefix(g: Geometry, disk: Disk, n: nat): (fat: Fat)
    requires g.Fits(disk) && n <= g.Entries()
    ensures |fat| == n
  {
    if n == 0 then [] else FatPrefix(g, disk, n - 1) + [Entry(g, disk, n - 1)]
  }

  function FatOf(g: Geometry, disk: Disk): (fat: Fat)
    requires g.Fits(disk)
    ensures |fat| == g.Entries()
  {
    FatPrefix(g, disk, g.Entries())
  }

  lemma FatPrefixAt(g: Geometry, disk: Disk, n: nat, m: nat)
    requires g.Fits(disk) && m < n <= g.Entries()
    ensures FatPrefix(g, disk, n)[m] == Entry(g, disk, m)
  {
  }

  lemma FatAt(g: Geometry, disk: Disk, n: nat)
    requires g.Fits(disk) && n < g.Entries()
    ensures FatOf(g, disk)[n] == Entry(g, disk, n)
  {
    FatPrefixAt(g, disk, g.Entries(), n);
  }

  function ClusterBytes(g: Geometry, disk: Disk, c: nat): (b: seq<Byte>)
    requires g.Fits(disk) && 2 <= c < g.Entries()
    ensures |b| == g.ClusterSize()
  {
    ClusterPlace(g, disk, c);
    var a := g.base + g.ClusterSector(c);
    Flat(disk[a..a + g.sectorsPerCluster])
  }

  /** The content of the clusters below n; 0 and 1 name no data. */
  function DataPrefix(g: Geometry, disk: Disk, n: nat): (data: seq<seq<Byte>>)
    requires g.Fits(disk) && n <= g.Entries()
    ensures |data| == n
  {
    if n == 0 then [] else DataPrefix(g, disk, n - 1) + [if n - 1 < 2 then [] else ClusterBytes(g, disk, n - 1)]
  }

  function DataOf(g: Geometry, disk: Disk): (data: seq<seq<Byte>>)
    requires g.Fits(disk)
    ensures |data| == g.Entries()
  {
    DataPrefix(g, disk, g.Entries())
  }

  lemma DataPrefixAt(g: Geometry, disk: Disk, n: nat, c: nat)
    requires g.Fits(disk) && c < n <= g.Entries()
    ensures DataPrefix(g, disk, n)[c] == if c < 2 then [] else ClusterBytes(g, disk, c)
  {
  }

  lemma DataAt(g: Geometry, disk: Disk, c: nat)
    requires g.Fits(disk) && c < g.Entries()
    ensures DataOf(g, disk)[c] == if c < 2 then [] else ClusterBytes(g, disk, c)
  {
    DataPrefixAt(g, disk, g.Entries(), c);
  }

  /** The card after a word has been stored in the entry of cluster n. */
  function EntryStored(g: Geometry, disk: Disk, n: nat, v: nat): (disk': Disk)
    requires g.Fits(disk) && n < g.Entries() && v < 0x1000_0000
    ensures |disk'| == |disk|
    ensures forall i | 0 <= i < |disk| && i != g.EntrySector(n) :: disk'[i] == disk[i]
  {
    EntryPlace(g, n);
    TableBelowData(g, disk);
    var s := g.EntrySector(n);
    disk[s := Splice(disk[s], g.EntryOffset(n), WordBytes(v))]
  }

  /** Entries that share a sector lie at disjoint offsets. */
  lemma EntriesApart(g: Geometry, m: nat, n: nat)
    requires m != n && g.EntrySector(m) == g.EntrySector(n)
    ensures g.EntryOffset(m) + 4 <= g.EntryOffset(n) || g.EntryOffset(n) + 4 <= g.EntryOffset(m)
  {
    EntryPlace(g, m);
    EntryPlace(g, n);
  }

  /** A stored entry is touched only if it is the one stored. */
  lemma EntryStoredAt(g: Geometry, disk: Disk, n: nat, v: nat, m: nat)
    requires g.Fits(disk) && n < g.Entries() && m < g.Entries() && v < 0x1000_0000
    ensures Entry(g, EntryStored(g, disk, n, v), m) == if m == n then v else Entry(g, disk, m)
  {
    EntryPlace(g, n);
    EntryPlace(g, m);
    TableBelowData(g, disk);
    var s, o, p := g.EntrySector(n), g.EntryOffset(n), g.EntryOffset(m);
    Low28Same(v);
    if m == n {
      WordStored(disk[s], o, v, o);
    } else if g.EntrySector(m) == s {
      EntriesApart(g, m, n);
      WordStored(disk[s], o, v, p);
    }
  }

  lemma WordStored(s: seq<Byte>, o: nat, v: nat, p: nat)
    requires o + 4 <= |s| && p + 4 <= |s| && v < 0x1_0000_0000
    requires p == o || p + 4 <= o || o + 4 <= p
    ensures Word(Splice(s, o, WordBytes(v)), p) == if p == o then v else Word(s, p)
  {
    var s', b := Splice(s, o, WordBytes(v)), WordBytes(v);
    if p == o {
      assert s'[o] == b[0] && s'[o + 1] == b[1] && s'[o + 2] == b[2] && s'[o + 3] == b[3];
    }
  }

  /** A cluster keeps its content when its sectors do. */
  lemma ClusterKept(g: Geometry, disk: Disk, disk': Disk, c: nat)
    requires g.Fits(disk) && |disk'| == |disk| && 2 <= c < g.Entries()
    requires forall i | g.base + g.ClusterSector(c) <= i < g.base + g.ClusterSector(c) + g.sectorsPerCluster && i < |disk| ::
               disk'[i] == disk[i]
    ensures g.Fits(disk') && ClusterBytes(g, disk', c) == ClusterBytes(g, disk, c)
  {
    ClusterPlace(g, disk, c);
    var a := g.base + g.ClusterSector(c);
    assert disk'[a..a + g.sectorsPerCluster] == disk[a..a + g.sectorsPerCluster];
  }

  /** Storing an entry changes the one table entry and nothing else. */
  lemma EntryStoredEffect(g: Geometry, disk: Disk, n: nat, v: nat)
    requires g.Fits(disk) && n < g.Entries() && v < 0x1000_0000
    ensures FatOf(g, EntryStored(g, disk, n, v)) == FatOf(g, disk)[n := v]
    ensures DataOf(g, EntryStored(g, disk, n, v)) == DataOf(g, disk)
  {
    hide EntryStored, FatOf, DataOf;
    var disk' := EntryStored(g, disk, n, v);
    forall m: nat | m < g.Entries()
      ensures FatOf(g, disk')[m] == FatOf(g, disk)[n := v][m]
      ensures DataOf(g, disk')[m] == DataOf(g, disk)[m]
    {
      EntryStoredAt(g, disk, n, v, m);
      FatAt(g, disk, m);
      FatAt(g, disk', m);
      DataAt(g, disk, m);
      DataAt(g, disk', m);
      if 2 <= m {
        EntryPlace(g, n);
        ClusterPlace(g, disk, m);
        ClusterKept(g, disk, disk', m);
      }
    }
  }

  /** The card after a multi-sector write. */
  function Stored(disk: Disk, a: nat, ss: seq<Sector>): (disk': Disk)
    requires a + |ss| <= |disk|
    ensures |disk'| == |disk|
    ensures forall i | 0 <= i < |disk| :: disk'[i] == if a <= i < a + |ss| then ss[i - a] else disk[i]
  {
    disk[..a] + ss + disk[a + |ss|..]
  }

  /** The card after cluster c has been written. */
  function ClusterStored(g: Geometry, disk: Disk, c: nat, buf: seq<Byte>): (disk': Disk)
    requires g.Fits(disk) && 2 <= c < g.Entries() && |buf| == g.ClusterSize()
    ensures |disk'| == |disk|
  {
    ClusterPlace(g, disk, c);
    Stored(disk, g.base + g.ClusterSector(c), Sectors(buf, g.sectorsPerCluster))
  }

  lemma ClusterStoredAt(g: Geometry, disk: Disk, c: nat, buf: seq<Byte>, d: nat)
    requires g.Fits(disk) && 2 <= c < g.Entries() && 2 <= d < g.Entries() && |buf| == g.ClusterSize()
    ensures ClusterBytes(g, ClusterStored(g, disk, c, buf), d) == if d == c then buf else ClusterBytes(g, disk, d)
  {
    ClusterPlace(g, disk, c);
    ClusterPlace(g, disk, d);
    var a, disk' := g.base + g.ClusterSector(c), ClusterStored(g, disk, c, buf);
    if d == c {
      assert disk'[a..a + g.sectorsPerCluster] == Sectors(buf, g.sectorsPerCluster);
    } else {
      ClusterOrder(g, if c < d then c else d, if c < d then d else c);
      ClusterKept(g, disk, disk', d);
    }
  }

  /** Writing one cluster changes that cluster and nothing else. */
  lemma ClusterStoredEffect(g: Geometry, disk: Disk, c: nat, buf: seq<Byte>)
    requires g.Fits(disk) && 2 <= c < g.Entries() && |buf| == g.ClusterSize()
    ensures FatOf(g, ClusterStored(g, disk, c, buf)) == FatOf(g, disk)
    ensures DataOf(g, ClusterStored(g, disk, c, buf)) == DataOf(g, disk)[c := buf]
  {
    var disk' := ClusterStored(g, disk, c, buf);
    ClusterPlace(g, disk, c);
    forall m: nat | m < g.Entries()
      ensures FatOf(g, disk')[m] == FatOf(g, disk)[m]
      ensures DataOf(g, disk')[m] == DataOf(g, disk)[c := buf][m]
    {
      FatAt(g, disk, m);
      FatAt(g, disk', m);
      DataAt(g, disk, m);
      DataAt(g, disk', m);
      EntryPlace(g, m);
      if 2 <= m {
        ClusterStoredAt(g, disk, c, buf, m);
      }
    }
  }

  /** Writing one sector of a cluster replaces those 512 bytes of it. */
  lemma SectorStoredEffect(g: Geometry, disk: Disk, c: nat, j: nat, s: Sector)
    requires g.Fits(disk) && 2 <= c < g.Entries() && j < g.sectorsPerCluster
    ensures g.base + g.ClusterSector(c) + j < |disk| && |ClusterBytes(g, disk, c)| >= (j + 1) * SECTOR_SIZE
    ensures var disk' := disk[g.base + g.ClusterSector(c) + j := s];
            && FatOf(g, disk') == FatOf(g, disk)
            && DataOf(g, disk') == DataOf(g, disk)[c := Splice(ClusterBytes(g, disk, c), j * SECTOR_SIZE, s)]
  {
    hide FatOf, DataOf, Flat, Splice;
    ClusterPlace(g, disk, c);
    var a, k := g.base + g.ClusterSector(c), g.sectorsPerCluster;
    var disk', old' := disk[a + j := s], ClusterBytes(g, disk, c);
    FlatUpdate(disk[a..a + k], j, s);
    var buf := Splice(old', j * SECTOR_SIZE, s);
    assert disk'[a..a + k] == disk[a..a + k][j := s];
    SectorsUnique(disk'[a..a + k], Sectors(buf, k));
    assert disk' == ClusterStored(g, disk, c, buf);
    ClusterStoredEffect(g, disk, c, buf);
  }

  /** The bytes determine the sectors. */
  lemma {:induction false} SectorsUnique(ss: seq<Sector>, tt: seq<Sector>)
    requires |ss| == |tt| && Flat(ss) == Flat(tt)
    ensures ss == tt
  {
    if ss != [] {
      assert ss[0] == Flat(ss)[..SECTOR_SIZE] && tt[0] == Flat(tt)[..SECTOR_SIZE];
      assert Flat(ss[1..]) == Flat(ss)[SECTOR_SIZE..] && Flat(tt[1..]) == Flat(tt)[SECTOR_SIZE..];
      SectorsUnique(ss[1..], tt[1..]);
      assert ss == [ss[0]] + ss[1..] && tt == [tt[0]] + tt[1..];
    }
  }

  /** Every cluster holds ClusterSize bytes. */
  lemma DataSized(g: Geometry, disk: Disk)
    requires g.Fits(disk)
    ensures forall c | 2 <= c < g.Entries() :: |DataOf(g, disk)[c]| == g.ClusterSize()
  {
    forall c: nat | 2 <= c < g.Entries()
      ensures |DataOf(g, disk)[c]| == g.ClusterSize()
    {
      DataAt(g, disk, c);
    }
  }

  // ----- where everything lies, byte by byte -----

  /** Byte i of cluster c lies in sector s, counted from the start of the data region. */
  lemma ContentByte(g: Geometry, disk: Disk, c: nat, i: nat, s: nat)
    requires g.Fits(disk) && 2 <= c < |DataOf(g, disk)| && i < |DataOf(g, disk)[c]|
    requires s == g.base + g.firstData + (c - 2) * g.sectorsPerCluster + i / 512
    ensures s < |disk| && DataOf(g, disk)[c][i] == disk[s][i % 512]
    ensures |DataOf(g, disk)| == g.fatSectors * 128 && |DataOf(g, disk)[c]| == g.sectorsPerCluster * 512
  {
    hide DataOf, Flat, Start;
    DataAt(g, disk, c);
    ClusterPlace(g, disk, c);
    StartIsProduct(c - 2, g.sectorsPerCluster);
    var a := g.base + g.ClusterSector(c);
    FlatByte(disk[a..a + g.sectorsPerCluster], i);
  }

  lemma FlatByte(ss: seq<Sector>, i: nat)
    requires i < |ss| * SECTOR_SIZE
    ensures i / 512 < |ss| && Flat(ss)[i] == ss[i / 512][i % 512]
  {
    hide Flat;
    var j := i / 512;
    FlatAt(ss, j);
    assert Flat(ss)[j * SECTOR_SIZE..(j + 1) * SECTOR_SIZE][i % 512] == Flat(ss)[i];
  }

  /** Entry n of the table, from its four bytes, the lowest first; the top four bits are not
      part of it. */
  lemma TableEntry(g: Geometry, disk: Disk, n: nat)
    requires g.Fits(disk) && n < |FatOf(g, disk)|
    ensures |FatOf(g, disk)| == g.fatSectors * 128 && g.base + g.firstFat + n / 128 < |disk|
    ensures var s, o := disk[g.base + g.firstFat + n / 128], n % 128 * 4;
            FatOf(g, disk)[n] == s[o] as nat + 0x100 * s[o + 1] as nat + 0x1_0000 * s[o + 2] as nat
                                 + 0x100_0000 * (s[o + 3] as nat % 16)
  {
    hide FatOf;
    FatAt(g, disk, n);
    EntryPlace(g, n);
    TableBelowData(g, disk);
    var s, o := disk[g.base + g.firstFat + n / 128], n % 128 * 4;
    Top4(s[o] as nat + 0x100 * s[o + 1] as nat + 0x1_0000 * s[o + 2] as nat, s[o + 3]);
  }

  lemma Top4(low: nat, b: Byte)
    requires low < 0x100_0000
    ensures Low28(low + 0x100_0000 * b as nat) == low + 0x100_0000 * (b as nat % 16)
  {
  }
}
