/** Directory entries: 32-byte slots in the clusters of a directory, found again by
    the eleven bytes of their short name. */
module FatDirectory {
  import opened Bytes

  const SLOT_SIZE: nat := 32
  const SLOTS_PER_SECTOR: nat := 16

  type Slot = s: seq<Byte> | |s| == SLOT_SIZE witness Zeros(SLOT_SIZE)

  /** The eleven name bytes as the NUL-terminated string ustrcmp sees. */
  function Key(slot: Slot): seq<Byte> {
    CString(slot[..11])
  }

  /** The slot that starts at byte p. */
  function SlotAt(b: seq<Byte>, p: nat): Slot
    requires p + SLOT_SIZE <= |b|
  {
    b[p..p + SLOT_SIZE]
  }

  /** Where the first slot from byte p on starts that has the given key, or |b|. */
  function FindSlot(b: seq<Byte>, key: seq<Byte>, p: nat): (f: nat)
    requires p <= |b|
    ensures p <= f <= |b|
    ensures f < |b| ==> f + SLOT_SIZE <= |b| && Key(SlotAt(b, f)) == key
    decreases |b| - p
  {
    if p + SLOT_SIZE > |b| then |b|
    else if Key(SlotAt(b, p)) == key then p
    else FindSlot(b, key, p + SLOT_SIZE)
  }

  /** A directory after its first slot with the key of entry has been overwritten by it. */
  function Updated(b: seq<Byte>, entry: Slot): (b': seq<Byte>)
    ensures |b'| == |b|
  {
    var f := FindSlot(b, Key(entry), 0);
    if f == |b| then b else Splice(b, f, entry)
  }

  /** The search goes on slot by slot. */
  lemma FindSlotSkips(b: seq<Byte>, key: seq<Byte>, i: nat)
    requires i * SLOT_SIZE <= |b|
    requires forall k | 0 <= k < i :: Key(SlotAt(b, k * SLOT_SIZE)) != key
    ensures FindSlot(b, key, 0) == FindSlot(b, key, i * SLOT_SIZE)
  {
    if i > 0 {
      FindSlotSkips(b, key, i - 1);
      assert Key(SlotAt(b, (i - 1) * SLOT_SIZE)) != key;
    }
  }

  /** The search stops at the first slot with the key. */
  lemma FindSlotStops(b: seq<Byte>, key: seq<Byte>, i: nat, k: nat)
    requires i <= k && (k + 1) * SLOT_SIZE <= |b|
    requires Key(SlotAt(b, k * SLOT_SIZE)) == key
    ensures FindSlot(b, key, i * SLOT_SIZE) <= k * SLOT_SIZE
    ensures FindSlot(b, key, i * SLOT_SIZE) % SLOT_SIZE == 0
    decreases k - i
  {
    if Key(SlotAt(b, i * SLOT_SIZE)) != key {
      FindSlotStops(b, key, i + 1, k);
    }
  }

  /** The slot a file was read from is the one updated exactly when no earlier slot
      carries the same short name. */
  lemma UpdatesOwnSlot(b: seq<Byte>, own: nat, entry: Slot)
    requires (own + 1) * SLOT_SIZE <= |b|
    requires Key(SlotAt(b, own * SLOT_SIZE)) == Key(entry) && SlotAt(b, own * SLOT_SIZE) != entry
    ensures SlotAt(Updated(b, entry), own * SLOT_SIZE) == entry
            <==> forall k | 0 <= k < own :: Key(SlotAt(b, k * SLOT_SIZE)) != Key(entry)
  {
    hide FindSlot, Key;
    var key, at := Key(entry), own * SLOT_SIZE;
    if forall k | 0 <= k < own :: Key(SlotAt(b, k * SLOT_SIZE)) != key {
      FindSlotSkips(b, key, own);
      FindSlotHere(b, key, at);
    } else {
      var k :| 0 <= k < own && Key(SlotAt(b, k * SLOT_SIZE)) == key;
      FindSlotStops(b, key, 0, k);
      SlotKept(b, FindSlot(b, key, 0), own, entry);
    }
  }

  lemma FindSlotHere(b: seq<Byte>, key: seq<Byte>, p: nat)
    requires p + SLOT_SIZE <= |b| && Key(SlotAt(b, p)) == key
    ensures FindSlot(b, key, p) == p
  {
  }

  lemma SlotKept(b: seq<Byte>, f: nat, own: nat, entry: Slot)
    requires (own + 1) * SLOT_SIZE <= |b| && f < own * SLOT_SIZE && f % SLOT_SIZE == 0
    ensures f + SLOT_SIZE <= |b|
    ensures SlotAt(Splice(b, f, entry), own * SLOT_SIZE) == SlotAt(b, own * SLOT_SIZE)
  {
    assert f + SLOT_SIZE <= own * SLOT_SIZE;
  }

  /** Two files with one short name: a write to the second overwrites the slot of the first
      file of that name, and leaves the slot of the second alone. */
  lemma UpdatesOtherSlot(b: seq<Byte>, j: nat, own: nat, entry: Slot) returns (i: nat)
    requires j < own && (own + 1) * SLOT_SIZE <= |b|
    requires Key(SlotAt(b, j * SLOT_SIZE)) == Key(SlotAt(b, own * SLOT_SIZE)) == Key(entry)
    ensures i <= j && Key(SlotAt(b, i * SLOT_SIZE)) == Key(entry)
    ensures forall k | 0 <= k < i :: Key(SlotAt(b, k * SLOT_SIZE)) != Key(entry)
    ensures Updated(b, entry) == Splice(b, i * SLOT_SIZE, entry)
    ensures SlotAt(Updated(b, entry), own * SLOT_SIZE) == SlotAt(b, own * SLOT_SIZE)
  {
    hide FindSlot, Key;
    var key := Key(entry);
    i := 0;
    while Key(SlotAt(b, i * SLOT_SIZE)) != key
      invariant 0 <= i <= j && forall k | 0 <= k < i :: Key(SlotAt(b, k * SLOT_SIZE)) != key
      decreases j - i
    {
      i := i + 1;
    }
    FindSlotSkips(b, key, i);
    FindSlotHere(b, key, i * SLOT_SIZE);
    SlotKept(b, i * SLOT_SIZE, own, entry);
  }

  /** Searching one sector decides the search through a directory at that sector. */
  lemma {:induction false} FindInSector(b: seq<Byte>, key: seq<Byte>, p: nat, s: seq<Byte>, q: nat)
    requires p + |s| <= |b| && s == b[p..p + |s|]
    requires q <= |s| && (|s| - q) % SLOT_SIZE == 0
    ensures FindSlot(b, key, p + q) ==
            if FindSlot(s, key, q) < |s| then p + FindSlot(s, key, q) else FindSlot(b, key, p + |s|)
    decreases |s| - q
  {
    hide Key;
    if q < |s| {
      SlotsLeft(|s| - q);
      SliceOfSlice(b, p, |s|, q, SLOT_SIZE);
      if Key(SlotAt(s, q)) != key {
        FindInSector(b, key, p, s, q + SLOT_SIZE);
      }
    }
  }

  lemma SlotsLeft(n: nat)
    requires 0 < n && n % SLOT_SIZE == 0
    ensures SLOT_SIZE <= n && (n - SLOT_SIZE) % SLOT_SIZE == 0
  {
  }

  /** Overwriting a slot inside a sector inside a cluster overwrites it in the file. */
  lemma SpliceNested(b: seq<Byte>, p: nat, cluster: seq<Byte>, q: nat, sector: seq<Byte>, f: nat, entry: seq<Byte>)
    requires p + |cluster| <= |b| && cluster == b[p..p + |cluster|]
    requires q + |sector| <= |cluster| && sector == cluster[q..q + |sector|]
    requires f + |entry| <= |sector|
    ensures Splice(b, p, Splice(cluster, q, Splice(sector, f, entry))) == Splice(b, p + q + f, entry)
  {
    SplicePart(cluster, q, sector, f, entry);
    SplicePart(b, p, cluster, q + f, entry);
  }

  lemma SplicePart(b: seq<Byte>, p: nat, part: seq<Byte>, f: nat, entry: seq<Byte>)
    requires p + |part| <= |b| && part == b[p..p + |part|] && f + |entry| <= |part|
    ensures Splice(b, p, Splice(part, f, entry)) == Splice(b, p + f, entry)
  {
    var l, r := Splice(b, p, Splice(part, f, entry)), Splice(b, p + f, entry);
    forall k | 0 <= k < |b|
      ensures l[k] == r[k]
    {
      assert p <= k < p + |part| ==> part[k - p] == b[k];
    }
  }

  /** A key is the first eleven bytes up to a NUL. */
  lemma KeyIs(s: Slot, key: seq<Byte>)
    ensures Key(s) == key <==> |key| <= 11 && 0 !in key && s[..|key|] == key && (|key| < 11 ==> s[|key|] == 0)
  {
    hide CString;
    var t := s[..11];
    CStringStarts(t);
    if Key(s) == key {
      assert t[..|key|] == s[..|key|];
    }
    if |key| <= 11 && 0 !in key && s[..|key|] == key && (|key| < 11 ==> s[|key|] == 0) {
      assert t[..|key|] == s[..|key|];
      assert forall k | 0 <= k < |key| :: t[k] == key[k];
      CStringText(t, |key|);
    }
  }

  // ----- the fields of an entry that a write changes -----

  /** cluster_high and cluster_low together. */
  function EntryCluster(e: Slot): nat {
    var b20: nat, b21: nat, b26: nat, b27: nat := e[20], e[21], e[26], e[27];
    (b21 * 0x100 + b20) * 0x1_0000 + (b27 * 0x100 + b26)
  }

  function EntrySize(e: Slot): nat {
    Word(e, 28)
  }

  /** Where the fields are: the low half of the cluster from byte 26 on, the high half from
      byte 20 on, the size from byte 28 on, the lowest byte first. */
  lemma FieldBytes(e: Slot)
    ensures var c := EntryCluster(e);
            e[26] == c % 256 && e[27] == c / 0x100 % 256 && e[20] == c / 0x1_0000 % 256 && e[21] == c / 0x100_0000
    ensures var n := EntrySize(e);
            e[28] == n % 256 && e[29] == n / 0x100 % 256 && e[30] == n / 0x1_0000 % 256 && e[31] == n / 0x100_0000
  {
    FourBytes(e[26], e[27], e[20], e[21], EntryCluster(e));
    FourBytes(e[28], e[29], e[30], e[31], EntrySize(e));
  }

  lemma FourBytes(a: Byte, b: Byte, c: Byte, d: Byte, v: nat)
    requires v == a + 0x100 * b + 0x1_0000 * c + 0x100_0000 * d
    ensures a == v % 256 && b == v / 0x100 % 256 && c == v / 0x1_0000 % 256 && d == v / 0x100_0000
  {
    assert v / 0x100 == b + 0x100 * c + 0x1_0000 * d;
    assert v / 0x1_0000 == c + 0x100 * d;
  }

  function WithCluster(e: Slot, c: nat): (e': Slot)
    requires c < 0x1_0000_0000
    ensures EntryCluster(e') == c && EntrySize(e') == EntrySize(e) && Key(e') == Key(e) && e'[..12] == e[..12]
  {
    var w := WordBytes(c);
    var e' := Splice(Splice(e, 20, w[2..]), 26, w[..2]);
    assert e'[..11] == e[..11];
    e'
  }

  function WithSize(e: Slot, size: nat): (e': Slot)
    requires size < 0x1_0000_0000
    ensures EntrySize(e') == size && EntryCluster(e') == EntryCluster(e) && Key(e') == Key(e) && e'[..12] == e[..12]
  {
    var e' := Splice(e, 28, WordBytes(size));
    assert e'[..11] == e[..11];
    assert Word(e', 28) == Word(WordBytes(size), 0);
    e'
  }

  /** What the driver keeps of a directory entry it has looked up. */
  datatype Node = Node(contentCluster: nat, parentCluster: nat, entry: Slot)
}
