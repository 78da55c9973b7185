/** The short name of a file, and creating and listing the entries of a directory cluster. */
module FatEntries {
  import opened Options
  import opened Bytes
  import opened FatDirectory
  import opened FatNames

  // ----- creating -----

  /** The short name for a name in memory. */
  method GenerateShort(text: seq<Byte>) returns (short: seq<Byte>)
    requires IsText(text) && CString(text) != []
    ensures short == ShortOf(text)
  {
    hide CString, DotOf, FirstOf, Upper;
    var length := |CString(text)|;
    CStringStarts(text);
    var dot := 0;
    var i := 0;
    ghost var name := CString(text);
    while i < length
      invariant 0 <= i <= length && dot == 0 && DOT !in name[..i]
    {
      if text[i] == DOT {
        dot := i;
        break;
      }
      i := i + 1;
    }
    DotFound(name, i);
    short := PutStem(text);
    short := PutExtension(text, dot, short);
  }

  /** The first eight characters of the short name. */
  method PutStem(text: seq<Byte>) returns (short: seq<Byte>)
    requires IsText(text)
    ensures |short| == 11
    ensures forall k | 0 <= k < 11 :: short[k] == if k < 8 && k < FirstOf(text, DOT) then Upper(text[k]) else SPACE
  {
    short := seq(11, i => SPACE);
    var i := 0;
    while i < 8
      invariant 0 <= i <= 8 && |short| == 11 && i <= FirstOf(text, DOT)
      invariant forall k | 0 <= k < 11 :: short[k] == if k < i then Upper(text[k]) else SPACE
    {
      if text[i] == DOT {
        break;
      }
      short := short[i := Upper(text[i])];
      i := i + 1;
    }
  }

  /** The extension, from behind place dot on. */
  method PutExtension(text: seq<Byte>, dot: nat, stem: seq<Byte>) returns (short: seq<Byte>)
    requires IsText(text) && dot < |CString(text)| && |stem| == 11 && stem[8] == stem[9] == stem[10] == SPACE
    ensures |short| == 11 && forall k | 0 <= k < 8 :: short[k] == stem[k]
    ensures forall k | 8 <= k < 11 ::
              short[k] == if dot + k - 7 < |CString(text)| then Upper(CString(text)[dot + k - 7]) else SPACE
  {
    hide Upper;
    CStringStarts(text);
    ghost var name := CString(text);
    short := stem;
    var i := dot + 1;
    while i < dot + 4 && text[i] != 0
      invariant dot + 1 <= i <= dot + 4 && i <= |name| && |short| == 11
      invariant forall k | 0 <= k < 8 :: short[k] == stem[k]
      invariant forall k | 8 <= k < 11 :: short[k] == if k < i - dot + 7 then Upper(name[dot + k - 7]) else SPACE
    {
      assert text[i] == name[i];
      short := short[i - dot - 1 + 8 := Upper(text[i])];
      i := i + 1;
    }
  }

  lemma DotFound(name: seq<Byte>, i: nat)
    requires name != [] && i <= |name| && DOT !in name[..i] && (i < |name| ==> name[i] == DOT)
    ensures DotOf(name) == if i < |name| then i else 0
  {
    assert forall k | 0 <= k < i :: name[k] == name[..i][k];
  }

  method LfnChecksum(short: seq<Byte>) returns (sum: Byte)
    requires |short| == 11
    ensures sum == Checksum(short, 11)
  {
    sum := 0;
    var i := 0;
    while i < 11
      invariant 0 <= i <= 11 && sum == Checksum(short, i)
    {
      var s: nat, c: nat := sum, short[i];
      sum := ((if s % 2 == 1 then 0x80 else 0) + s / 2 + c) % 256;
      i := i + 1;
    }
  }

  /** Stores count characters of a name, from character first on, at byte p of a slot. */
  method PutCharacters(lfn: Slot, p: nat, first: nat, count: nat, name: seq<Byte>, nullTerminated: bool)
    returns (out: Slot, terminated: bool)
    requires p + 2 * count <= SLOT_SIZE && nullTerminated == (|name| < first)
    ensures terminated == (|name| < first + count)
    ensures forall k: nat | k < count :: ShortAt(out, p + 2 * k) == Stored(name, first + k)
    ensures forall q: nat | q < SLOT_SIZE && !(p <= q < p + 2 * count) :: out[q] == lfn[q]
  {
    out, terminated := lfn, nullTerminated;
    var k := 0;
    while k < count
      invariant 0 <= k <= count && terminated == (|name| < first + k)
      invariant forall m: nat | m < k :: ShortAt(out, p + 2 * m) == Stored(name, first + m)
      invariant forall q: nat | q < SLOT_SIZE && !(p <= q < p + 2 * k) :: out[q] == lfn[q]
    {
      var short: nat;
      if first + k < |name| {
        short := name[first + k];
      } else if first + k == |name| && !terminated {
        short := 0;
        terminated := true;
      } else {
        short := 0xFFFF;
      }
      out := PutShort(out, p + 2 * k, short);
      k := k + 1;
    }
  }

  function PutShort(s: Slot, p: nat, v: nat): (r: Slot)
    requires p + 2 <= SLOT_SIZE && v < 0x1_0000
    ensures ShortAt(r, p) == v
    ensures forall q: nat | q < SLOT_SIZE && q != p && q != p + 1 :: r[q] == s[q]
  {
    s[p := v % 256][p + 1 := v / 256]
  }

  /** The long entry for piece j of a name. */
  method MakeLong(name: seq<Byte>, j: nat, checksum: Byte, nullTerminated: bool) returns (lfn: Slot, terminated: bool)
    requires IsFileName(name) && j < PieceCount(name) && nullTerminated == (|name| < PIECE * j)
    ensures HoldsPiece(lfn, name, j, checksum) && terminated == (|name| < PIECE * (j + 1))
  {
    hide Stored, ShortAt;
    lfn := Zeros(SLOT_SIZE);
    lfn := lfn[13 := checksum];
    var order := j + 1;
    if j + 1 == PieceCount(name) {
      order := order + LAST_LONG;
    }
    lfn := lfn[0 := order];
    lfn := lfn[11 := ATTR_LONG];
    ghost var head := lfn;
    var part;
    lfn, part := PutCharacters(lfn, 1, PIECE * j, 5, name, nullTerminated);
    ghost var one := lfn;
    lfn, part := PutCharacters(lfn, 14, PIECE * j + 5, 6, name, part);
    ghost var two := lfn;
    lfn, terminated := PutCharacters(lfn, 28, PIECE * j + 11, 2, name, part);
    PartsMakePiece(head, one, two, lfn, name, j, checksum);
  }

  lemma PartsMakePiece(head: Slot, one: Slot, two: Slot, lfn: Slot, name: seq<Byte>, j: nat, checksum: Byte)
    requires head[0] == j + 1 + (if j + 1 == PieceCount(name) then LAST_LONG else 0)
    requires head[11] == ATTR_LONG && head[12] == 0 && head[13] == checksum && head[26] == 0 && head[27] == 0
    requires forall k: nat | k < 5 :: ShortAt(one, 1 + 2 * k) == Stored(name, PIECE * j + k)
    requires forall q: nat | q < SLOT_SIZE && !(1 <= q < 11) :: one[q] == head[q]
    requires forall k: nat | k < 6 :: ShortAt(two, 14 + 2 * k) == Stored(name, PIECE * j + 5 + k)
    requires forall q: nat | q < SLOT_SIZE && !(14 <= q < 26) :: two[q] == one[q]
    requires forall k: nat | k < 2 :: ShortAt(lfn, 28 + 2 * k) == Stored(name, PIECE * j + 11 + k)
    requires forall q: nat | q < SLOT_SIZE && !(28 <= q < 32) :: lfn[q] == two[q]
    ensures HoldsPiece(lfn, name, j, checksum)
  {
    hide Stored;
    forall k: nat | k < PIECE
      ensures ShortAt(lfn, PlaceOf(k)) == Stored(name, PIECE * j + k)
    {
      if k < 5 {
        assert ShortAt(lfn, 1 + 2 * k) == ShortAt(one, 1 + 2 * k);
      } else if k < 11 {
        assert ShortAt(lfn, 14 + 2 * (k - 5)) == ShortAt(two, 14 + 2 * (k - 5));
      } else {
        assert ShortAt(lfn, 28 + 2 * (k - 11)) == Stored(name, PIECE * j + 11 + (k - 11));
      }
    }
  }

  /** Whether count slots from slot i on are free and inside the cluster. */
  method HasRoom(buf: array<Slot>, i: nat, count: nat) returns (ok: bool)
    requires i < buf.Length
    ensures ok == FreeSlots(buf[..], i, count)
  {
    var j := 0;
    while j < count
      invariant 0 <= j <= count && FreeSlots(buf[..], i, j)
    {
      if i + j >= buf.Length || (buf[i + j][0] != 0 && buf[i + j][0] != DELETED) {
        return false;
      }
      j := j + 1;
    }
    return true;
  }

  /** Creates an empty file in the first run of free slots of a cluster that takes its long
      entries and its short one; None if there is no such run.  `at` is the index of the
      short entry, and title the name of the node that is returned. */
  method CreateInSlots(buf: array<Slot>, name: seq<Byte>, short: seq<Byte>, attrs: Byte)
    returns (at: Option<nat>, title: seq<Byte>, ghost long: seq<Slot>)
    requires IsFileName(name) && |short| == 11
    modifies buf
    ensures at.None? ==> buf[..] == old(buf[..]) && NoneBefore(buf[..], buf.Length, PieceCount(name) + 1)
    ensures at.Some? ==>
              && PieceCount(name) <= at.value < buf.Length && |long| == PieceCount(name)
              && FirstRoom(old(buf[..]), at.value - PieceCount(name), PieceCount(name) + 1)
              && HoldsPieces(long, name, PieceCount(name), Checksum(short, 11))
              && buf[..] == WithFile(old(buf[..]), at.value - PieceCount(name), long, NewSlot(short, attrs))
              && title == Backwards(name, PieceCount(name))
  {
    hide FreeSlots, IsFileName, Backwards;
    var checksum := LfnChecksum(short);
    var i := 0;
    while i < buf.Length
      invariant 0 <= i <= buf.Length && buf[..] == old(buf[..])
      invariant NoneBefore(buf[..], i, PieceCount(name) + 1)
    {
      if buf[i][0] != 0 && buf[i][0] != DELETED {
        FirstSlotFree(buf[..], i, PieceCount(name) + 1);
      } else {
        var ok := HasRoom(buf, i, PieceCount(name) + 1);
        if ok {
          RoomInside(buf[..], i, PieceCount(name) + 1);
          title, long := WriteFile(buf, i, name, short, attrs, checksum);
          return Some(i + PieceCount(name)), title, long;
        }
      }
      i := i + 1;
    }
    return None, [], [];
  }

  lemma FirstSlotFree(slots: seq<Slot>, i: nat, n: nat)
    requires i < |slots| && 0 < n && slots[i][0] != 0 && slots[i][0] != DELETED
    ensures !FreeSlots(slots, i, n)
  {
  }

  lemma RoomInside(slots: seq<Slot>, i: nat, n: nat)
    requires FreeSlots(slots, i, n)
    ensures i + n <= |slots|
  {
  }

  /** Stores the entries of a new file in a run of slots, and names the node by the long
      entries in the order in which they were made. */
  method WriteFile(buf: array<Slot>, i: nat, name: seq<Byte>, short: seq<Byte>, attrs: Byte, checksum: Byte)
    returns (title: seq<Byte>, ghost long: seq<Slot>)
    requires IsFileName(name) && |short| == 11 && i + PieceCount(name) + 1 <= buf.Length
    modifies buf
    ensures HoldsPieces(long, name, PieceCount(name), checksum)
    ensures buf[..] == WithFile(old(buf[..]), i, long, NewSlot(short, attrs))
    ensures title == Backwards(name, PieceCount(name))
  {
    hide HoldsPiece, HoldsPieces, IsFileName, NewSlot, NameOf, Backwards, Ascending;
    var count := PieceCount(name);
    var nullTerminated := false;
    var entries: seq<Slot> := [];
    ghost var before := buf[..];
    long := [];
    NotOver(name);
    NoPieces(name, checksum);
    var j := 0;
    while j < count
      invariant 0 <= j <= count && |long| == |entries| == j && nullTerminated == (|name| < PIECE * j)
      invariant HoldsPieces(long, name, j, checksum)
      invariant Ascending(entries, name, checksum)
      invariant buf[..] == before[..i + count - j] + long + before[i + count..]
    {
      var lfn;
      lfn, nullTerminated := MakeLong(name, j, checksum, nullTerminated);
      SlotPut(before, long, i, count - j, count, lfn);
      buf[i + (count - j - 1)] := lfn;
      MorePieces(long, entries, name, j, checksum, lfn);
      long := [lfn] + long;
      entries := entries + [lfn];
      j := j + 1;
    }
    buf[i + count] := NewSlot(short, attrs);
    title := SetFilename(entries, buf[i + count]);
    TitleIs(entries, name, checksum, buf[i + count]);
  }

  lemma TitleIs(entries: seq<Slot>, name: seq<Byte>, checksum: Byte, s: Slot)
    requires IsFileName(name) && |entries| == PieceCount(name)
    requires Ascending(entries, name, checksum)
    ensures NameOf(entries, s) == Backwards(name, PieceCount(name))
  {
    hide HoldsPiece;
    AscendingJoined(entries, name, 0, checksum);
    assert entries[0..] == entries;
  }

  lemma SlotPut(before: seq<Slot>, long: seq<Slot>, i: nat, left: nat, count: nat, lfn: Slot)
    requires 0 < left && left + |long| == count && i + count <= |before|
    ensures (before[..i + left] + long + before[i + count..])[i + left - 1 := lfn]
            == before[..i + left - 1] + ([lfn] + long) + before[i + count..]
  {
  }

  /** The pieces of a name in the order in which they are made. */
  predicate Ascending(entries: seq<Slot>, name: seq<Byte>, checksum: Byte) {
    forall m: nat | m < |entries| :: HoldsPiece(entries[m], name, m, checksum)
  }

  lemma MorePieces(long: seq<Slot>, entries: seq<Slot>, name: seq<Byte>, j: nat, checksum: Byte, s: Slot)
    requires HoldsPieces(long, name, j, checksum) && HoldsPiece(s, name, j, checksum)
    requires Ascending(entries, name, checksum) && |entries| == j
    ensures HoldsPieces([s] + long, name, j + 1, checksum) && Ascending(entries + [s], name, checksum)
  {
    hide HoldsPiece;
  }

  lemma NoPieces(name: seq<Byte>, checksum: Byte)
    ensures HoldsPieces([], name, 0, checksum) && Ascending([], name, checksum)
  {
  }

  lemma NotOver(name: seq<Byte>)
    requires IsFileName(name)
    ensures 0 < |name|
  {
  }

  // ----- listing -----

  /** The thirteen characters of a long entry. */
  method Utf8Filename(s: Slot) returns (name: seq<Byte>)
    ensures name == Characters(s)
  {
    hide ShortAt, CharOf;
    name := [];
    var i := 0;
    while i < 5
      invariant 0 <= i <= 5 && name == Characters(s)[..i]
    {
      name := name + [CharOf(ShortAt(s, 1 + 2 * i))];
      i := i + 1;
    }
    i := 0;
    while i < 6
      invariant 0 <= i <= 6 && name == Characters(s)[..5 + i]
    {
      name := name + [CharOf(ShortAt(s, 14 + 2 * i))];
      i := i + 1;
    }
    i := 0;
    while i < 2
      invariant 0 <= i <= 2 && name == Characters(s)[..11 + i]
    {
      name := name + [CharOf(ShortAt(s, 28 + 2 * i))];
      i := i + 1;
    }
  }

  /** The name of a node from its long entries, or from its short one if it has none. */
  method SetFilename(long: seq<Slot>, s: Slot) returns (name: seq<Byte>)
    ensures name == NameOf(long, s)
  {
    hide Characters, CString;
    if |long| == 0 {
      return CString(ShortName(s));
    }
    name := [];
    var i := |long|;
    while i > 0
      invariant 0 <= i <= |long| && name == Joined(long[i..])
    {
      i := i - 1;
      var text := Utf8Filename(long[i]);
      assert long[i..][1..] == long[i + 1..];
      name := name + CString(text);
    }
    assert long[0..] == long;
  }

  /** Goes on listing a directory with one more of its clusters. */
  method ListCluster(buf: array<Slot>, nodes0: seq<Entry>, long0: seq<Slot>)
    returns (nodes: seq<Entry>, long: seq<Slot>, ended: bool)
    ensures nodes == nodes0 + Listing(buf[..], long0)
    ensures ended <==> !NoEnd(buf[..])
    ensures !ended ==> long == Pending(buf[..], long0)
  {
    hide NameOf, Listing, Pending, NoEnd;
    ghost var slots := buf[..];
    nodes, long := nodes0, long0;
    var i := 0;
    ListingNothing(long0);
    assert slots[..0] == [];
    while i < buf.Length
      invariant 0 <= i <= buf.Length && NoEnd(slots[..i])
      invariant nodes == nodes0 + Listing(slots[..i], long0) && long == Pending(slots[..i], long0)
    {
      if buf[i][0] == 0 {
        ListingEnds(slots, i, long0);
        return nodes, long, true;
      }
      ListingNext(slots, i, long0);
      nodes, long := TakeSlot(buf[i], nodes, long);
      i := i + 1;
    }
    assert slots[..i] == slots;
    ended := false;
  }

  /** One slot in use: another long entry, or the entry that those so far belong to. */
  method TakeSlot(s: Slot, nodes: seq<Entry>, long: seq<Slot>) returns (nodes': seq<Entry>, long': seq<Slot>)
    requires s[0] != 0
    ensures nodes' == nodes + Listing([s], long) && long' == Pending([s], long)
  {
    hide NameOf;
    if s[0] == DELETED {
      return nodes, long;
    }
    if s[11] == ATTR_LONG {
      return nodes, long + [s];
    }
    var name := SetFilename(long, s);
    return nodes + [Entry(name, s)], [];
  }

  lemma ListingNothing(long: seq<Slot>)
    ensures NoEnd([]) && Listing([], long) == [] && Pending([], long) == long
  {
  }

  lemma ListingNext(slots: seq<Slot>, i: nat, long: seq<Slot>)
    requires i < |slots| && NoEnd(slots[..i]) && slots[i][0] != 0
    ensures NoEnd(slots[..i + 1])
    ensures Listing(slots[..i + 1], long) == Listing(slots[..i], long) + Listing([slots[i]], Pending(slots[..i], long))
    ensures Pending(slots[..i + 1], long) == Pending([slots[i]], Pending(slots[..i], long))
  {
    hide Listing, Pending;
    assert slots[..i + 1] == slots[..i] + [slots[i]];
    ListingParts(slots[..i], [slots[i]], long);
    PendingParts(slots[..i], [slots[i]], long);
  }

  lemma ListingEnds(slots: seq<Slot>, i: nat, long: seq<Slot>)
    requires i < |slots| && NoEnd(slots[..i]) && slots[i][0] == 0
    ensures !NoEnd(slots) && Listing(slots, long) == Listing(slots[..i], long)
  {
    assert slots == slots[..i] + slots[i..];
    ListingParts(slots[..i], slots[i..], long);
  }
}
