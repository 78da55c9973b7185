/** Long file names: how a name is cut over directory slots and read back, and what
    listing a directory gives. */
module FatNames {
  import opened Bytes
  import opened FatDirectory

  const PIECE: nat := 13
  const LAST_LONG: nat := 0x40
  const ATTR_LONG: nat := 0x0F
  const DELETED: nat := 0xE5
  const UNKNOWN: Byte := 63
  const DOT: Byte := 46
  const SPACE: Byte := 32

  /** Where character k of a long entry is in its slot. */
  function PlaceOf(k: nat): (p: nat)
    requires k < PIECE
    ensures 1 <= p && p + 2 <= SLOT_SIZE && p != 11 && p != 10
  {
    if k < 5 then 1 + 2 * k else if k < 11 then 14 + 2 * (k - 5) else 28 + 2 * (k - 11)
  }

  function ShortAt(s: Slot, p: nat): nat
    requires p + 2 <= SLOT_SIZE
  {
    var low: nat, high: nat := s[p], s[p + 1];
    low + 256 * high
  }

  /** Character i of the name as it is stored: the name, a terminator, then filler. */
  function Stored(name: seq<Byte>, i: nat): nat {
    if i < |name| then name[i] else if i == |name| then 0 else 0xFFFF
  }

  /** As few pieces as the characters of a name fill. */
  function PieceCount(name: seq<Byte>): (n: nat)
    ensures |name| <= PIECE * n < |name| + PIECE
  {
    (|name| + 12) / PIECE
  }

  /** s is the long entry for piece j of a name. */
  predicate HoldsPiece(s: Slot, name: seq<Byte>, j: nat, checksum: Byte) {
    && s[0] == j + 1 + (if j + 1 == PieceCount(name) then LAST_LONG else 0)
    && s[11] == ATTR_LONG && s[12] == 0 && s[13] == checksum && s[26] == 0 && s[27] == 0
    && forall k: nat | k < PIECE :: ShortAt(s, PlaceOf(k)) == Stored(name, PIECE * j + k)
  }

  /** The checksum of the first n characters of a short name. */
  function Checksum(short: seq<Byte>, n: nat): Byte
    requires n <= |short|
  {
    if n == 0 then 0 else
      var sum: nat, c: nat := Checksum(short, n - 1), short[n - 1];
      ((if sum % 2 == 1 then 0x80 else 0) + sum / 2 + c) % 256
  }

  /** A name in memory: a string, its terminator, and whatever follows it. */
  predicate IsText(text: seq<Byte>) {
    8 <= |text| && 0 in text
  }

  function Upper(c: Byte): Byte {
    if 97 <= c <= 122 then c - 32 else c
  }

  /** The place of the first c in s, or |s|. */
  function FirstOf(s: seq<Byte>, c: Byte): (i: nat)
    ensures i <= |s| && (forall k | 0 <= k < i :: s[k] != c) && (i < |s| ==> s[i] == c)
  {
    if s == [] || s[0] == c then 0 else FirstOf(s[1..], c) + 1
  }

  /** Where the extension is taken from: behind the first dot, or behind the first
      character if there is no dot. */
  function DotOf(name: seq<Byte>): nat {
    if FirstOf(name, DOT) < |name| then FirstOf(name, DOT) else 0
  }

  /** Eight characters up to a dot, which may come from behind a shorter name, and three of
      the extension. */
  function ShortOf(text: seq<Byte>): (short: seq<Byte>)
    requires IsText(text)
    ensures |short| == 11
  {
    seq(11, i requires 0 <= i < 11 => ShortChar(text, CString(text), i))
  }

  function ShortChar(text: seq<Byte>, name: seq<Byte>, i: nat): Byte
    requires 8 <= |text|
  {
    if i < 8 then (if i < FirstOf(text, DOT) then Upper(text[i]) else SPACE)
    else if DotOf(name) + i - 7 < |name| then Upper(name[DotOf(name) + i - 7]) else SPACE
  }

  /** The short name starts with the mark of a deleted slot exactly if the name does. */
  lemma ShortStarts(text: seq<Byte>)
    requires IsText(text) && CString(text) != []
    ensures ShortOf(text)[0] != 0 && (ShortOf(text)[0] == DELETED <==> CString(text)[0] == DELETED)
  {
    assert FirstOf(text, DOT) == 0 <==> text[0] == DOT;
  }

  /** Long names without a dot that agree in their first eight characters have one short
      name. */
  lemma ShortsCollide(a: seq<Byte>, b: seq<Byte>)
    requires IsText(a) && IsText(b) && 8 <= |CString(a)| && 8 <= |CString(b)|
    requires DOT !in CString(a) && DOT !in CString(b) && CString(a)[..8] == CString(b)[..8]
    ensures ShortOf(a) == ShortOf(b)
  {
    hide CString, FirstOf, DotOf, Upper;
    var m, n := CString(a), CString(b);
    CStringStarts(a);
    CStringStarts(b);
    NoDot(a);
    NoDot(b);
    forall k | 0 <= k < 8
      ensures a[k] == m[k] == n[k] == b[k]
    {
      assert m[k] == m[..8][k] && n[k] == n[..8][k];
    }
  }

  lemma NoDot(a: seq<Byte>)
    requires 8 <= |CString(a)| && DOT !in CString(a)
    ensures 8 <= FirstOf(a, DOT) && DotOf(CString(a)) == 0
  {
    hide CString;
    CStringStarts(a);
    forall k | 0 <= k < 8
      ensures a[k] != DOT
    {
      assert a[k] == CString(a)[k] && CString(a)[k] in CString(a);
    }
    assert FirstOf(CString(a), DOT) == |CString(a)|;
  }

  /** The short entry of a new, empty file. */
  function NewSlot(short: seq<Byte>, attrs: Byte): (s: Slot)
    requires |short| == 11
    ensures s[..11] == short && s[11] == attrs && EntryCluster(s) == 0 && EntrySize(s) == 0
  {
    short + [attrs, 0, 0, 0, 0, 0xC0, 0x28, 0xC0, 0x28, 0, 0, 0, 0, 0xC0, 0x28, 0, 0, 0, 0, 0, 0]
  }

  // ----- reading -----

  function CharOf(short: nat): Byte {
    if short / 256 % 256 != 0 then UNKNOWN else short % 256
  }

  /** The thirteen characters of a long entry, and their text up to a terminator. */
  function Characters(s: Slot): (t: seq<Byte>)
    ensures |t| == PIECE
  {
    seq(PIECE, k requires 0 <= k < PIECE => CharOf(ShortAt(s, PlaceOf(k))))
  }

  function Text(s: Slot): seq<Byte> {
    CString(Characters(s))
  }

  /** The texts of long entries, the last entry's first. */
  function Joined(long: seq<Slot>): seq<Byte> {
    if long == [] then [] else Joined(long[1..]) + Text(long[0])
  }

  function Spaces(s: seq<Byte>): (n: nat)
    requires s != []
    ensures 1 <= n <= |s|
  {
    if |s| == 1 || s[|s| - 1] != 32 then |s| else Spaces(s[..|s| - 1])
  }

  /** The short name: eight characters, a dot, and the extension, without the spaces at
      their ends. */
  function ShortName(s: Slot): seq<Byte> {
    s[..Spaces(s[..8])] + [46] + s[8..11][..Spaces(s[8..11])]
  }

  datatype Entry = Entry(name: seq<Byte>, slot: Slot)

  function NameOf(long: seq<Slot>, s: Slot): seq<Byte> {
    if long == [] then CString(ShortName(s)) else Joined(long)
  }

  /** The entries of a directory, given the long entries read so far. */
  function Listing(slots: seq<Slot>, long: seq<Slot>): seq<Entry>
    decreases |slots|
  {
    if slots == [] || slots[0][0] == 0 then []
    else if slots[0][0] == DELETED then Listing(slots[1..], long)
    else if slots[0][11] == ATTR_LONG then Listing(slots[1..], long + [slots[0]])
    else [Entry(NameOf(long, slots[0]), slots[0])] + Listing(slots[1..], [])
  }

  /** The long entries still pending at the end of a part of a directory. */
  function Pending(slots: seq<Slot>, long: seq<Slot>): seq<Slot>
    decreases |slots|
  {
    if slots == [] || slots[0][0] == 0 then long
    else if slots[0][0] == DELETED then Pending(slots[1..], long)
    else if slots[0][11] == ATTR_LONG then Pending(slots[1..], long + [slots[0]])
    else Pending(slots[1..], [])
  }

  predicate NoEnd(slots: seq<Slot>) {
    forall i | 0 <= i < |slots| :: slots[i][0] != 0
  }

  /** A directory is listed part by part. */
  lemma {:induction false} ListingParts(a: seq<Slot>, b: seq<Slot>, long: seq<Slot>)
    requires NoEnd(a)
    ensures Listing(a + b, long) == Listing(a, long) + Listing(b, Pending(a, long))
    decreases |a|
  {
    if a == [] {
      assert a + b == b;
    } else {
      assert (a + b)[0] == a[0] && (a + b)[1..] == a[1..] + b;
      ListingParts(a[1..], b, if a[0][0] == DELETED then long else if a[0][11] == ATTR_LONG then long + [a[0]] else []);
    }
  }

  lemma {:induction false} ListingDeleted(a: seq<Slot>, b: seq<Slot>, long: seq<Slot>)
    requires forall i | 0 <= i < |a| :: a[i][0] == DELETED
    ensures Listing(a + b, long) == Listing(b, long)
    decreases |a|
  {
    if a == [] {
      assert a + b == b;
    } else {
      assert (a + b)[1..] == a[1..] + b;
      ListingDeleted(a[1..], b, long);
    }
  }

  /** Entries that are pending do not change how many entries follow. */
  lemma {:induction false} ListingSize(a: seq<Slot>, x: seq<Slot>, y: seq<Slot>)
    ensures |Listing(a, x)| == |Listing(a, y)|
    decreases |a|
  {
    if a != [] && a[0][0] != 0 {
      if a[0][0] == DELETED {
        ListingSize(a[1..], x, y);
      } else if a[0][11] == ATTR_LONG {
        ListingSize(a[1..], x + [a[0]], y + [a[0]]);
      }
    }
  }

  // ----- one name over its pieces -----

  predicate IsFileName(name: seq<Byte>) {
    1 <= |name| <= 255 && 0 !in name
  }

  function PieceEnd(name: seq<Byte>, j: nat): nat {
    if PIECE * j < |name| then PIECE * j else |name|
  }

  /** A piece is read back as the part of the name it was made of. */
  lemma PieceText(s: Slot, name: seq<Byte>, j: nat, checksum: Byte)
    requires IsFileName(name) && j < PieceCount(name) && HoldsPiece(s, name, j, checksum)
    ensures PIECE * j <= PieceEnd(name, j + 1) <= |name| && Text(s) == name[PIECE * j..PieceEnd(name, j + 1)]
  {
    hide CString, PlaceOf, ShortAt;
    var n := PieceEnd(name, j + 1) - PIECE * j;
    var t := Characters(s);
    forall k: nat | k < n
      ensures t[k] == name[PIECE * j + k] && t[k] != 0
    {
      assert ShortAt(s, PlaceOf(k)) == name[PIECE * j + k];
    }
    assert n < PIECE ==> ShortAt(s, PlaceOf(n)) == 0;
    CStringText(t, n);
    assert t[..n] == name[PIECE * j..PieceEnd(name, j + 1)];
  }

  /** long holds the first j pieces of name, the highest first. */
  predicate HoldsPieces(long: seq<Slot>, name: seq<Byte>, j: nat, checksum: Byte) {
    |long| == j && forall i: nat | i < j :: HoldsPiece(long[i], name, j - 1 - i, checksum)
  }

  lemma {:induction false} PiecesJoined(long: seq<Slot>, name: seq<Byte>, j: nat, checksum: Byte)
    requires IsFileName(name) && j <= PieceCount(name) && HoldsPieces(long, name, j, checksum)
    ensures PieceEnd(name, j) <= |name| && Joined(long) == name[..PieceEnd(name, j)]
    decreases j
  {
    hide HoldsPiece, Text;
    if j > 0 {
      assert HoldsPieces(long[1..], name, j - 1, checksum) by {
        assert forall i: nat | i < j - 1 :: long[1..][i] == long[i + 1];
      }
      PiecesJoined(long[1..], name, j - 1, checksum);
      PieceText(long[0], name, j - 1, checksum);
      assert name[..PieceEnd(name, j)] == name[..PIECE * (j - 1)] + name[PIECE * (j - 1)..PieceEnd(name, j)];
    }
  }

  /** A name cut into long entries is read back whole. */
  lemma NameReadBack(long: seq<Slot>, name: seq<Byte>, checksum: Byte)
    requires IsFileName(name) && HoldsPieces(long, name, PieceCount(name), checksum)
    ensures long != [] && Joined(long) == name
  {
    PiecesJoined(long, name, PieceCount(name), checksum);
    assert name[..|name|] == name;
  }

  lemma {:induction false} LongPending(long: seq<Slot>, b: seq<Slot>, before: seq<Slot>)
    requires forall i | 0 <= i < |long| :: long[i][0] != 0 && long[i][0] != DELETED && long[i][11] == ATTR_LONG
    ensures Listing(long + b, before) == Listing(b, before + long)
    decreases |long|
  {
    if long == [] {
      assert long + b == b && before + long == before;
    } else {
      assert (long + b)[0] == long[0] && (long + b)[1..] == long[1..] + b;
      LongPending(long[1..], b, before + [long[0]]);
      assert before + [long[0]] + long[1..] == before + long;
    }
  }

  // ----- a new file in a directory -----

  predicate IsFree(s: Slot) {
    s[0] == 0 || s[0] == DELETED
  }

  predicate FreeSlots(slots: seq<Slot>, i: nat, n: nat) {
    i + n <= |slots| && forall k: nat | i <= k < i + n :: IsFree(slots[k])
  }

  predicate FirstRoom(slots: seq<Slot>, i: nat, n: nat) {
    FreeSlots(slots, i, n) && NoneBefore(slots, i, n)
  }

  predicate NoneBefore(slots: seq<Slot>, i: nat, n: nat) {
    forall j: nat | j < i :: !FreeSlots(slots, j, n)
  }

  /** Nothing but unused slots follows the first unused slot. */
  predicate EndsClean(slots: seq<Slot>) {
    forall i, j | 0 <= i < j < |slots| && slots[i][0] == 0 :: slots[j][0] == 0
  }

  /** A directory as other systems leave it: a clean end, and long entries only before
      the entry they name. */
  predicate IsDirectoryContent(slots: seq<Slot>) {
    && EndsClean(slots)
    && forall i: nat | i < |slots| && NoEnd(slots[..i]) && IsFree(slots[i]) :: Pending(slots[..i], []) == []
  }

  /** Before the run that is taken there is no unused slot. */
  lemma NoEndBefore(slots: seq<Slot>, i: nat, n: nat)
    requires EndsClean(slots) && FirstRoom(slots, i, n)
    ensures NoEnd(slots[..i])
  {
    forall k: nat | k < i
      ensures slots[k][0] != 0
    {
      if slots[k][0] == 0 {
        assert FreeSlots(slots, k, n);
      }
    }
  }

  /** What the free run hides: nothing if it is all deleted slots, and otherwise the
      directory ends in it. */
  lemma {:induction false} ListingFree(r: seq<Slot>, b: seq<Slot>)
    requires forall k | 0 <= k < |r| :: IsFree(r[k])
    requires (exists k :: 0 <= k < |r| && r[k][0] == 0) ==> forall k | 0 <= k < |b| :: b[k][0] == 0
    ensures Listing(r + b, []) == Listing(b, [])
    decreases |r|
  {
    if r == [] {
      assert r + b == b;
    } else if r[0][0] == DELETED {
      assert (r + b)[1..] == r[1..] + b;
      assert forall k | 0 <= k < |r[1..]| :: r[1..][k] == r[k + 1];
      ListingFree(r[1..], b);
    }
  }

  function WithFile(slots: seq<Slot>, i: nat, long: seq<Slot>, s: Slot): seq<Slot>
    requires i + |long| + 1 <= |slots|
  {
    slots[..i] + long + [s] + slots[i + |long| + 1..]
  }

  /** The listing after a file has been created in a free run: the old entries with their
      names and in their order, and the new one with its name in between, exactly unless an
      unused slot is in front of the run, which hides the new entry, or the short name starts
      with the mark of a deleted slot.  The entry that follows is then listed under the new
      name. */
  lemma CreatedIff(slots: seq<Slot>, i: nat, long: seq<Slot>, s: Slot, name: seq<Byte>, checksum: Byte)
    requires IsDirectoryContent(slots) && FreeSlots(slots, i, |long| + 1)
    requires IsFileName(name) && HoldsPieces(long, name, PieceCount(name), checksum)
    requires s[0] != 0 && s[11] != ATTR_LONG
    ensures var before, after := Listing(slots[..i], []), Listing(slots[i + |long| + 1..], []);
            && (Listing(WithFile(slots, i, long, s), []) == before + [Entry(name, s)] + after
                <==> NoEnd(slots[..i]) && s[0] != DELETED)
            && (if NoEnd(slots[..i]) then Listing(slots, []) == before + after
                else Listing(slots, []) == Listing(WithFile(slots, i, long, s), []) == before)
            && (NoEnd(slots[..i]) && s[0] == DELETED ==>
                  Listing(WithFile(slots, i, long, s), []) == before + Listing(slots[i + |long| + 1..], long))
  {
    hide Listing, Pending, HoldsPieces, IsFree, NoEnd, Joined, PieceCount, IsFileName, EndsClean, IsDirectoryContent;
    var before, b := Listing(slots[..i], []), slots[i + |long| + 1..];
    if NoEnd(slots[..i]) {
      RunListed(slots, i, |long| + 1);
      LongSlots(long, name, checksum);
      FileListed(slots, i, long, s);
      NameReadBack(long, name, checksum);
      NewEntry(long, s, b);
      OneMore(before, Entry(name, s), Listing(b, []), Listing([s] + b, long));
    } else {
      FileHidden(slots, i, long, s);
      assert |before + [Entry(name, s)] + Listing(b, [])| > |before|;
    }
  }

  /** A file created in slots that were just appended to a directory, whatever they hold:
      nothing but it is added to the listing exactly if these slots list nothing around it
      and hold no text in front of it.  p are the long entries pending from before. */
  lemma AppendedIff(slots: seq<Slot>, p: seq<Slot>, i: nat, long: seq<Slot>, s: Slot, name: seq<Byte>, checksum: Byte)
    requires FreeSlots(slots, i, |long| + 1) && NoEnd(slots[..i])
    requires IsFileName(name) && HoldsPieces(long, name, PieceCount(name), checksum)
    requires s[0] != 0 && s[11] != ATTR_LONG
    ensures Listing(WithFile(slots, i, long, s), p) == [Entry(name, s)]
            <==> && s[0] != DELETED && Listing(slots[..i], p) == [] && Joined(Pending(slots[..i], p)) == []
                 && Listing(slots[i + |long| + 1..], []) == []
  {
    hide Listing, Pending, HoldsPieces, IsFree, NoEnd, Joined, PieceCount, IsFileName;
    var a, b := slots[..i], slots[i + |long| + 1..];
    var before, pending := Listing(a, p), Pending(a, p);
    assert WithFile(slots, i, long, s) == a + (long + ([s] + b));
    ListingParts(a, long + ([s] + b), p);
    LongSlots(long, name, checksum);
    LongPending(long, [s] + b, pending);
    NameReadBack(long, name, checksum);
    NewEntry(pending + long, s, b);
    JoinedParts(pending, long);
    if s[0] == DELETED {
      ListedAlive(WithFile(slots, i, long, s), p);
      var all := Listing(WithFile(slots, i, long, s), p);
      assert all != [] ==> all[0] in all && all[0] != Entry(name, s);
    } else {
      var e := Entry(Joined(pending + long), s);
      OnlyOne(before, e, Listing(b, []), Entry(name, s));
      assert Joined(pending + long) == name <==> Joined(pending) == [];
    }
  }

  lemma OnlyOne(before: seq<Entry>, e: Entry, after: seq<Entry>, f: Entry)
    ensures before + ([e] + after) == [f] <==> before == [] && after == [] && e == f
  {
    var all := before + ([e] + after);
    if all == [f] {
      assert |all| == |before| + 1 + |after|;
      assert all[0] == e;
    }
  }

  lemma {:induction false} JoinedParts(a: seq<Slot>, b: seq<Slot>)
    ensures Joined(a + b) == Joined(b) + Joined(a)
    decreases |a|
  {
    hide Text;
    if a == [] {
      assert a + b == b;
    } else {
      assert (a + b)[1..] == a[1..] + b;
      JoinedParts(a[1..], b);
    }
  }

  lemma {:induction false} ListedAlive(slots: seq<Slot>, p: seq<Slot>)
    ensures forall e | e in Listing(slots, p) :: e.slot[0] != DELETED
    decreases |slots|
  {
    if slots != [] && slots[0][0] != 0 {
      ListedAlive(slots[1..], if slots[0][0] == DELETED then p else if slots[0][11] == ATTR_LONG then p + [slots[0]] else []);
    }
  }

  /** Behind an unused slot nothing is listed. */
  lemma {:induction false} EndsHere(a: seq<Slot>, b: seq<Slot>, long: seq<Slot>)
    requires !NoEnd(a)
    ensures Listing(a + b, long) == Listing(a, long)
    decreases |a|
  {
    assert (a + b)[0] == a[0] && (a + b)[1..] == a[1..] + b;
    if a[0][0] != 0 {
      assert !NoEnd(a[1..]) by {
        var k :| 0 <= k < |a| && a[k][0] == 0;
        assert a[1..][k - 1] == a[k];
      }
      EndsHere(a[1..], b, if a[0][0] == DELETED then long else if a[0][11] == ATTR_LONG then long + [a[0]] else []);
    }
  }

  lemma FileHidden(slots: seq<Slot>, i: nat, long: seq<Slot>, s: Slot)
    requires i + |long| + 1 <= |slots| && !NoEnd(slots[..i])
    ensures Listing(slots, []) == Listing(WithFile(slots, i, long, s), []) == Listing(slots[..i], [])
  {
    hide Listing, NoEnd;
    assert slots == slots[..i] + slots[i..];
    EndsHere(slots[..i], slots[i..], []);
    assert WithFile(slots, i, long, s) == slots[..i] + (long + [s] + slots[i + |long| + 1..]);
    EndsHere(slots[..i], long + [s] + slots[i + |long| + 1..], []);
  }

  lemma OneMore(before: seq<Entry>, e: Entry, after: seq<Entry>, x: seq<Entry>)
    ensures x == [e] + after ==> before + x == before + [e] + after
    ensures |x| == |after| ==> before + x != before + [e] + after
  {
    assert |x| == |after| ==> |before + x| != |before + [e] + after|;
  }

  /** The free run does not show in the listing. */
  lemma RunListed(slots: seq<Slot>, i: nat, n: nat)
    requires IsDirectoryContent(slots) && FreeSlots(slots, i, n) && 0 < n && NoEnd(slots[..i])
    ensures i + n <= |slots| && Pending(slots[..i], []) == []
    ensures Listing(slots, []) == Listing(slots[..i], []) + Listing(slots[i + n..], [])
  {
    hide Listing, Pending, IsFree, NoEnd, IsDirectoryContent, EndsClean;
    RoomEnds(slots, i, n);
    var a, r, b := slots[..i], slots[i..i + n], slots[i + n..];
    FreeStart(slots, i, n);
    assert slots == a + (r + b);
    ListingParts(a, r + b, []);
    RunThenRest(slots, i, n);
    ListingFree(r, b);
  }

  lemma RoomEnds(slots: seq<Slot>, i: nat, n: nat)
    requires IsDirectoryContent(slots) && FreeSlots(slots, i, n)
    ensures EndsClean(slots) && i + n <= |slots|
  {
  }

  lemma FileListed(slots: seq<Slot>, i: nat, long: seq<Slot>, s: Slot)
    requires i + |long| + 1 <= |slots| && NoEnd(slots[..i]) && Pending(slots[..i], []) == []
    requires forall k | 0 <= k < |long| :: long[k][0] != 0 && long[k][0] != DELETED && long[k][11] == ATTR_LONG
    ensures Listing(WithFile(slots, i, long, s), [])
            == Listing(slots[..i], []) + Listing([s] + slots[i + |long| + 1..], long)
  {
    hide Listing, Pending, NoEnd;
    var a, b := slots[..i], slots[i + |long| + 1..];
    assert WithFile(slots, i, long, s) == a + (long + ([s] + b));
    ListingParts(a, long + ([s] + b), []);
    LongPending(long, [s] + b, []);
    assert [] + long == long;
  }

  lemma {:induction false} PendingParts(a: seq<Slot>, b: seq<Slot>, long: seq<Slot>)
    requires NoEnd(a)
    ensures Pending(a + b, long) == Pending(b, Pending(a, long))
    decreases |a|
  {
    if a == [] {
      assert a + b == b;
    } else {
      assert (a + b)[0] == a[0] && (a + b)[1..] == a[1..] + b;
      PendingParts(a[1..], b, if a[0][0] == DELETED then long else if a[0][11] == ATTR_LONG then long + [a[0]] else []);
    }
  }

  lemma {:induction false} PendingDeleted(r: seq<Slot>, long: seq<Slot>)
    requires forall k | 0 <= k < |r| :: r[k][0] == DELETED
    ensures Pending(r, long) == long
    decreases |r|
  {
    if r != [] {
      PendingDeleted(r[1..], long);
    }
  }

  /** Nothing is pending after an entry. */
  lemma PendingEntry(a: seq<Slot>, s: Slot)
    requires NoEnd(a) && s[0] != 0 && s[0] != DELETED && s[11] != ATTR_LONG
    ensures Pending(a + [s], []) == []
  {
    PendingParts(a, [s], []);
  }

  /** The directory with the new file is again one that a file can be created in. */
  lemma CreatedKeeps(slots: seq<Slot>, i: nat, long: seq<Slot>, s: Slot, name: seq<Byte>, checksum: Byte)
    requires IsDirectoryContent(slots) && FreeSlots(slots, i, |long| + 1) && NoEnd(slots[..i])
    requires IsFileName(name) && HoldsPieces(long, name, PieceCount(name), checksum)
    requires s[0] != 0 && s[0] != DELETED && s[11] != ATTR_LONG
    ensures i + |long| + 1 <= |slots| && IsDirectoryContent(WithFile(slots, i, long, s))
  {
    hide HoldsPieces, Pending, NoEnd;
    var n := |long| + 1;
    var after := WithFile(slots, i, long, s);
    RunThenRest(slots, i, n);
    LongSlots(long, name, checksum);
    assert EndsClean(after) by {
      NoEndSlots(slots[..i]);
    }
    assert forall q | i <= q < i + |long| :: after[q] == long[q - i];
    forall j: nat | j < |after| && NoEnd(after[..j]) && IsFree(after[j])
      ensures Pending(after[..j], []) == []
    {
      if j < i {
        assert after[..j] == slots[..j] && after[j] == slots[j];
      } else {
        PendingBehind(slots, i, long, s, j);
      }
    }
  }

  lemma NoEndSlots(a: seq<Slot>)
    requires NoEnd(a)
    ensures forall k | 0 <= k < |a| :: a[k][0] != 0
  {
  }

  /** Behind the new file nothing is pending where nothing was before. */
  lemma PendingBehind(slots: seq<Slot>, i: nat, long: seq<Slot>, s: Slot, j: nat)
    requires IsDirectoryContent(slots) && FreeSlots(slots, i, |long| + 1) && NoEnd(slots[..i])
    requires forall k | 0 <= k < |long| :: long[k][0] != 0
    requires s[0] != 0 && s[0] != DELETED && s[11] != ATTR_LONG
    requires i + |long| < j < |slots| && NoEnd(WithFile(slots, i, long, s)[..j]) && IsFree(WithFile(slots, i, long, s)[j])
    ensures Pending(WithFile(slots, i, long, s)[..j], []) == []
  {
    hide Pending, IsFree, NoEnd;
    var n, after := |long| + 1, WithFile(slots, i, long, s);
    var a, r, b := slots[..i], slots[i..i + n], slots[i + n..j];
    assert after[..j] == (a + long + [s]) + b;
    NoEndFile(a, long);
    NoEndFile(a + long, [s]);
    PendingEntry(a + long, s);
    PendingParts(a + long + [s], b, []);
    RunThenRest(slots, i, n);
    if exists k :: 0 <= k < |r| && r[k][0] == 0 {
      assert forall k | 0 <= k < |b| :: b[k] == slots[i + n..][k];
      BehindEnds(after[..j], a + long + [s], b);
      if b != [] {
        UnusedEnds(b);
      }
      PendingNothing();
    } else {
      FreeDeleted(r);
      assert forall k | i <= k < i + n :: slots[k] == r[k - i];
      BehindEnds(after[..j], a + long + [s], b);
      PendingBefore(slots, i, n, j);
    }
  }

  lemma BehindEnds(whole: seq<Slot>, front: seq<Slot>, b: seq<Slot>)
    requires whole == front + b && NoEnd(whole)
    ensures NoEnd(b)
  {
    assert forall k | 0 <= k < |b| :: b[k] == whole[|front| + k];
  }

  lemma UnusedEnds(b: seq<Slot>)
    requires b != [] && forall k | 0 <= k < |b| :: b[k][0] == 0
    ensures !NoEnd(b)
  {
    assert b[0][0] == 0;
  }

  lemma NoEndFile(a: seq<Slot>, long: seq<Slot>)
    requires NoEnd(a) && forall k | 0 <= k < |long| :: long[k][0] != 0
    ensures NoEnd(a + long)
  {
  }

  lemma PendingNothing()
    ensures Pending([], []) == []
  {
  }

  lemma FreeDeleted(r: seq<Slot>)
    requires (forall k | 0 <= k < |r| :: IsFree(r[k])) && forall k | 0 <= k < |r| :: r[k][0] != 0
    ensures forall k | 0 <= k < |r| :: r[k][0] == DELETED
  {
  }

  lemma PendingBefore(slots: seq<Slot>, i: nat, n: nat, j: nat)
    requires IsDirectoryContent(slots) && FreeSlots(slots, i, n) && NoEnd(slots[..i]) && 0 < n && i + n <= j < |slots|
    requires forall k | i <= k < i + n :: slots[k][0] == DELETED
    requires NoEnd(slots[i + n..j]) && IsFree(slots[j])
    ensures Pending(slots[i + n..j], []) == []
  {
    hide Pending;
    var a, r, b := slots[..i], slots[i..i + n], slots[i + n..j];
    assert slots[..j] == (a + r) + b;
    FreeStart(slots, i, n);
    PendingParts(a, r, []);
    PendingDeleted(r, []);
    PendingParts(a + r, b, []);
    assert NoEnd(slots[..j]);
  }

  lemma FreeStart(slots: seq<Slot>, i: nat, n: nat)
    requires IsDirectoryContent(slots) && FreeSlots(slots, i, n) && 0 < n && NoEnd(slots[..i])
    ensures Pending(slots[..i], []) == []
  {
  }

  lemma RunThenRest(slots: seq<Slot>, i: nat, n: nat)
    requires EndsClean(slots) && FreeSlots(slots, i, n)
    ensures var r, b := slots[i..i + n], slots[i + n..];
            && (forall k | 0 <= k < |r| :: IsFree(r[k]))
            && ((exists k :: 0 <= k < |r| && r[k][0] == 0) ==> forall k | 0 <= k < |b| :: b[k][0] == 0)
  {
  }

  lemma LongSlots(long: seq<Slot>, name: seq<Byte>, checksum: Byte)
    requires IsFileName(name) && HoldsPieces(long, name, PieceCount(name), checksum)
    ensures forall i | 0 <= i < |long| :: long[i][0] != 0 && long[i][0] != DELETED && long[i][11] == ATTR_LONG
  {
    forall i: nat | i < |long|
      ensures long[i][0] != 0 && long[i][0] != DELETED && long[i][11] == ATTR_LONG
    {
      assert HoldsPiece(long[i], name, PieceCount(name) - 1 - i, checksum);
    }
  }

  lemma NewEntry(long: seq<Slot>, s: Slot, b: seq<Slot>)
    requires s[0] != 0 && s[11] != ATTR_LONG && long != []
    ensures s[0] != DELETED ==> Listing([s] + b, long) == [Entry(Joined(long), s)] + Listing(b, [])
    ensures s[0] == DELETED ==> Listing([s] + b, long) == Listing(b, long) && |Listing(b, long)| == |Listing(b, [])|
  {
    assert ([s] + b)[1..] == b;
    ListingSize(b, long, []);
  }

  // ----- what the entries are, byte by byte -----

  lemma UpperCase(c: Byte)
    ensures forall i | 0 <= i < 26 :: Upper("abcdefghijklmnopqrstuvwxyz"[i] as int) == "ABCDEFGHIJKLMNOPQRSTUVWXYZ"[i] as int
    ensures (forall i | 0 <= i < 26 :: c != "abcdefghijklmnopqrstuvwxyz"[i] as int) ==> Upper(c) == c
  {
    var lower := "abcdefghijklmnopqrstuvwxyz";
    if 97 <= c <= 122 {
      assert forall i | 0 <= i < 26 :: lower[i] as int == 97 + i;
      assert lower[c - 97] as int == c;
    }
  }

  /** The next step of the checksum turns the sum right by one bit -- doubling what comes out
      gives the sum back, with bit 7 carried round to bit 0 -- and adds a character. */
  lemma ChecksumTurns(short: seq<Byte>, n: nat)
    requires 0 < n <= |short|
    ensures Checksum(short, 0) == 0
    ensures var sum, turned := Checksum(short, n - 1) as int, (Checksum(short, n) - short[n - 1]) % 256;
            2 * turned % 256 + 2 * turned / 256 == sum
  {
    var sum: nat, c: nat := Checksum(short, n - 1), short[n - 1];
    var turned := (if sum % 2 == 1 then 0x80 else 0) + sum / 2;
    assert Checksum(short, n) == (turned + c) % 256;
    TakeBack(turned, c);
  }

  lemma TakeBack(x: Byte, c: Byte)
    ensures ((x + c) % 256 - c) % 256 == x
  {
  }

  /** A character that takes one byte is stored low byte first; any other is shown as a
      question mark. */
  lemma CharacterBytes(s: Slot, p: nat)
    requires p + 2 <= SLOT_SIZE
    ensures CharOf(ShortAt(s, p)) == if s[p + 1] == 0 then s[p] else '?' as int
  {
  }

  /** The name of a short entry: stem, dot and extension, which fill eight and three
      characters up with spaces. */
  lemma ShortNameIs(s: Slot, stem: seq<Byte>, extension: seq<Byte>)
    requires 1 <= |stem| <= 8 && 1 <= |extension| <= 3 && 0 !in stem && 0 !in extension
    requires stem[|stem| - 1] != ' ' as int && extension[|extension| - 1] != ' ' as int
    requires s[..8] == stem + seq(8 - |stem|, i => ' ' as int)
    requires s[8..11] == extension + seq(3 - |extension|, i => ' ' as int)
    ensures NameOf([], s) == stem + ['.' as int] + extension
  {
    hide CString, Spaces;
    SpacesIs(stem, 8 - |stem|);
    SpacesIs(extension, 3 - |extension|);
    assert s[..Spaces(s[..8])] == s[..8][..Spaces(s[..8])] == stem;
    var name := stem + ['.' as int] + extension;
    assert ShortName(s) == name;
    CStringText(name, |name|);
    assert name[..|name|] == name;
  }

  lemma {:induction false} SpacesIs(t: seq<Byte>, n: nat)
    requires t != [] && t[|t| - 1] != ' ' as int
    ensures var s := t + seq(n, i => ' ' as int); Spaces(s) == |t| && s[..|t|] == t
    decreases n
  {
    var s := t + seq(n, i => ' ' as int);
    if n > 0 {
      assert s[..|s| - 1] == t + seq(n - 1, i => ' ' as int);
      SpacesIs(t, n - 1);
    } else {
      assert s == t;
    }
  }

  // ----- the node a creation returns -----

  /** The pieces of a name joined in the order in which the creation itself keeps them:
      the lowest first, so that the last piece of the name comes out first. */
  function Backwards(name: seq<Byte>, j: nat): seq<Byte>
    requires IsFileName(name) && j <= PieceCount(name)
  {
    if j == 0 then [] else name[PIECE * (j - 1)..PieceEnd(name, j)] + Backwards(name, j - 1)
  }

  lemma {:induction false} AscendingJoined(long: seq<Slot>, name: seq<Byte>, i: nat, checksum: Byte)
    requires IsFileName(name) && i <= |long| == PieceCount(name)
    requires forall j: nat | j < |long| :: HoldsPiece(long[j], name, j, checksum)
    ensures Joined(long[i..]) + Backwards(name, i) == Backwards(name, |long|)
    decreases |long| - i
  {
    hide HoldsPiece, Text;
    if i < |long| {
      AscendingJoined(long, name, i + 1, checksum);
      PieceText(long[i], name, i, checksum);
      assert long[i..][1..] == long[i + 1..];
    }
  }

  /** The node returned by the creation carries the right name, for every name of a
      length, exactly if the name fits one long entry. */
  lemma ReturnedNameIff(length: nat)
    requires 1 <= length <= 255
    ensures (forall name: seq<Byte> | IsFileName(name) && |name| == length :: Backwards(name, PieceCount(name)) == name)
            <==> length <= PIECE
  {
    if length <= PIECE {
      forall name: seq<Byte> | IsFileName(name) && |name| == length
        ensures Backwards(name, PieceCount(name)) == name
      {
        assert PieceCount(name) == 1 && Backwards(name, 0) == [];
      }
    } else {
      var name: seq<Byte> := seq(length, i => if i == 0 then 97 else 98);
      var n := PieceCount(name);
      assert PIECE * (n - 1) < PieceEnd(name, n);
      assert Backwards(name, n)[0] == name[PIECE * (n - 1)] == 98;
    }
  }
}
