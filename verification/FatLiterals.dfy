/** Directory entries written out byte by byte. */
module FatLiterals {
  import opened Bytes
  import opened FatDirectory
  import opened FatNames

  /** The two entries of a file "a.txt". */
  lemma EntryBytes(long: Slot, text: seq<Byte>)
    requires text == Chars("a.txt") + Zeros(3) && IsText(text)
    requires HoldsPiece(long, CString(text), 0, Checksum(ShortOf(text), 11))
    ensures CString(text) == Chars("a.txt") && PieceCount(CString(text)) == 1
    ensures ShortOf(text) == Chars("A       TXT")
    ensures long ==
    [0x41, 0x61, 0x00, 0x2E, 0x00, 0x74, 0x00, 0x78, 0x00, 0x74, 0x00, 0x0F, 0x00, 0x5D, 0x00, 0x00,
     0xFF, 0xFF, 0xFF, 0xFF, 0xFF, 0xFF, 0xFF, 0xFF, 0xFF, 0xFF, 0x00, 0x00, 0xFF, 0xFF, 0xFF, 0xFF]
    ensures NewSlot(ShortOf(text), 0x20) ==
    [0x41, 0x20, 0x20, 0x20, 0x20, 0x20, 0x20, 0x20, 0x54, 0x58, 0x54, 0x20, 0x00, 0x00, 0x00, 0x00,
     0xC0, 0x28, 0xC0, 0x28, 0x00, 0x00, 0x00, 0x00, 0xC0, 0x28, 0x00, 0x00, 0x00, 0x00, 0x00, 0x00]
  {
    hide CString, ShortOf, Checksum, HoldsPiece, NewSlot, Chars;
    NameBytes(text);
    ShortBytes(text);
    ChecksumBytes();
    LongBytes(long);
    FileBytes();
  }

  lemma FileBytes()
    ensures NewSlot(Chars("A       TXT"), 0x20) ==
    [0x41, 0x20, 0x20, 0x20, 0x20, 0x20, 0x20, 0x20, 0x54, 0x58, 0x54, 0x20, 0x00, 0x00, 0x00, 0x00,
     0xC0, 0x28, 0xC0, 0x28, 0x00, 0x00, 0x00, 0x00, 0xC0, 0x28, 0x00, 0x00, 0x00, 0x00, 0x00, 0x00]
  {
    ShortChars();
    hide Chars;
  }

  lemma NameBytes(text: seq<Byte>)
    requires text == Chars("a.txt") + Zeros(3)
    ensures IsText(text) && CString(text) == Chars("a.txt") && PieceCount(Chars("a.txt")) == 1
  {
    assert forall i | 0 <= i < 5 :: text[i] == Chars("a.txt")[i] && text[i] != 0;
    assert text[5] == 0;
    CStringText(text, 5);
    assert text[..5] == Chars("a.txt");
  }

  lemma ShortBytes(text: seq<Byte>)
    requires text == Chars("a.txt") + Zeros(3)
    ensures IsText(text) && ShortOf(text) == Chars("A       TXT")
  {
    hide CString, FirstOf, Upper;
    NameBytes(text);
    DotPlaces(text);
    UpperBytes();
    var name := Chars("a.txt");
    assert text[0] == 97 && name[2] == 116 && name[3] == 120 && name[4] == 116 && DotOf(name) == 1;
    forall i | 0 <= i < 11
      ensures ShortOf(text)[i] == Chars("A       TXT")[i]
    {
      assert ShortOf(text)[i] == ShortChar(text, name, i);
    }
  }

  lemma DotPlaces(text: seq<Byte>)
    requires text == Chars("a.txt") + Zeros(3)
    ensures FirstOf(text, DOT) == 1 && FirstOf(Chars("a.txt"), DOT) == 1
  {
    hide FirstOf;
    var name := Chars("a.txt");
    assert text[0] == name[0] == 97 && text[1] == name[1] == DOT;
    FirstAt(text);
    FirstAt(name);
  }

  lemma FirstAt(s: seq<Byte>)
    requires 1 < |s| && s[0] != DOT && s[1] == DOT
    ensures FirstOf(s, DOT) == 1
  {
  }

  lemma UpperBytes()
    ensures Upper(97) == 65 && Upper(116) == 84 && Upper(120) == 88
  {
  }

  lemma ChecksumBytes()
    ensures Checksum(Chars("A       TXT"), 11) == 0x5D
  {
    hide Checksum, Chars;
    var s: seq<Byte> := [0x41, 0x20, 0x20, 0x20, 0x20, 0x20, 0x20, 0x20, 0x54, 0x58, 0x54];
    ShortChars();
    NextChecksum(s, 0);
    NextChecksum(s, 1);
    assert Checksum(s, 1) == 0x41;
    NextChecksum(s, 2);
    assert Checksum(s, 2) == 0xC0;
    NextChecksum(s, 3);
    assert Checksum(s, 3) == 0x80;
    NextChecksum(s, 4);
    assert Checksum(s, 4) == 0x60;
    NextChecksum(s, 5);
    assert Checksum(s, 5) == 0x50;
    NextChecksum(s, 6);
    assert Checksum(s, 6) == 0x48;
    NextChecksum(s, 7);
    assert Checksum(s, 7) == 0x44;
    NextChecksum(s, 8);
    assert Checksum(s, 8) == 0x42;
    NextChecksum(s, 9);
    assert Checksum(s, 9) == 0x75;
    NextChecksum(s, 10);
    assert Checksum(s, 10) == 0x12;
    NextChecksum(s, 11);
    assert Checksum(s, 11) == 0x5D;
  }

  lemma ShortChars()
    ensures Chars("A       TXT") == [0x41, 0x20, 0x20, 0x20, 0x20, 0x20, 0x20, 0x20, 0x54, 0x58, 0x54]
  {
  }

  lemma NextChecksum(s: seq<Byte>, n: nat)
    requires n <= |s|
    ensures n == 0 ==> Checksum(s, n) == 0
    ensures n > 0 ==> var sum: nat, c: nat := Checksum(s, n - 1), s[n - 1];
                      Checksum(s, n) == ((if sum % 2 == 1 then 0x80 else 0) + sum / 2 + c) % 256
  {
  }

  lemma CharacterAt(s: Slot, p: nat, v: nat)
    requires p + 2 <= SLOT_SIZE && ShortAt(s, p) == v
    ensures s[p] == v % 256 && s[p + 1] == v / 256
  {
  }

  lemma LongBytes(long: Slot)
    requires HoldsPiece(long, Chars("a.txt"), 0, 0x5D)
    ensures long ==
    [0x41, 0x61, 0x00, 0x2E, 0x00, 0x74, 0x00, 0x78, 0x00, 0x74, 0x00, 0x0F, 0x00, 0x5D, 0x00, 0x00,
     0xFF, 0xFF, 0xFF, 0xFF, 0xFF, 0xFF, 0xFF, 0xFF, 0xFF, 0xFF, 0x00, 0x00, 0xFF, 0xFF, 0xFF, 0xFF]
  {
    hide ShortAt;
    var name := Chars("a.txt");
    forall k: nat | k < PIECE
      ensures long[PlaceOf(k)] == Stored(name, k) % 256 && long[PlaceOf(k) + 1] == Stored(name, k) / 256
    {
      CharacterAt(long, PlaceOf(k), Stored(name, k));
    }
    assert PlaceOf(0) == 1 && PlaceOf(1) == 3 && PlaceOf(2) == 5 && PlaceOf(3) == 7 && PlaceOf(4) == 9;
    assert PlaceOf(5) == 14 && PlaceOf(6) == 16 && PlaceOf(7) == 18 && PlaceOf(8) == 20 && PlaceOf(9) == 22;
    assert PlaceOf(10) == 24 && PlaceOf(11) == 28 && PlaceOf(12) == 30;
    assert PieceCount(name) == 1;
  }

  // ----- a directory -----

  function Readme(): Slot {
    Chars("README  TXT") + [0x20] + Zeros(20)
  }

  function Deleted(): Slot {
    [0xE5] + Chars("EADME  TXT") + [0x20] + Zeros(20)
  }

  function Unused(): Slot {
    Zeros(32)
  }

  /** The directory "README.TXT", a deleted file, "a.txt" with its long entry, and an unused
      slot in front of another file. */
  lemma DirectoryBytes(long: Slot, file: Slot)
    requires HoldsPiece(long, Chars("a.txt"), 0, 0x5D)
    requires file == NewSlot(Chars("A       TXT"), 0x20)
    ensures long[0] == 0x41 && long[11] == 0x0F && file[0] == 'A' as int && file[11] == 0x20
    ensures Listing([Readme(), Deleted(), long, file, Unused(), Readme()], [])
            == [Entry(Chars("README.TXT"), Readme()), Entry(Chars("a.txt"), file)]
  {
    hide NameOf, Listing, HoldsPiece, Readme, Deleted, Unused, NewSlot, Chars;
    LongStart(long);
    FirstBytes();
    ReadmeName();
    LongName(long, file);
    FileStart(file);
    ListedNext(Unused(), [Readme()], []);
    ListedNext(file, [Unused(), Readme()], [long]);
    assert [] + [long] == [long];
    ListedNext(long, [file, Unused(), Readme()], []);
    ListedNext(Deleted(), [long, file, Unused(), Readme()], []);
    ListedNext(Readme(), [Deleted(), long, file, Unused(), Readme()], []);
    assert [Readme()] + [Deleted(), long, file, Unused(), Readme()] == [Readme(), Deleted(), long, file, Unused(), Readme()];
    assert [Deleted()] + [long, file, Unused(), Readme()] == [Deleted(), long, file, Unused(), Readme()];
    assert [long] + [file, Unused(), Readme()] == [long, file, Unused(), Readme()];
    assert [file] + [Unused(), Readme()] == [file, Unused(), Readme()];
    assert [Unused()] + [Readme()] == [Unused(), Readme()];
  }

  lemma ListedNext(s: Slot, rest: seq<Slot>, long: seq<Slot>)
    ensures Listing([s] + rest, long) ==
            if s[0] == 0 then [] else if s[0] == 0xE5 then Listing(rest, long)
            else if s[11] == 0x0F then Listing(rest, long + [s])
            else [Entry(NameOf(long, s), s)] + Listing(rest, [])
  {
    assert ([s] + rest)[1..] == rest;
  }

  lemma LongStart(long: Slot)
    requires HoldsPiece(long, Chars("a.txt"), 0, 0x5D)
    ensures long[0] == 0x41 && long[11] == 0x0F
  {
    hide HoldsPiece;
    LongBytes(long);
  }

  lemma FirstBytes()
    ensures Readme()[0] == 'R' as int && Readme()[11] == 0x20 && Deleted()[0] == 0xE5 && Unused()[0] == 0
  {
  }

  lemma FileStart(file: Slot)
    requires file == NewSlot(Chars("A       TXT"), 0x20)
    ensures file[0] == 'A' as int && file[11] == 0x20
  {
    assert file[0] == file[..11][0];
  }

  lemma ReadmeName()
    ensures NameOf([], Readme()) == Chars("README.TXT")
  {
    hide NameOf;
    var s := Readme();
    assert s[..8] == Chars("README") + seq(2, i => ' ' as int);
    assert s[8..11] == Chars("TXT") + seq(0, i => ' ' as int);
    ShortNameIs(s, Chars("README"), Chars("TXT"));
    assert Chars("README") + ['.' as int] + Chars("TXT") == Chars("README.TXT");
  }

  lemma LongName(long: Slot, file: Slot)
    requires HoldsPiece(long, Chars("a.txt"), 0, 0x5D)
    ensures NameOf([long], file) == Chars("a.txt")
  {
    hide HoldsPiece;
    var name := Chars("a.txt");
    assert PieceCount(name) == 1 && IsFileName(name);
    assert HoldsPieces([long], name, 1, 0x5D);
    NameReadBack([long], name, 0x5D);
  }
}
