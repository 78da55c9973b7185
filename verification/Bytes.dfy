/** Bytes, byte strings, and the 512-byte sectors of the SD card. */
module Bytes {

  type Byte = x: int | 0 <= x < 256

  const SECTOR_SIZE: nat := 512

  type Sector = s: seq<Byte> | |s| == SECTOR_SIZE witness seq(SECTOR_SIZE, i => 0)

  /** The little-endian 32-bit word at offset o. */
  function Word(s: seq<Byte>, o: nat): nat
    requires o + 4 <= |s|
  {
    var b0: nat, b1: nat, b2: nat, b3: nat := s[o], s[o + 1], s[o + 2], s[o + 3];
    b0 + 0x100 * b1 + 0x1_0000 * b2 + 0x100_0000 * b3
  }

  /** The four bytes a store of the 32-bit word v leaves in memory. */
  function WordBytes(v: nat): (b: seq<Byte>)
    requires v < 0x1_0000_0000
    ensures |b| == 4 && Word(b, 0) == v
  {
    var low3 := v % 0x100_0000;
    var low2 := low3 % 0x1_0000;
    [low2 % 0x100, low2 / 0x100, low3 / 0x1_0000, v / 0x100_0000]
  }

  /** s with the bytes b stored from offset o on. */
  function Splice(s: seq<Byte>, o: nat, b: seq<Byte>): (r: seq<Byte>)
    requires o + |b| <= |s|
    ensures |r| == |s|
    ensures forall i | 0 <= i < |s| :: r[i] == if o <= i < o + |b| then b[i - o] else s[i]
  {
    s[..o] + b + s[o + |b|..]
  }

  lemma SliceOfSlice(b: seq<Byte>, a: nat, n: nat, s: nat, len: nat)
    requires a + n <= |b| && s + len <= n
    ensures b[a..a + n][s..s + len] == b[a + s..a + s + len]
  {
    var x := b[a..a + n];
    var y, z := x[s..s + len], b[a + s..a + s + len];
    forall i | 0 <= i < len
      ensures y[i] == z[i]
    {
      assert y[i] == x[s + i];
    }
  }

  lemma SpliceTwice(s: seq<Byte>, o: nat, b: seq<Byte>, c: seq<Byte>)
    requires o + |b| + |c| <= |s|
    ensures Splice(Splice(s, o, b), o + |b|, c) == Splice(s, o, b + c)
  {
  }

  lemma SpliceAppend(s: seq<Byte>, o: nat, b: seq<Byte>, t: seq<Byte>)
    requires o + |b| <= |s|
    ensures Splice(s + t, o, b) == Splice(s, o, b) + t
  {
  }

  /** The bytes of a run of sectors, in order. */
  function Flat(ss: seq<Sector>): (b: seq<Byte>)
    ensures |b| == |ss| * SECTOR_SIZE
  {
    if ss == [] then [] else ss[0] + Flat(ss[1..])
  }

  /** Replacing sector j replaces its 512 bytes. */
  lemma FlatUpdate(ss: seq<Sector>, j: nat, s: Sector)
    requires j < |ss|
    ensures Flat(ss[j := s]) == Splice(Flat(ss), j * SECTOR_SIZE, s)
  {
    var ss' := ss[j := s];
    if j == 0 {
      assert ss'[1..] == ss[1..];
    } else {
      FlatUpdate(ss[1..], j - 1, s);
      assert ss'[1..] == ss[1..][j - 1 := s];
    }
  }

  lemma {:induction false} FlatAt(ss: seq<Sector>, j: nat)
    requires j < |ss|
    ensures Flat(ss)[j * SECTOR_SIZE..(j + 1) * SECTOR_SIZE] == ss[j]
  {
    if j > 0 {
      var b, t := Flat(ss), Flat(ss[1..]);
      FlatAt(ss[1..], j - 1);
      assert b[SECTOR_SIZE..SECTOR_SIZE + |t|] == t;
      SliceOfSlice(b, SECTOR_SIZE, |t|, (j - 1) * SECTOR_SIZE, SECTOR_SIZE);
    }
  }

  /** The sectors that hold the bytes b. */
  function Sectors(b: seq<Byte>, n: nat): (ss: seq<Sector>)
    requires |b| == n * SECTOR_SIZE
    ensures |ss| == n && Flat(ss) == b
  {
    if n == 0 then [] else
      var rest := Sectors(b[SECTOR_SIZE..], n - 1);
      var ss: seq<Sector> := [b[..SECTOR_SIZE]] + rest;
      assert ss[1..] == rest;
      ss
  }

  function Zeros(n: nat): (z: seq<Byte>)
    ensures |z| == n && forall i | 0 <= i < n :: z[i] == 0
  {
    seq(n, i => 0)
  }

  /** The string in a buffer: the bytes before the first NUL. */
  function CString(s: seq<Byte>): seq<Byte> {
    if s == [] || s[0] == 0 then [] else [s[0]] + CString(s[1..])
  }

  lemma {:induction false} CStringText(t: seq<Byte>, n: nat)
    requires n <= |t| && (forall k | 0 <= k < n :: t[k] != 0) && (n < |t| ==> t[n] == 0)
    ensures CString(t) == t[..n]
    decreases n
  {
    if n > 0 {
      CStringText(t[1..], n - 1);
      assert t[..n] == [t[0]] + t[1..][..n - 1];
    }
  }

  lemma {:induction false} CStringStarts(s: seq<Byte>)
    ensures |CString(s)| <= |s| && CString(s) == s[..|CString(s)|] && 0 !in CString(s)
    ensures |CString(s)| < |s| ==> s[|CString(s)|] == 0
    decreases |s|
  {
    if s != [] && s[0] != 0 {
      CStringStarts(s[1..]);
      assert CString(s) == [s[0]] + CString(s[1..]);
    }
  }

  /** The bytes of a text of one-byte characters. */
  function Chars(t: string): (b: seq<Byte>)
    requires forall i | 0 <= i < |t| :: t[i] as int < 256
    ensures |b| == |t| && forall i | 0 <= i < |t| :: b[i] == t[i] as int
  {
    seq(|t|, i requires 0 <= i < |t| => t[i] as int)
  }
}
