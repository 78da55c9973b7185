/** The allocation bitmap of a Voidelle volume: bit j, counted from the most
    significant bit of byte 0 on, says whether void j is taken. */
module VoidBitmap {

  const VOID_SIZE: nat := 512

  /** A byte whose n most significant bits are set. */
  function LeadingOnes(n: nat): bv8
    requires n <= 8
  {
    [0x00, 0x80, 0xC0, 0xE0, 0xF0, 0xF8, 0xFC, 0xFE, 0xFF][n]
  }

  /** The voids 0, ..., k - 1 are taken and no others. */
  ghost predicate Prefix(bm: seq<bv8>, k: nat) {
    forall i | 0 <= i < |bm| :: bm[i] == LeadingOnes(if k <= 8 * i then 0 else if k < 8 * i + 8 then k - 8 * i else 8)
  }

  /** Whether void j is marked as taken. */
  function Taken(bm: seq<bv8>, j: nat): bool
    requires j < 8 * |bm|
  {
    Bit(bm[j / 8], j % 8)
  }

  /** Bit n of a byte, counted from the most significant one. */
  function Bit(b: bv8, n: nat): bool
    requires n < 8
  {
    var masks: seq<bv8> := [0x80, 0x40, 0x20, 0x10, 0x08, 0x04, 0x02, 0x01];
    b & masks[n] != 0
  }

  lemma LeadingOnesBits(n: nat, m: nat)
    requires n <= 8 && m < 8
    ensures Bit(LeadingOnes(n), m) <==> m < n
  {
  }

  /** In a prefix bitmap exactly the voids below k are taken. */
  lemma PrefixTaken(bm: seq<bv8>, k: nat, j: nat)
    requires Prefix(bm, k) && j < 8 * |bm|
    ensures Taken(bm, j) <==> j < k
  {
    var i := j / 8;
    LeadingOnesBits(if k <= 8 * i then 0 else if k < 8 * i + 8 then k - 8 * i else 8, j % 8);
  }

  /** The number of trailing zero bits of a byte that is not 0. */
  function TrailingZeros(b: bv8): (n: nat)
    requires b != 0
    ensures n < 8
  {
    if b & 0x01 != 0 then 0 else if b & 0x02 != 0 then 1 else if b & 0x04 != 0 then 2 else if b & 0x08 != 0 then 3
    else if b & 0x10 != 0 then 4 else if b & 0x20 != 0 then 5 else if b & 0x40 != 0 then 6 else 7
  }

  /** The bit the search settles on in a byte that is not full, and the byte with it set. */
  function NextBit(bits: bv8): (int, bv8)
    requires bits != 0xFF
  {
    if bits == 0 then (7, 0x80)
    else
      var p := TrailingZeros(bits) - 1;
      (p, if p < 0 then bits else bits | OneAt(p))
  }

  function OneAt(p: nat): bv8
    requires p < 8
  {
    [0x01, 0x02, 0x04, 0x08, 0x10, 0x20, 0x40, 0x80][p]
  }

  /** In a byte with n < 8 leading ones, the count-trailing-zeros step finds the next
      zero and sets it. */
  lemma NextBitOfPrefix(n: nat)
    requires n < 8
    ensures LeadingOnes(n) != 0xFF
    ensures NextBit(LeadingOnes(n)) == (7 - n, LeadingOnes(n + 1))
  {
  }

  /** The bytes before the one that holds bit k are full, that one is not. */
  lemma PrefixFull(bm: seq<bv8>, k: nat, i: nat)
    requires Prefix(bm, k) && k < 8 * |bm| && i <= k / 8
    ensures bm[i] == 0xFF <==> i < k / 8
  {
    if i == k / 8 {
      assert bm[i] == LeadingOnes(k % 8);
    }
  }

  /** Setting that bit takes void k. */
  lemma PrefixGrows(bm: seq<bv8>, k: nat)
    requires Prefix(bm, k) && k < 8 * |bm|
    ensures bm[k / 8] == LeadingOnes(k % 8)
    ensures Prefix(bm[k / 8 := LeadingOnes(k % 8 + 1)], k + 1)
  {
  }
}
