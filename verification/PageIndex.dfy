/** How a virtual address is cut into table indexes (nine bits a level, four levels)
    and into the bytes that index the mapping tree of a task. */
module PageIndex {

  const PAGE: nat := 0x1000
  const VA_END: nat := 0x1_0000_0000_0000

  /** A page address the tables can translate. */
  predicate IsPage(va: nat) {
    va % PAGE == 0 && va < VA_END
  }

  /** The table indexes, from the top level down. */
  function TablePath(va: nat): (p: seq<nat>)
    ensures |p| == 4 && forall i | 0 <= i < 4 :: p[i] < 512
  {
    [va / 0x80_0000_0000 % 512, va / 0x4000_0000 % 512, va / 0x20_0000 % 512, va / 0x1000 % 512]
  }

  /** The bytes of an address, the lowest first. */
  function BytePath(va: nat): (p: seq<nat>)
    ensures |p| == 8 && forall i | 0 <= i < 8 :: p[i] < 256
  {
    [va % 256, va / 0x100 % 256, va / 0x1_0000 % 256, va / 0x100_0000 % 256,
     va / 0x1_0000_0000 % 256, va / 0x100_0000_0000 % 256, va / 0x1_0000_0000_0000 % 256, va / 0x100_0000_0000_0000 % 256]
  }

  /** The page whose table indexes are p. */
  function PageAt(p: seq<nat>): nat
    requires |p| == 4
  {
    ((p[0] * 512 + p[1]) * 512 + p[2]) * 512 * PAGE + p[3] * PAGE
  }

  /** The low 48 bits of the address whose bytes are p. */
  function AddressAt(p: seq<nat>): nat
    requires |p| == 8
  {
    ((((p[5] * 256 + p[4]) * 256 + p[3]) * 256 + p[2]) * 256 + p[1]) * 256 + p[0]
  }

  /** The nine-bit split loses nothing. */
  lemma TablePathInverse(va: nat)
    requires IsPage(va)
    ensures PageAt(TablePath(va)) == va
    ensures var p := TablePath(va);
            va == p[0] * 0x80_0000_0000 + p[1] * 0x4000_0000 + p[2] * 0x20_0000 + p[3] * 0x1000
  {
    var q3 := va / 0x1000;
    assert va / 0x1000 / 512 == va / 0x200000;
    var q2 := q3 / 512;
    assert va / 0x20_0000 / 512 == va / 0x40000000;
    var q1 := q2 / 512;
    assert va / 0x4000_0000 / 512 == va / 0x8000000000;
    var q0 := q1 / 512;
    assert q0 < 512;
  }

  /** The byte split loses nothing. */
  lemma BytePathInverse(va: nat)
    requires va < VA_END
    ensures AddressAt(BytePath(va)) == va
    ensures var p := BytePath(va);
            && va == p[0] + p[1] * 0x100 + p[2] * 0x1_0000 + p[3] * 0x100_0000 + p[4] * 0x1_0000_0000 + p[5] * 0x100_0000_0000
            && p[6] == p[7] == 0
  {
    ByteStep(va, va / 0x100);
    assert va / 0x100 / 256 == va / 0x1_0000;
    ByteStep(va / 0x100, va / 0x1_0000);
    assert va / 0x1_0000 / 256 == va / 0x100_0000;
    ByteStep(va / 0x1_0000, va / 0x100_0000);
    assert va / 0x100_0000 / 256 == va / 0x1_0000_0000;
    ByteStep(va / 0x100_0000, va / 0x1_0000_0000);
    assert va / 0x1_0000_0000 / 256 == va / 0x100_0000_0000;
    ByteStep(va / 0x1_0000_0000, va / 0x100_0000_0000);
    assert va / 0x100_0000_0000 < 256;
  }

  lemma ByteStep(q: nat, r: nat)
    requires r == q / 256
    ensures q == r * 256 + q % 256
  {
  }

  /** Every choice of indexes is that of some page. */
  lemma PageAtInverse(q: seq<nat>)
    requires |q| == 4 && forall i | 0 <= i < 4 :: q[i] < 512
    ensures IsPage(PageAt(q)) && TablePath(PageAt(q)) == q
  {
    var q2 := (q[0] * 512 + q[1]) * 512 + q[2];
    IndexStep(PageAt(q), q2 * 512 + q[3], q2, q[3]);
    UpperIndexes(PageAt(q), q[0], q[1], q[2]);
    assert TablePath(PageAt(q)) == [q[0], q[1], q[2], q[3]];
  }

  lemma IndexStep(va: nat, q3: nat, q2: nat, d: nat)
    requires d < 512 && q3 == q2 * 512 + d && va == q3 * 0x1000
    ensures va / 0x1000 == q3 && va / 0x1000 % 512 == d && va / 0x20_0000 == q2
  {
  }

  lemma UpperIndexes(va: nat, a: nat, b: nat, c: nat)
    requires a < 512 && b < 512 && c < 512 && va / 0x20_0000 == (a * 512 + b) * 512 + c
    ensures va / 0x20_0000 % 512 == c && va / 0x4000_0000 % 512 == b && va / 0x80_0000_0000 % 512 == a
  {
    assert va / 0x20_0000 / 512 == va / 0x4000_0000;
    assert va / 0x4000_0000 == a * 512 + b;
    assert va / 0x4000_0000 / 512 == va / 0x80_0000_0000;
  }

  /** Different pages have different table indexes and different bytes. */
  lemma PathsInjective(v: nat, w: nat)
    requires IsPage(v) && IsPage(w)
    ensures TablePath(v) == TablePath(w) <==> v == w
    ensures BytePath(v) == BytePath(w) <==> v == w
  {
    TablePathInverse(v);
    TablePathInverse(w);
    BytePathInverse(v);
    BytePathInverse(w);
  }
}
