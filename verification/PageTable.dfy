/** The four-level translation tables of a task: descriptors, the hardware walk, and
    the shape MapTablePage and UnmapTablePage keep. */
module PageTable {
  import opened Options
  import opened PageIndex

  const ENTRIES: nat := 512

  type Table = t: seq<nat> | |t| == ENTRIES witness seq(ENTRIES, i => 0)

  /** Physical frames that hold tables. */
  type Tables = map<nat, Table>

  function BlankTable(): (t: Table)
    ensures forall i | 0 <= i < ENTRIES :: t[i] == 0
  {
    seq(ENTRIES, i => 0)
  }

  /** Bits 47 to 12 of a word (PAGE_MASK). */
  function FrameOf(e: nat): nat {
    e / 0x1000 % 0x10_0000_0000 * 0x1000
  }

  /** A page-aligned physical address below 2^48. */
  predicate IsFrame(f: nat) {
    FrameOf(f) == f
  }

  /** The frame of a word is what is left when the low twelve bits and those from bit 48 on
      are cleared. */
  lemma FrameIs(e: nat)
    ensures IsFrame(FrameOf(e))
    ensures IsFrame(e) <==> e % 0x1000 == 0 && e < 0x1_0000_0000_0000
    ensures e < 0x1_0000_0000_0000 ==> FrameOf(e) == e - e % 0x1000
    ensures FrameOf(e + 0x1_0000_0000_0000) == FrameOf(e)
  {
    var k := e / 0x1000 % 0x10_0000_0000;
    assert (k * 0x1000) / 0x1000 == k;
    assert (e + 0x1_0000_0000_0000) / 0x1000 == e / 0x1000 + 0x10_0000_0000;
  }

  /** Bit 0: the descriptor is valid. */
  predicate Present(e: nat) {
    e % 2 == 1
  }

  /** Bits 1 and 0. */
  function KindOf(e: nat): nat {
    e % 4
  }

  const PD_BLOCK: nat := 1
  const PD_TABLE: nat := 3

  /** A descriptor that points to the next table. */
  function TableDescriptor(f: nat): nat {
    FrameOf(f) + PD_TABLE
  }

  /** The descriptor of a mapped page.  Its fields do not overlap, so that combining
      them bit by bit is adding them up. */
  function PageDescriptor(pa: nat, index: nat, flags: nat): nat {
    var uxn := if flags / 4 % 2 == 1 then 0 else 1;
    var pxn := 1 - uxn;
    var perm := flags % 4;
    FrameOf(pa) + uxn * 0x40_0000_0000_0000 + pxn * 0x20_0000_0000_0000
    + 0x800 + 0x400 + 3 * 0x100 + perm * 0x40 + index * 4 + 3
  }

  /** Frame, permissions and memory type can be read back from a page descriptor. */
  lemma PageDescriptorFields(pa: nat, index: nat, flags: nat)
    requires index < 8
    ensures var e := PageDescriptor(pa, index, flags);
            && Present(e) && KindOf(e) == PD_TABLE && FrameOf(e) == FrameOf(pa)
            && e / 4 % 8 == index && e / 0x40 % 4 == flags % 4
            && e / 0x40_0000_0000_0000 % 2 == 1 - flags / 4 % 2
            && e / 0x20_0000_0000_0000 % 2 == flags / 4 % 2
            && e / 0x20 % 2 == 0 && e / 0x100 % 4 == 3 && e / 0x400 % 2 == 1 && e / 0x800 % 2 == 1
            && e < 0x80_0000_0000_0000 && e / 0x1_0000_0000_0000 % 0x20 == 0
  {
    var k, exec, perm := pa / 0x1000 % 0x10_0000_0000, flags / 4 % 2, flags % 4;
    var low := perm * 0x40 + index * 4 + 0xF03;
    var high := 2 - exec;
    var e := PageDescriptor(pa, index, flags);
    assert e == high * 0x20_0000_0000_0000 + k * 0x1000 + low;
    FieldsHigh(high, k, low, e);
    FieldsLow(perm, index, low);
    FieldsSplit(high * 0x200_0000_0000 + k, low, e);
    FieldsFixed(high, k, low, e);
  }

  /** Shareability, the access flag and the bit for entries that are not global are set; the
      bits between the frame and the execute bits, and those above, are not. */
  lemma FieldsFixed(high: nat, k: nat, low: nat, e: nat)
    requires high < 4 && k < 0x10_0000_0000 && 0xF00 <= low < 0x1000
    requires e == high * 0x20_0000_0000_0000 + k * 0x1000 + low
    ensures e / 0x100 % 4 == 3 && e / 0x400 % 2 == 1 && e / 0x800 % 2 == 1
    ensures e < 0x80_0000_0000_0000 && e / 0x1_0000_0000_0000 % 0x20 == 0
  {
    var rest := high * 0x200_0000_0000 + k;
    assert low / 0x100 == 15 && low / 0x400 == 3 && low / 0x800 == 1;
    Divided(rest * 0x10, 0x100, low, e);
    Multiple(rest * 4, 4, 15);
    Divided(rest * 4, 0x400, low, e);
    Multiple(rest * 2, 2, 3);
    Divided(rest * 2, 0x800, low, e);
    Multiple(rest, 2, 1);
    Divided(high * 0x20, 0x1_0000_0000_0000, k * 0x1000 + low, e);
    Multiple(high, 0x20, 0);
  }

  lemma FieldsHigh(high: nat, k: nat, low: nat, e: nat)
    requires k < 0x10_0000_0000 && low < 0x1000 && e == high * 0x20_0000_0000_0000 + k * 0x1000 + low
    ensures FrameOf(e) == k * 0x1000 && e / 0x20_0000_0000_0000 == high
  {
    Divided(high * 0x200_0000_0000 + k, 0x1000, low, e);
    Multiple(high * 0x20, 0x10_0000_0000, k);
    Divided(high, 0x20_0000_0000_0000, k * 0x1000 + low, e);
  }

  lemma FieldsSplit(rest: nat, low: nat, e: nat)
    requires low < 0x1000 && e == rest * 0x1000 + low
    ensures e % 2 == low % 2 && e % 4 == low % 4
    ensures e / 4 % 8 == low / 4 % 8 && e / 0x20 % 2 == low / 0x20 % 2 && e / 0x40 % 4 == low / 0x40 % 4
  {
    Divided(rest * 0x400, 4, low, e);
    Divided(rest * 0x80, 0x20, low, e);
    Divided(rest * 0x40, 0x40, low, e);
    Multiple(rest * 0x800, 2, low);
    Multiple(rest * 0x400, 4, low);
    Multiple(rest * 0x80, 8, low / 4);
    Multiple(rest * 0x40, 2, low / 0x20);
    Multiple(rest * 0x10, 4, low / 0x40);
  }

  lemma Divided(m: nat, n: nat, low: nat, e: nat)
    requires 0 < n && e == m * n + low
    ensures e / n == m + low / n
  {
    var q, r := low / n, low % n;
    assert e == (m + q) * n + r;
    Quotient(e, n, m + q, r);
  }

  lemma {:induction false} Multiple(m: nat, n: nat, low: nat)
    requires 0 < n
    ensures (m * n + low) % n == low % n
  {
    Divided(m, n, low, m * n + low);
  }

  lemma Quotient(e: nat, n: nat, q: nat, r: nat)
    requires e == q * n + r && r < n
    ensures e / n == q
  {
    var d := e / n - q;
    assert d * n == r - e % n;
  }

  lemma FieldsLow(perm: nat, index: nat, low: nat)
    requires perm < 4 && index < 8 && low == perm * 0x40 + index * 4 + 0xF03
    ensures low < 0x1000 && low % 4 == 3 && low / 4 % 8 == index && low / 0x20 % 2 == 0 && low / 0x40 % 4 == perm
  {
  }

  lemma TableDescriptorFields(f: nat)
    ensures Present(TableDescriptor(f)) && KindOf(TableDescriptor(f)) == PD_TABLE
    ensures IsFrame(f) ==> FrameOf(TableDescriptor(f)) == f && TableDescriptor(f) == f + 3
  {
    var k := f / 0x1000 % 0x10_0000_0000;
    FieldsHigh(0, k, 3, TableDescriptor(f));
    FieldsSplit(k, 3, TableDescriptor(f));
  }

  // ----- the walk -----

  /** What the translation tables rooted at pgd make of a page: its descriptor. */
  function Walk(ts: Tables, pgd: nat, va: nat): Option<nat> {
    var p := TablePath(va);
    Follow(ts, pgd, p)
  }

  /** Follows the indexes p from a table; the last one selects a page descriptor. */
  function Follow(ts: Tables, table: nat, p: seq<nat>): Option<nat>
    requires p != [] && forall i | 0 <= i < |p| :: p[i] < ENTRIES
    decreases |p|
  {
    if table !in ts then None else
      var e := ts[table][p[0]];
      if !Present(e) then None
      else if |p| == 1 then Some(e)
      else Follow(ts, FrameOf(e), p[1..])
  }

  // ----- the shape of the tables -----

  /** Where the tables are: at gives the frame of the table reached by a list of
      indexes, and spot the list that reaches a frame. */
  datatype Shape = Shape(at: map<seq<nat>, nat>, spot: map<nat, seq<nat>>)

  /** Entry i of the table at p is what its children say. */
  predicate EntryOk(ts: Tables, s: Shape, p: seq<nat>, i: nat)
    requires p in s.at && s.at[p] in ts && i < ENTRIES
  {
    var e := ts[s.at[p]][i];
    if |p| < 3 then (if p + [i] in s.at then e == TableDescriptor(s.at[p + [i]]) else !Present(e))
    else Present(e) ==> KindOf(e) == PD_TABLE
  }

  ghost predicate TableOk(ts: Tables, s: Shape, p: seq<nat>)
  {
    && p in s.at && |p| <= 3 && IsFrame(s.at[p]) && s.at[p] in ts
    && s.at[p] in s.spot && s.spot[s.at[p]] == p
    && (p != [] ==> p[..|p| - 1] in s.at && p[|p| - 1] < ENTRIES)
    && forall i: nat | i < ENTRIES :: EntryOk(ts, s, p, i)
  }

  /** The tables form a tree of distinct frames, and there are no others. */
  ghost predicate WellShaped(ts: Tables, s: Shape, pgd: nat) {
    && [] in s.at && s.at[[]] == pgd
    && (forall p | p in s.at :: TableOk(ts, s, p))
    && (forall f | f in ts :: f in s.spot && s.spot[f] in s.at && s.at[s.spot[f]] == f)
  }

  /** The page descriptor slot at four indexes, 0 if its table is missing. */
  function Leaf(ts: Tables, s: Shape, q: seq<nat>): nat
    requires |q| == 4 && q[3] < ENTRIES
  {
    if q[..3] in s.at && s.at[q[..3]] in ts then ts[s.at[q[..3]]][q[3]] else 0
  }

  /** The valid page descriptor at four indexes, if there is one. */
  function Found(ts: Tables, s: Shape, q: seq<nat>): Option<nat>
    requires |q| == 4 && q[3] < ENTRIES
  {
    if Present(Leaf(ts, s, q)) then Some(Leaf(ts, s, q)) else None
  }

  predicate Indexes(q: seq<nat>) {
    |q| == 4 && forall i | 0 <= i < 4 :: q[i] < ENTRIES
  }

  lemma {:induction false} FollowReaches(ts: Tables, s: Shape, pgd: nat, q: seq<nat>, k: nat)
    requires WellShaped(ts, s, pgd) && Indexes(q) && k <= 3
    requires q[..k] in s.at
    ensures Follow(ts, s.at[q[..k]], q[k..]) == Found(ts, s, q)
    decreases 3 - k
  {
    var p, i := q[..k], q[k];
    assert TableOk(ts, s, p) && EntryOk(ts, s, p, i);
    assert q[k..][0] == i && q[k..][1..] == q[k + 1..];
    if k < 3 {
      assert p + [i] == q[..k + 1];
      if p + [i] in s.at {
        assert TableOk(ts, s, p + [i]);
        TableDescriptorFields(s.at[p + [i]]);
        FollowReaches(ts, s, pgd, q, k + 1);
      } else {
        MissingAbove(ts, s, pgd, q, k + 1);
      }
    }
  }

  /** Below a missing table everything is missing. */
  lemma {:induction false} MissingAbove(ts: Tables, s: Shape, pgd: nat, q: seq<nat>, k: nat)
    requires WellShaped(ts, s, pgd) && |q| == 4 && k <= 3
    requires q[..k] !in s.at
    ensures q[..3] !in s.at
    decreases 3 - k
  {
    if k < 3 {
      var r := q[..k + 1];
      assert r[..k] == q[..k];
      assert r in s.at ==> TableOk(ts, s, r);
      MissingAbove(ts, s, pgd, q, k + 1);
    }
  }

  /** The walk finds exactly the leaf slots. */
  lemma WalkIsLeaf(ts: Tables, s: Shape, pgd: nat, va: nat)
    requires WellShaped(ts, s, pgd)
    ensures Walk(ts, pgd, va) == Found(ts, s, TablePath(va))
  {
    var q := TablePath(va);
    assert q[..0] == [] && q[0..] == q;
    FollowReaches(ts, s, pgd, q, 0);
  }

  // ----- adding a table -----

  function TableAdded(ts: Tables, s: Shape, p: seq<nat>, i: nat, f: nat): Tables
    requires p in s.at && s.at[p] in ts && i < ENTRIES
  {
    var row: Table := ts[s.at[p]][i := TableDescriptor(f)];
    ts[s.at[p] := row][f := BlankTable()]
  }

  function ShapeAdded(s: Shape, p: seq<nat>, f: nat): Shape {
    Shape(s.at[p := f], s.spot[f := p])
  }

  /** A blank table on a fresh frame in an empty slot changes no translation. */
  lemma AddTable(ts: Tables, s: Shape, pgd: nat, p: seq<nat>, i: nat, f: nat)
    requires WellShaped(ts, s, pgd) && p in s.at && |p| < 3 && i < ENTRIES
    requires p + [i] !in s.at && f !in ts && IsFrame(f)
    ensures TableOk(ts, s, p)
    ensures var ts2, s2 := TableAdded(ts, s, p, i, f), ShapeAdded(s, p + [i], f);
            && WellShaped(ts2, s2, pgd)
            && forall q | Indexes(q) :: Leaf(ts2, s2, q) == Leaf(ts, s, q)
  {
    assert TableOk(ts, s, p);
    var c := p + [i];
    var ts2, s2 := TableAdded(ts, s, p, i, f), ShapeAdded(s, c, f);
    forall r | r in s2.at
      ensures TableOk(ts2, s2, r)
    {
      AddTableOk(ts, s, p, i, f, r);
    }
    forall q | Indexes(q)
      ensures Leaf(ts2, s2, q) == Leaf(ts, s, q)
    {
      if q[..3] in s.at {
        assert TableOk(ts, s, q[..3]);
      }
    }
  }

  lemma AddTableOk(ts: Tables, s: Shape, p: seq<nat>, i: nat, f: nat, r: seq<nat>)
    requires p in s.at && |p| < 3 && i < ENTRIES && TableOk(ts, s, p)
    requires p + [i] !in s.at && f !in ts && IsFrame(f)
    requires r != p + [i] ==> TableOk(ts, s, r)
    requires forall g | g in s.at :: TableOk(ts, s, g)
    ensures TableOk(TableAdded(ts, s, p, i, f), ShapeAdded(s, p + [i], f), r)
  {
    var c := p + [i];
    var ts2, s2 := TableAdded(ts, s, p, i, f), ShapeAdded(s, c, f);
    if r == c {
      assert c[..|c| - 1] == p;
      forall j: nat | j < ENTRIES
        ensures EntryOk(ts2, s2, r, j)
      {
        var below := r + [j];
        assert below[..|below| - 1] == c;
        assert below in s.at ==> TableOk(ts, s, below);
      }
    } else {
      forall j: nat | j < ENTRIES
        ensures EntryOk(ts2, s2, r, j)
      {
        assert EntryOk(ts, s, r, j);
        if r + [j] == c {
          assert r == c[..|c| - 1] == p && j == c[|c| - 1];
        }
      }
    }
  }

  // ----- setting a leaf -----

  function LeafSet(ts: Tables, s: Shape, q: seq<nat>, e: nat): Tables
    requires Indexes(q) && q[..3] in s.at && s.at[q[..3]] in ts
  {
    var row: Table := ts[s.at[q[..3]]][q[3] := e];
    ts[s.at[q[..3]] := row]
  }

  /** Storing a page descriptor, or clearing one, changes that slot and no other. */
  lemma SetLeaf(ts: Tables, s: Shape, pgd: nat, q: seq<nat>, e: nat)
    requires WellShaped(ts, s, pgd) && Indexes(q) && q[..3] in s.at
    requires Present(e) ==> KindOf(e) == PD_TABLE
    ensures s.at[q[..3]] in ts
    ensures var ts2 := LeafSet(ts, s, q, e);
            && WellShaped(ts2, s, pgd)
            && forall r | Indexes(r) :: Leaf(ts2, s, r) == if r == q then e else Leaf(ts, s, r)
  {
    var p := q[..3];
    assert TableOk(ts, s, p);
    var ts2 := LeafSet(ts, s, q, e);
    forall r | r in s.at
      ensures TableOk(ts2, s, r)
    {
      assert TableOk(ts, s, r);
      forall j: nat | j < ENTRIES
        ensures EntryOk(ts2, s, r, j)
      {
        assert EntryOk(ts, s, r, j);
      }
    }
    forall r | Indexes(r)
      ensures Leaf(ts2, s, r) == if r == q then e else Leaf(ts, s, r)
    {
      if r[..3] in s.at {
        assert TableOk(ts, s, r[..3]);
      }
      if r[..3] == p && r[3] == q[3] {
        assert r == r[..3] + [r[3]] && q == q[..3] + [q[3]];
      }
    }
  }
}
