/** Changing the content of one file of a Voidelle volume. */
module VoidFile {
  import opened Bytes
  import opened Runs
  import opened Spans
  import opened VoidFs

  /** From (d, t) to (d2, t2) only the content of file e changed. */
  ghost predicate OnlyContent(d: Disk, d2: Disk, t: Tree, t2: Tree, e: nat) {
    && e in t.files && e in t2.files
    && Extends(t, t2)
    && t2.names == t.names && t2.labels == t.labels && t2.kids == t.kids && t2.parents == t.parents
    && t2.files == t.files[e := t2.files[e]]
    && (forall use | use != ContentOf(e) :: SameUse(d, d2, t, use))
    && (forall c | c in t.names && c != e && IsElle(d, c) :: c in d2 && d2[c] == d[c])
    && (IsElle(d, e) ==>
          IsElle(d2, e) && d2[e].elle == d[e].elle.(content := d2[e].elle.content, contentSize := d2[e].elle.contentSize))
  }

  lemma OnlyContentRefl(d: Disk, t: Tree, e: nat)
    requires e in t.files
    ensures OnlyContent(d, d, t, t, e)
  {
    assert t.files == t.files[e := t.files[e]];
  }

  lemma OnlyContentTrans(d: Disk, d2: Disk, d3: Disk, t: Tree, t2: Tree, t3: Tree, e: nat)
    requires OnlyContent(d, d2, t, t2, e) && OnlyContent(d2, d3, t2, t3, e)
    ensures OnlyContent(d, d3, t, t3, e)
  {
    forall use | use != ContentOf(e)
      ensures SameUse(d, d3, t, use)
    {
      assert SameUse(d, d2, t, use) && SameUse(d2, d3, t2, use);
    }
  }

  /** The volume stays well formed if the file itself is in order afterwards, and no
      other file shows a difference. */
  lemma OnlyContentKeeps(d: Disk, d2: Disk, t: Tree, t2: Tree, e: nat)
    requires WellFormed(d, t) && OnlyContent(d, d2, t, t2, e)
    requires e in t.names ==> ContentOk(d2, t2, e)
    ensures WellFormed(d2, t2)
    ensures forall f | f in t.files && f != e :: SameRuns(d, d2, t.files[f])
  {
    hide EntryOk, ContentOk, SameRuns, SameUse;
    forall f | f in t.names
      ensures EntryOk(d2, t2, f)
      ensures f in t.files && f != e ==> SameRuns(d, d2, t.files[f])
    {
      assert EntryOk(d, t, f);
      OnlyContentEntry(d, d2, t, t2, e, f);
    }
  }

  lemma OnlyContentEntry(d: Disk, d2: Disk, t: Tree, t2: Tree, e: nat, f: nat)
    requires EntryOk(d, t, f) && f in t.names && OnlyContent(d, d2, t, t2, e)
    requires f == e ==> ContentOk(d2, t2, e)
    ensures EntryOk(d2, t2, f)
    ensures f in t.files && f != e ==> SameRuns(d, d2, t.files[f])
  {
    hide Chain, Children, RunAt, NameStored;
    assert SameUse(d, d2, t, NameOf(f));
    NameFrame(d, d2, t, t2, f);
    if f != e {
      assert SameUse(d, d2, t, ContentOf(f));
      assert SameLinks(d, d2, t);
      ContentFrame(d, d2, t, t2, f);
    }
  }

  lemma WellFormedEntry(d: Disk, t: Tree, e: nat)
    requires WellFormed(d, t) && (e in t.files || e in t.kids)
    ensures e in t.names && EntryOk(d, t, e)
  {
  }

  // ----- the header -----

  function Resized(d: Disk, e: nat, size: nat): Disk
    requires IsElle(d, e)
  {
    d[e := Elle(d[e].elle.(contentSize := size))]
  }

  lemma ResizeKeeps(d: Disk, t: Tree, e: nat, size: nat)
    requires WellFormed(d, t) && e in t.files
    ensures EntryOk(d, t, e)
    ensures WellFormed(Resized(d, e, size), t) && OnlyContent(d, Resized(d, e, size), t, t, e)
    ensures SameRuns(d, Resized(d, e, size), t.files[e])
  {
    hide Chain, Children, NameOk, SameRuns, WellFormed;
    WellFormedEntry(d, t, e);
    var d2 := Resized(d, e, size);
    assert t.files == t.files[e := t.files[e]];
    ChainFrame(d, d2, t, t, t.files[e], d[e].elle.content, ContentOf(e));
    OnlyContentKeeps(d, d2, t, t, e);
  }

  // ----- one voidite -----

  function RunStored(d: Disk, p: nat, data: RunBytes): Disk
    requires IsIte(d, p)
  {
    d[p := Ite(d[p].ite.(data := data))]
  }

  /** Storing voidite k of a file changes that run and nothing else. */
  lemma StoreRunKeeps(d: Disk, t: Tree, e: nat, k: nat, data: RunBytes)
    requires WellFormed(d, t) && e in t.files && k < |t.files[e]|
    ensures EntryOk(d, t, e) && IsIte(d, t.files[e][k])
    ensures var d2 := RunStored(d, t.files[e][k], data);
            && WellFormed(d2, t) && OnlyContent(d, d2, t, t, e)
            && forall j: nat :: RunAt(d2, t.files[e], j) == if j == k then data else RunAt(d, t.files[e], j)
  {
    assert EntryOk(d, t, e);
    var ps := t.files[e];
    var head, use := d[e].elle.content, ContentOf(e);
    assert Linked(d, t, ps, k, use);
    var d2 := RunStored(d, ps[k], data);
    StoreRunChain(d, t, ps, head, use, k, data);
    assert t.files == t.files[e := t.files[e]];
    StoreRunOnly(d, t, e, k, data);
    OnlyContentKeeps(d, d2, t, t, e);
  }

  lemma StoreRunChain(d: Disk, t: Tree, ps: seq<nat>, head: nat, use: Use, k: nat, data: RunBytes)
    requires Chain(d, t, ps, head, use) && k < |ps| && IsIte(d, ps[k])
    ensures var d2 := RunStored(d, ps[k], data);
            && Chain(d2, t, ps, head, use)
            && forall j: nat :: RunAt(d2, ps, j) == if j == k then data else RunAt(d, ps, j)
  {
    var d2 := RunStored(d, ps[k], data);
    forall i | 0 <= i < |ps|
      ensures Linked(d2, t, ps, i, use)
      ensures RunAt(d2, ps, i) == if i == k then data else RunAt(d, ps, i)
    {
      assert Linked(d, t, ps, i, use);
      if i < k {
        ChainDistinct(d, t, ps, head, use, i, k);
      } else if k < i {
        ChainDistinct(d, t, ps, head, use, k, i);
      }
    }
  }

  lemma StoreRunOnly(d: Disk, t: Tree, e: nat, k: nat, data: RunBytes)
    requires e in t.files && k < |t.files[e]| && Linked(d, t, t.files[e], k, ContentOf(e))
    ensures OnlyContent(d, RunStored(d, t.files[e][k], data), t, t, e)
  {
    assert t.files == t.files[e := t.files[e]];
  }

  // ----- one more voidite -----

  /** Two chains with the same zero-extended content. */
  ghost predicate ZeroExtended(d: Disk, ps: seq<nat>, d2: Disk, ps2: seq<nat>) {
    forall k: nat :: RunAt(d2, ps2, k) == RunAt(d, ps, k)
  }

  /** The disk after a zeroed voidite at p was appended to the content of e. */
  function Appended(d: Disk, t: Tree, e: nat, p: nat): Disk
    requires IsElle(d, e) && e in t.files && forall i | 0 <= i < |t.files[e]| :: IsIte(d, t.files[e][i])
  {
    var ps := t.files[e];
    var blank := Ite(Voidite(p, 0, Zeros(RUN)));
    if ps == [] then d[e := Elle(d[e].elle.(content := p))][p := blank]
    else
      assert IsIte(d, ps[|ps| - 1]);
      d[ps[|ps| - 1] := Ite(d[ps[|ps| - 1]].ite.(next := p))][p := blank]
  }

  function AppendedTree(t: Tree, e: nat, p: nat): Tree
    requires e in t.files
  {
    t.(taken := t.taken + 1, files := t.files[e := t.files[e] + [p]], uses := t.uses[p := ContentOf(e)])
  }

  /** Marking voids as taken does not concern the entries. */
  lemma MarkKeeps(d: Disk, t: Tree, e: nat, p: nat, bits: seq<bv8>)
    requires WellFormed(d, t) && e in t.files && p in d && d[p].Bitmap?
    ensures WellFormed(d[p := Bitmap(bits)], t) && OnlyContent(d, d[p := Bitmap(bits)], t, t, e)
    ensures SameRuns(d, d[p := Bitmap(bits)], t.files[e])
    ensures EntryOk(d, t, e)
    ensures IsElle(d[p := Bitmap(bits)], e) && d[p := Bitmap(bits)][e] == d[e]
  {
    hide Chain, Children, NameOk, SameRuns, WellFormed;
    WellFormedEntry(d, t, e);
    var d2 := d[p := Bitmap(bits)];
    assert t.files == t.files[e := t.files[e]];
    ChainFrame(d, d2, t, t, t.files[e], d[e].elle.content, ContentOf(e));
    OnlyContentKeeps(d, d2, t, t, e);
  }

  /** A freshly taken voidite extends the file by a run of zeros, which does not show
      in its zero-extended content. */
  lemma {:induction false} AppendKeeps(d: Disk, t: Tree, e: nat, p: nat)
    requires WellFormed(d, t) && e in t.files && 0 < t.taken
    requires p == t.taken * 512 && p !in t.uses
    ensures EntryOk(d, t, e) && forall i | 0 <= i < |t.files[e]| :: IsIte(d, t.files[e][i])
    ensures var d2, t2 := Appended(d, t, e, p), AppendedTree(t, e, p);
            && WellFormed(d2, t2) && OnlyContent(d, d2, t, t2, e)
            && ZeroExtended(d, t.files[e], d2, t2.files[e])
  {
    assert EntryOk(d, t, e);
    var ps := t.files[e];
    forall i | 0 <= i < |ps|
      ensures IsIte(d, ps[i])
    {
      assert Linked(d, t, ps, i, ContentOf(e));
    }
    var d2, t2 := Appended(d, t, e, p), AppendedTree(t, e, p);
    assert Extends(t, t2);
    forall c | c in t.names
      ensures InUse(t, c)
    {
      assert EntryOk(d, t, c);
    }
    AppendChain(d, t, e, p);
    AppendOnly(d, t, e, p);
    OnlyContentKeeps(d, d2, t, t2, e);
  }

  /** Taking a void and appending it, as one step. */
  lemma AppendTaken(d: Disk, t: Tree, e: nat, map': nat, bits: seq<bv8>, p: nat)
    requires WellFormed(d, t) && e in t.files && 0 < t.taken
    requires map' in d && d[map'].Bitmap? && p != map'
    requires p == t.taken * 512 && forall q | q in t.uses :: InUse(t, q)
    ensures IsElle(d, e) && var d1 := d[map' := Bitmap(bits)];
            && IsElle(d1, e) && d1[e] == d[e]
            && (d1[e].elle.content == 0 <==> t.files[e] == [])
            && (forall i | 0 <= i < |t.files[e]| :: IsIte(d1, t.files[e][i]) && d1[t.files[e][i]] == d[t.files[e][i]])
            && var d2, t2 := Appended(d1, t, e, p), AppendedTree(t, e, p);
               && WellFormed(d2, t2) && OnlyContent(d, d2, t, t2, e)
               && ZeroExtended(d, t.files[e], d2, t2.files[e])
               && IsElle(d2, e) && d2[e].elle.contentSize == d[e].elle.contentSize
               && map' in d2 && d2[map'] == d1[map'] && d2[p] == Ite(Voidite(p, 0, Zeros(RUN)))
  {
    hide WellFormed, NameOk, OnlyContent, ZeroExtended, SameRuns;
    MarkKeeps(d, t, e, map', bits);
    var d1 := d[map' := Bitmap(bits)];
    AppendKeeps(d1, t, e, p);
    var d2, t2 := Appended(d1, t, e, p), AppendedTree(t, e, p);
    OnlyContentTrans(d, d1, d2, t, t, t2, e);
    ZeroExtendedTrans(d, t.files[e], d1, d2, t2.files[e]);
    forall i | 0 <= i < |t.files[e]|
      ensures IsIte(d1, t.files[e][i]) && d1[t.files[e][i]] == d[t.files[e][i]] && t.files[e][i] > 0
    {
      assert Linked(d, t, t.files[e], i, ContentOf(e));
    }
  }

  lemma ZeroExtendedRefl(d: Disk, ps: seq<nat>)
    ensures ZeroExtended(d, ps, d, ps)
  {
  }

  lemma ZeroExtendedTwice(d: Disk, ps: seq<nat>, d1: Disk, ps1: seq<nat>, d2: Disk, ps2: seq<nat>)
    requires ZeroExtended(d, ps, d1, ps1) && ZeroExtended(d1, ps1, d2, ps2)
    ensures ZeroExtended(d, ps, d2, ps2)
  {
  }

  lemma ZeroExtendedTrans(d: Disk, ps: seq<nat>, d1: Disk, d2: Disk, ps2: seq<nat>)
    requires SameRuns(d, d1, ps) && ZeroExtended(d1, ps, d2, ps2)
    ensures ZeroExtended(d, ps, d2, ps2)
  {
  }

  lemma AppendChain(d: Disk, t: Tree, e: nat, p: nat)
    requires EntryOk(d, t, e) && e in t.files && 0 < t.taken
    requires p == t.taken * 512 && forall i | 0 <= i < |t.files[e]| :: IsIte(d, t.files[e][i])
    requires e != p
    ensures var d2, t2 := Appended(d, t, e, p), AppendedTree(t, e, p);
            && IsElle(d2, e)
            && Chain(d2, t2, t2.files[e], d2[e].elle.content, ContentOf(e))
            && (ZeroExtended(d, t.files[e], d2, t2.files[e]))
            && d2[e].elle.directory == d[e].elle.directory
  {
    var ps, use := t.files[e], ContentOf(e);
    var d2, t2 := Appended(d, t, e, p), AppendedTree(t, e, p);
    var ps2 := ps + [p];
    forall i | 0 <= i < |ps|
      ensures ps[i] != p && ps[i] != e
      ensures i < |ps| - 1 ==> ps[i] != ps[|ps| - 1]
      ensures Linked(d, t, ps, i, use)
    {
      assert Linked(d, t, ps, i, use);
      if i < |ps| - 1 {
        ChainDistinct(d, t, ps, d[e].elle.content, use, i, |ps| - 1);
      }
    }
    forall i | 0 <= i < |ps2|
      ensures Linked(d2, t2, ps2, i, use)
      ensures RunAt(d2, ps2, i) == RunAt(d, ps, i)
    {
      if i < |ps| {
        assert Linked(d, t, ps, i, use);
      }
    }
  }

  lemma AppendOnly(d: Disk, t: Tree, e: nat, p: nat)
    requires EntryOk(d, t, e) && e in t.files
    requires forall c | c in t.names :: InUse(t, c)
    requires p == t.taken * 512 && p !in t.uses
    requires forall i | 0 <= i < |t.files[e]| :: IsIte(d, t.files[e][i])
    ensures OnlyContent(d, Appended(d, t, e, p), t, AppendedTree(t, e, p), e)
  {
    hide NameOk;
    var ps := t.files[e];
    if ps != [] {
      assert Linked(d, t, ps, |ps| - 1, ContentOf(e));
    }
  }

  // ----- a write, run by run -----

  /** A run after the part of the window that falls in it has been replaced by buf. */
  function Patched(run: RunBytes, k: nat, off: nat, buf: seq<Byte>): (r: RunBytes)
    ensures forall j | 0 <= j < RUN ::
              r[j] == if off <= Start(k, RUN) + j < off + |buf| then buf[Start(k, RUN) + j - off] else run[j]
  {
    seq(RUN, j requires 0 <= j < RUN =>
      if off <= Start(k, RUN) + j < off + |buf| then buf[Start(k, RUN) + j - off] else run[j])
  }

  /** The write has dealt with the runs below k, having used `done` bytes of buf. */
  ghost predicate WritingAt(off: nat, size: nat, k: nat, done: nat) {
    && RunOf(off, RUN) <= k && done <= size
    && (done < size ==> off + done == Start(k, RUN) + CopyStart(off, RUN, k))
    && (done == size ==> off + size <= Start(k, RUN) || size == 0)
  }

  /** The part of buf copied into run k is what the window puts there. */
  lemma PatchRun(run: RunBytes, off: nat, buf: seq<Byte>, k: nat, done: nat)
    requires WritingAt(off, |buf|, k, done)
    ensures var s, len := CopyStart(off, RUN, k), CopyLen(off, |buf|, RUN, k, |buf| - done);
            && s + len <= RUN && done + len <= |buf|
            && Splice(run, s, buf[done..done + len]) == Patched(run, k, off, buf)
            && WritingAt(off, |buf|, k + 1, done + len)
  {
    hide CopyLen, RunOf;
    var s, left := CopyStart(off, RUN, k), |buf| - done;
    CopyStartLater(off, RUN, k);
    if left == 0 {
      CopyNothing(off, |buf|, RUN, k);
      assert Splice(run, s, []) == Patched(run, k, off, buf);
    } else {
      CopyFits(off, |buf|, RUN, k, left);
      var len := CopyLen(off, |buf|, RUN, k, left);
      assert Start(k + 1, RUN) == Start(k, RUN) + RUN;
      RunDivides(off, RUN);
      RunIs(off, RUN, RunOf(off, RUN));
      assert Splice(run, s, buf[done..done + len]) == Patched(run, k, off, buf);
    }
  }

  /** Runs the window does not reach are not changed by it. */
  lemma PatchNothing(run: RunBytes, off: nat, buf: seq<Byte>, k: nat)
    requires Start(k, RUN) + RUN <= off || off + |buf| <= Start(k, RUN)
    ensures Patched(run, k, off, buf) == run
  {
  }

  /** The runs below k have been patched, the others are as they were. */
  ghost predicate PatchedBelow(d0: Disk, ps0: seq<nat>, d: Disk, ps: seq<nat>, k: nat, off: nat, buf: seq<Byte>) {
    forall j: nat :: RunAt(d, ps, j) == if j < k then Patched(RunAt(d0, ps0, j), j, off, buf) else RunAt(d0, ps0, j)
  }

  /** Before the first run nothing needs to be patched. */
  lemma PatchedStart(d: Disk, ps: seq<nat>, off: nat, buf: seq<Byte>)
    ensures PatchedBelow(d, ps, d, ps, RunOf(off, RUN), off, buf)
    ensures WritingAt(off, |buf|, RunOf(off, RUN), 0)
  {
    var first := RunOf(off, RUN);
    RunIs(off, RUN, first);
    RunDivides(off, RUN);
    forall j: nat | j < first
      ensures Patched(RunAt(d, ps, j), j, off, buf) == RunAt(d, ps, j)
    {
      StartMono(j, first, RUN);
      PatchNothing(RunAt(d, ps, j), off, buf, j);
    }
  }

  /** The content of a file is the point update of its zero-extended old content. */
  ghost predicate PointUpdate(d0: Disk, ps0: seq<nat>, d: Disk, ps: seq<nat>, off: nat, buf: seq<Byte>) {
    forall i: nat :: ByteAt(d, ps, i) == if off <= i < off + |buf| then buf[i - off] else ByteAt(d0, ps0, i)
  }

  /** Once every run that meets the window is patched, the file is the point update. */
  lemma PatchedEnd(d0: Disk, ps0: seq<nat>, d: Disk, ps: seq<nat>, k: nat, off: nat, buf: seq<Byte>)
    requires PatchedBelow(d0, ps0, d, ps, k, off, buf)
    requires off + |buf| <= Start(k, RUN) || |buf| == 0
    ensures PointUpdate(d0, ps0, d, ps, off, buf)
  {
    hide RunAt, Patched, ByteAt;
    forall i: nat
      ensures ByteAt(d, ps, i) == if off <= i < off + |buf| then buf[i - off] else ByteAt(d0, ps0, i)
    {
      var r := RunOf(i, RUN);
      RunIs(i, RUN, r);
      assert RunAt(d, ps, r) == if r < k then Patched(RunAt(d0, ps0, r), r, off, buf) else RunAt(d0, ps0, r);
      if k <= r {
        StartMono(k, r, RUN);
      }
      PatchedByte(d0, ps0, d, ps, i, r < k, off, buf);
    }
  }

  lemma PatchedByte(d0: Disk, ps0: seq<nat>, d: Disk, ps: seq<nat>, i: nat, patched: bool, off: nat, buf: seq<Byte>)
    requires var r := RunOf(i, RUN);
             RunAt(d, ps, r) == if patched then Patched(RunAt(d0, ps0, r), r, off, buf) else RunAt(d0, ps0, r)
    ensures ByteAt(d, ps, i) == if patched && off <= i < off + |buf| then buf[i - off] else ByteAt(d0, ps0, i)
  {
    hide RunAt;
    RunIs(i, RUN, RunOf(i, RUN));
  }

  lemma PatchedSame(d0: Disk, d: Disk, ps: seq<nat>, k: nat, off: nat, buf: seq<Byte>)
    requires PatchedBelow(d0, ps, d0, ps, k, off, buf) && SameRuns(d0, d, ps)
    ensures PatchedBelow(d0, ps, d, ps, k, off, buf)
  {
  }

  lemma PatchedZero(d0: Disk, ps0: seq<nat>, d: Disk, ps: seq<nat>, d2: Disk, ps2: seq<nat>,
                    k: nat, off: nat, buf: seq<Byte>)
    requires PatchedBelow(d0, ps0, d, ps, k, off, buf) && ZeroExtended(d, ps, d2, ps2)
    ensures PatchedBelow(d0, ps0, d2, ps2, k, off, buf)
  {
  }

  lemma PatchedStep(d0: Disk, ps0: seq<nat>, d: Disk, d2: Disk, ps: seq<nat>,
                    k: nat, off: nat, buf: seq<Byte>, data: RunBytes)
    requires PatchedBelow(d0, ps0, d, ps, k, off, buf)
    requires forall j: nat :: RunAt(d2, ps, j) == if j == k then data else RunAt(d, ps, j)
    requires data == Patched(RunAt(d, ps, k), k, off, buf)
    ensures PatchedBelow(d0, ps0, d2, ps, k + 1, off, buf)
  {
  }

  /** After the last run all of buf has been used. */
  lemma WritingDone(off: nat, size: nat, k: nat, done: nat)
    requires WritingAt(off, size, k, done) && 0 < off + size
    requires LastRun(off, size, RUN) < k
    ensures done == size
    ensures off + size <= Start(k, RUN) || size == 0
  {
    if 0 < size {
      LastRunCovers(off, size, RUN, k);
    }
  }
}
