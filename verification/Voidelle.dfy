/** The Voidelle driver: allocation of voids, and reading and writing a file's content. */
module Voidelle {
  import opened Bytes
  import opened Runs
  import opened Spans
  import opened VoidBitmap
  import opened Options
  import opened VoidFs
  import opened VoidFile
  import opened VoidPath
  import opened VoidCreate

  const E_FILE_EXISTS: int := 5

  class VoidVolume {
    const voidmap: nat
    const voidmapSize: nat
    var disk: Disk
    ghost var tree: Tree

    /** A volume with nothing on it but the root, whose name is a slash. */
    constructor Formatted(voidmap: nat, voidmapSize: nat)
      requires 3 * VOID_SIZE <= voidmap
      ensures Valid() && this.voidmap == voidmap && this.voidmapSize == voidmapSize
      ensures tree == EmptyTree()
    {
      this.voidmap, this.voidmapSize := voidmap, voidmapSize;
      disk, tree := EmptyDisk(voidmap), EmptyTree();
      new;
      EmptyVolume(voidmap);
    }

    constructor (voidmap: nat, voidmapSize: nat, disk: Disk, ghost tree: Tree)
      ensures this.voidmap == voidmap && this.voidmapSize == voidmapSize && this.disk == disk && this.tree == tree
    {
      this.voidmap, this.voidmapSize, this.disk, this.tree := voidmap, voidmapSize, disk, tree;
    }

    /** The bitmap says that the first k voids are taken. */
    ghost predicate BitmapSays(k: nat)
      reads this
    {
      && voidmap in disk && disk[voidmap].Bitmap? && |disk[voidmap].bits| == VOID_SIZE
      && Prefix(disk[voidmap].bits, k)
    }

    ghost predicate Valid()
      reads this
    {
      && WellFormed(disk, tree)
      && BitmapSays(tree.taken) && 0 < tree.taken && tree.taken * VOID_SIZE <= voidmap
      && (forall p | p in tree.uses :: InUse(tree, p))
    }

    /** How many voids there are below the bitmap that its first sector describes. */
    ghost function Capacity(): nat {
      Min(Min(8 * VOID_SIZE, 8 * voidmapSize), voidmap / VOID_SIZE)
    }

    /** Finds the first void that is not taken, marks it, and returns its position. */
    method GetFreeVoid(ghost k: nat) returns (pos: nat)
      requires BitmapSays(k) && k < 8 * VOID_SIZE && k < 8 * voidmapSize
      modifies this`disk
      ensures pos == k * VOID_SIZE
      ensures !Taken(old(disk)[voidmap].bits, k)
      ensures BitmapSays(k + 1) && disk == old(disk)[voidmap := disk[voidmap]]
    {
      hide Prefix, Taken, NextBit;
      PrefixTaken(disk[voidmap].bits, k, k);
      var totalBits: seq<bv8> := [];
      var i := 0;
      while i < voidmapSize
        invariant 0 <= i <= k / 8 && disk == old(disk)
        invariant i > 0 ==> totalBits == disk[voidmap].bits
      {
        if i % VOID_SIZE == 0 {
          totalBits := disk[voidmap + i / VOID_SIZE].bits;
        }
        var bits := totalBits[i % VOID_SIZE];
        PrefixFull(totalBits, k, i);
        if bits == 0xFF {
          i := i + 1;
          continue;
        }
        PrefixGrows(totalBits, k);
        NextBitOfPrefix(k % 8);
        var (bitPos, bits') := NextBit(bits);
        pos := (i * 8 + (7 - bitPos)) * VOID_SIZE;
        disk := disk[voidmap := Bitmap(totalBits[i % VOID_SIZE := bits'])];
        return;
      }
      assert false;
    }

    /** The index-th voidite of the content that starts at position head. */
    method GetContentAt(head: nat, index: nat, ghost ps: seq<nat>, ghost use: Use)
      returns (found: bool, voidite: Voidite)
      requires Chain(disk, tree, ps, head, use)
      ensures found <==> index < |ps|
      ensures found ==> IsIte(disk, ps[index]) && voidite == disk[ps[index]].ite && voidite.position == ps[index]
    {
      voidite := Voidite(0, 0, Zeros(RUN));
      var pos := head;
      var i := 0;
      while i < index
        invariant 0 <= i <= index && i <= |ps| && pos == PosAt(ps, i)
      {
        assert i < |ps| ==> Linked(disk, tree, ps, i, use);
        if pos == 0 {
          return false, voidite;
        }
        pos := disk[pos].ite.next;
        i := i + 1;
      }
      assert i < |ps| ==> Linked(disk, tree, ps, i, use);
      if pos == 0 {
        return false, voidite;
      }
      return true, disk[pos].ite;
    }

    /** Takes a void and makes it, zeroed, the last one of file e's content.  The last
        voidite so far, if there is one, is passed along with its contents. */
    method AppendContent(e: nat, last: Voidite) returns (blank: Voidite)
      requires Valid() && e in tree.files && tree.taken < Capacity()
      requires tree.files[e] != [] ==>
                 (var p := tree.files[e][|tree.files[e]| - 1];
                  last.position == p && IsIte(disk, p) && disk[p].ite == last)
      modifies this
      ensures Valid() && OnlyContent(old(disk), disk, old(tree), tree, e)
      ensures tree.taken == old(tree).taken + 1
      ensures tree.files[e] == old(tree).files[e] + [blank.position]
      ensures IsIte(disk, blank.position) && disk[blank.position].ite == blank
      ensures ZeroExtended(old(disk), old(tree).files[e], disk, tree.files[e])
      ensures IsElle(old(disk), e) && IsElle(disk, e)
      ensures disk[e].elle.contentSize == old(disk)[e].elle.contentSize
    {
      hide WellFormed, OnlyContent, ZeroExtended, Prefix, Taken;
      ghost var d0, t0 := disk, tree;
      CapacityBound(voidmap, voidmapSize, tree.taken, Capacity());
      var pos := GetFreeVoid(tree.taken);
      ghost var d1 := disk;
      AppendTaken(d0, t0, e, voidmap, disk[voidmap].bits, pos);
      blank := Voidite(pos, 0, Zeros(RUN));
      tree := AppendedTree(t0, e, pos);
      if disk[e].elle.content == 0 {
        disk := disk[e := Elle(disk[e].elle.(content := pos))];
      } else {
        disk := disk[last.position := Ite(last.(next := pos))];
      }
      disk := disk[pos := Ite(blank)];
      assert disk == Appended(d1, t0, e, pos);
      assert disk[voidmap] == d1[voidmap];
    }

    /** The last voidite of file e's content and how many there are. */
    method LastContent(e: nat) returns (last: Voidite, existing: nat)
      requires Valid() && e in tree.files && IsElle(disk, e)
      ensures existing == |tree.files[e]|
      ensures existing > 0 ==>
                (var p := tree.files[e][existing - 1]; last.position == p && IsIte(disk, p) && disk[p].ite == last)
    {
      ghost var ps := tree.files[e];
      WellFormedEntry(disk, tree, e);
      last := Voidite(0, 0, Zeros(RUN));
      var pos := disk[e].elle.content;
      existing := 0;
      assert 0 < |ps| ==> Linked(disk, tree, ps, 0, ContentOf(e));
      while pos != 0
        invariant existing <= |ps| && pos == PosAt(ps, existing)
        invariant existing < |ps| ==> Linked(disk, tree, ps, existing, ContentOf(e))
        invariant existing > 0 ==>
                    (var p := ps[existing - 1]; last.position == p && IsIte(disk, p) && disk[p].ite == last)
        decreases |ps| - existing
      {
        last := disk[pos].ite;
        pos := last.next;
        existing := existing + 1;
        assert existing < |ps| ==> Linked(disk, tree, ps, existing, ContentOf(e));
      }
    }

    /** Extends file e's content with zeroed voidites until it has count of them. */
    method FillContent(e: nat, count: nat)
      requires Valid() && e in tree.files && IsElle(disk, e)
      requires 0 < count && tree.taken + (if |tree.files[e]| < count then count - |tree.files[e]| else 0) <= Capacity()
      modifies this
      ensures Valid() && OnlyContent(old(disk), disk, old(tree), tree, e)
      ensures IsElle(disk, e) && disk[e].elle.contentSize == old(disk)[e].elle.contentSize
      ensures |tree.files[e]| == Max(count, |old(tree).files[e]|)
      ensures tree.taken == old(tree).taken + |tree.files[e]| - |old(tree).files[e]|
      ensures ZeroExtended(old(disk), old(tree).files[e], disk, tree.files[e])
    {
      hide WellFormed, OnlyContent, ZeroExtended, Prefix, Capacity;
      ghost var d0, t0 := disk, tree;
      OnlyContentRefl(d0, t0, e);
      ZeroExtendedRefl(d0, t0.files[e]);
      ContentHead(d0, t0, e);
      if disk[e].elle.content == 0 {
        var first := AppendContent(e, Voidite(0, 0, Zeros(RUN)));
      }
      OnlyContentFile(d0, disk, t0, tree, e);
      var last, existing := LastContent(e);
      while existing < count
        invariant Valid() && OnlyContent(d0, disk, t0, tree, e) && e in tree.files
        invariant IsElle(disk, e) && disk[e].elle.contentSize == d0[e].elle.contentSize
        invariant 0 < existing == |tree.files[e]| && |t0.files[e]| <= existing <= Max(count, |t0.files[e]|)
        invariant tree.taken == t0.taken + existing - |t0.files[e]|
        invariant ZeroExtended(d0, t0.files[e], disk, tree.files[e])
        invariant var p := tree.files[e][existing - 1]; last.position == p && IsIte(disk, p) && disk[p].ite == last
      {
        ghost var d1, t1 := disk, tree;
        last := AppendContent(e, last);
        OnlyContentTrans(d0, d1, disk, t0, t1, tree, e);
        OnlyContentFile(d1, disk, t1, tree, e);
        ZeroExtendedTwice(d0, t0.files[e], d1, t1.files[e], disk, tree.files[e]);
        existing := existing + 1;
      }
    }

    /** Reads size bytes at the given offset of a file; past its end they are zeros. */
    method ReadVoidelle(e: nat, offset: nat, size: nat) returns (out: seq<Byte>)
      requires Valid() && e in tree.names && IsElle(disk, e)
      requires offset + size < 0x1_0000_0000_0000_0000
      ensures e in tree.kids ==> out == []
      ensures e in tree.files ==> |out| == size && forall i | 0 <= i < size :: out[i] == ByteAt(disk, tree.files[e], offset + i)
    {
      hide ReadPart, CopyLen, CopyStart, LastRun, RunOf, Window, RunsOf, ByteAt;
      out := [];
      assert EntryOk(disk, tree, e);
      if disk[e].elle.directory {
        return;
      }
      ghost var ps := tree.files[e];
      var voiditeIndex := offset / RUN;
      var lastVoidite := LastRun(offset, size, RUN);
      ghost var n := Max(lastVoidite + 1, voiditeIndex);
      ghost var b := RunsOf(disk, ps, n);
      ReadPartStart(b, offset, size, RUN);
      while voiditeIndex <= lastVoidite
        invariant voiditeIndex <= n
        invariant |out| <= size && ReadPart(b, offset, size, RUN, voiditeIndex, out)
      {
        var found, voidite := GetContentAt(disk[e].elle.content, voiditeIndex, ps, ContentOf(e));
        var data: RunBytes := if found then voidite.data else Zeros(RUN);
        var start := CopyStart(offset, RUN, voiditeIndex);
        var len := CopyLen(offset, size, RUN, voiditeIndex, size - |out|);
        RunsOfAt(disk, ps, n, voiditeIndex);
        ReadPartStep(b, offset, size, RUN, voiditeIndex, out, data);
        out := out + data[start..start + len];
        voiditeIndex := voiditeIndex + 1;
      }
      ReadPartEnd(b, offset, size, RUN, voiditeIndex, out, n);
      if size > 0 {
        LastRunCovers(offset, size, RUN, n);
      }
      RunsOfWindow(disk, ps, n, offset, size);
    }

    /** Writes buf at the given offset of file e. */
    method WriteVoidelle(e: nat, buf: seq<Byte>, offset: nat) returns (written: nat)
      requires Valid() && e in tree.files && IsElle(disk, e)
      requires 0 < offset + |buf| < 0x1_0000_0000_0000_0000
      requires tree.taken + RunOf(offset + |buf| - 1, RUN) + 1 <= Capacity() + |tree.files[e]|
      requires tree.taken <= Capacity()
      modifies this
      ensures Valid() && written == |buf|
      ensures OnlyContent(old(disk), disk, old(tree), tree, e)
      ensures PointUpdate(old(disk), old(tree).files[e], disk, tree.files[e], offset, buf)
      ensures IsElle(disk, e) && disk[e].elle.contentSize == offset + |buf|
      ensures disk[e].elle.contentSize == Max(old(disk)[e].elle.contentSize, offset + |buf|)
              <==> old(disk)[e].elle.contentSize <= offset + |buf|
      ensures e in tree.files && tree.taken - |tree.files[e]| == old(tree).taken - |old(tree).files[e]|
      ensures |tree.files[e]| <= Max(RunOf(offset + |buf| - 1, RUN) + 1, |old(tree).files[e]|)
      ensures forall f | f in old(tree).files && f != e :: f in tree.files && tree.files[f] == old(tree).files[f]
                                                           && SameRuns(old(disk), disk, tree.files[f])
      ensures forall path :: Lookup(tree, path) == Lookup(old(tree), path)
    {
      hide WellFormed, OnlyContent, ZeroExtended, PointUpdate, PatchedBelow, WritingAt, Prefix, Capacity,
           CopyLen, CopyStart, LastRun, RunOf, Chain;
      ghost var d0, t0 := disk, tree;
      ResizeKeeps(d0, t0, e, offset + |buf|);
      disk := disk[e := Elle(disk[e].elle.(contentSize := offset + |buf|))];
      assert disk == Resized(d0, e, offset + |buf|);
      var voiditeIndex := offset / RUN;
      var lastVoidite := LastRun(offset, |buf|, RUN);
      RunDivides(offset, RUN);
      PatchedStart(d0, t0.files[e], offset, buf);
      PatchedSame(d0, disk, t0.files[e], voiditeIndex, offset, buf);
      RunDivides(offset + |buf| - 1, RUN);
      assert lastVoidite == RunOf(offset + |buf| - 1, RUN) by { LastRunIs(offset, |buf|); }
      written := 0;
      OnlyContentFile(d0, disk, t0, tree, e);
      while voiditeIndex <= lastVoidite
        invariant Valid() && OnlyContent(d0, disk, t0, tree, e) && e in tree.files
        invariant IsElle(disk, e) && disk[e].elle.contentSize == offset + |buf|
        invariant tree.taken - |tree.files[e]| == t0.taken - |t0.files[e]|
        invariant |t0.files[e]| <= |tree.files[e]| <= Max(lastVoidite + 1, |t0.files[e]|)
        invariant written <= |buf| && WritingAt(offset, |buf|, voiditeIndex, written)
        invariant PatchedBelow(d0, t0.files[e], disk, tree.files[e], voiditeIndex, offset, buf)
      {
        written := WriteRun(e, buf, offset, voiditeIndex, written, d0, t0);
        voiditeIndex := voiditeIndex + 1;
      }
      WritingDone(offset, |buf|, voiditeIndex, written);
      PatchedEnd(d0, t0.files[e], disk, tree.files[e], voiditeIndex, offset, buf);
      OnlyContentElsewhere(d0, disk, t0, tree, e);
    }

    /** Voidite k of file e, which is added if it is missing. */
    method VoiditeFor(e: nat, ghost buf: seq<Byte>, ghost offset: nat, k: nat, ghost d0: Disk, ghost t0: Tree)
      returns (voidite: Voidite)
      requires Valid() && OnlyContent(d0, disk, t0, tree, e) && e in tree.files && IsElle(disk, e)
      requires tree.taken + (if |tree.files[e]| <= k then k + 1 - |tree.files[e]| else 0) <= Capacity()
      requires e in t0.files && PatchedBelow(d0, t0.files[e], disk, tree.files[e], k, offset, buf)
      modifies this
      ensures Valid() && OnlyContent(d0, disk, t0, tree, e) && e in tree.files
      ensures IsElle(disk, e) && disk[e].elle.contentSize == old(disk)[e].elle.contentSize
      ensures tree.taken - |tree.files[e]| == old(tree).taken - |old(tree).files[e]|
      ensures |tree.files[e]| == Max(k + 1, |old(tree).files[e]|)
      ensures IsIte(disk, tree.files[e][k]) && voidite == disk[tree.files[e][k]].ite && voidite.position == tree.files[e][k]
      ensures Chain(disk, tree, tree.files[e], disk[e].elle.content, ContentOf(e))
      ensures PatchedBelow(d0, t0.files[e], disk, tree.files[e], k, offset, buf)
    {
      hide WellFormed, OnlyContent, ZeroExtended, PatchedBelow, Prefix, Capacity, Chain;
      ghost var d1, t1 := disk, tree;
      FileChain(disk, tree, e);
      var found;
      found, voidite := GetContentAt(disk[e].elle.content, k, tree.files[e], ContentOf(e));
      if !found {
        FillContent(e, k + 1);
        OnlyContentFile(d1, disk, t1, tree, e);
        PatchedZero(d0, t0.files[e], d1, t1.files[e], disk, tree.files[e], k, offset, buf);
        OnlyContentTrans(d0, d1, disk, t0, t1, tree, e);
        FileChain(disk, tree, e);
        found, voidite := GetContentAt(disk[e].elle.content, k, tree.files[e], ContentOf(e));
      }
    }

    /** Copies what belongs into voidite k of file e, which is added if it is missing. */
    method WriteRun(e: nat, buf: seq<Byte>, offset: nat, k: nat, done: nat, ghost d0: Disk, ghost t0: Tree)
      returns (done': nat)
      requires Valid() && OnlyContent(d0, disk, t0, tree, e) && e in tree.files && IsElle(disk, e)
      requires tree.taken + (if |tree.files[e]| <= k then k + 1 - |tree.files[e]| else 0) <= Capacity()
      requires done <= |buf| && WritingAt(offset, |buf|, k, done) && e in t0.files
      requires PatchedBelow(d0, t0.files[e], disk, tree.files[e], k, offset, buf)
      modifies this
      ensures Valid() && OnlyContent(d0, disk, t0, tree, e) && e in tree.files
      ensures IsElle(disk, e) && disk[e].elle.contentSize == old(disk)[e].elle.contentSize
      ensures tree.taken - |tree.files[e]| == old(tree).taken - |old(tree).files[e]|
      ensures |tree.files[e]| == Max(k + 1, |old(tree).files[e]|)
      ensures done' <= |buf| && WritingAt(offset, |buf|, k + 1, done')
      ensures PatchedBelow(d0, t0.files[e], disk, tree.files[e], k + 1, offset, buf)
    {
      hide WellFormed, OnlyContent, ZeroExtended, PointUpdate, PatchedBelow, WritingAt, Prefix, Capacity,
           CopyLen, CopyStart, LastRun, RunOf, Chain;
      var voidite := VoiditeFor(e, buf, offset, k, d0, t0);
      var start := CopyStart(offset, RUN, k);
      var len := CopyLen(offset, |buf|, RUN, k, |buf| - done);
      PatchRun(voidite.data, offset, buf, k, done);
      var data: RunBytes := Splice(voidite.data, start, buf[done..done + len]);
      done' := done + len;
      ghost var d2 := disk;
      StoreRunKeeps(d2, tree, e, k, data);
      disk := disk[voidite.position := Ite(voidite.(data := data))];
      assert disk == RunStored(d2, tree.files[e][k], data);
      OnlyContentTrans(d0, d2, disk, t0, tree, tree, e);
      PatchedStep(d0, t0.files[e], d2, disk, tree.files[e], k, offset, buf, data);
    }

    // ----- names and paths -----

    /** The bytes of an entry's name, with its NUL. */
    method GetName(e: nat) returns (out: seq<Byte>)
      requires Valid() && e in tree.names && IsElle(disk, e)
      ensures e in tree.labels && NulFree(tree.labels[e]) && out == tree.labels[e] + [0]
    {
      hide RunsOf, RunOf, WellFormed, ContentOk;
      NameChain(disk, tree, e);
      ghost var ps, size0 := tree.names[e], disk[e].elle.nameSize;
      ghost var b := RunsOf(disk, ps, |ps|);
      var size: nat := disk[e].elle.nameSize;
      var pos := disk[e].elle.name;
      out := [];
      ghost var i := 0;
      while pos != 0
        invariant i <= |ps| && pos == PosAt(ps, i)
        invariant |out| + size == size0 && |out| <= |b| && out == b[..|out|] && (size > 0 ==> |out| == Start(i, RUN))
        decreases |ps| - i
      {
        assert i < |ps| ==> Linked(disk, tree, ps, i, NameOf(e));
        var aligned: nat := if size > RUN then RUN else size;
        var voidite := disk[pos].ite;
        RunsOfAt(disk, ps, |ps|, i);
        NamePiece(b, out, voidite.data, Start(i, RUN), aligned);
        out := out + voidite.data[..aligned];
        size := size - aligned;
        pos := voidite.next;
        i := i + 1;
      }
      NameChainEnd(disk, tree, ps, disk[e].elle.name, NameOf(e), i);
      NameComplete(disk, ps, tree.labels[e], size0, out, size);
    }

    /** The first entry of a list that is called name; 0 if there is none. */
    method ChildByName(head: nat, name: seq<Byte>, ghost ps: seq<nat>, ghost dir: nat) returns (child: nat)
      requires Valid() && Children(disk, tree, ps, head, dir) && NulFree(name)
      ensures ChildNamed(tree, ps, name) == if child == 0 then None else Some(child)
      ensures child != 0 ==> IsElle(disk, child) && child in tree.names
    {
      hide WellFormed, Prefix, NulFree;
      child := head;
      ghost var i := 0;
      while child != 0
        invariant i <= |ps| && child == PosAt(ps, i)
        invariant ChildNamed(tree, ps, name) == ChildNamed(tree, ps[i..], name)
        decreases |ps| - i
      {
        assert i < |ps| ==> Listed(disk, tree, ps, i, dir);
        var vname := GetName(child);
        CStringOfName(tree.labels[child]);
        if CString(vname) == name {
          return;
        }
        assert ps[i..][1..] == ps[i + 1..];
        child := disk[child].elle.next;
        i := i + 1;
      }
      assert i < |ps| ==> Listed(disk, tree, ps, i, dir);
    }

    /** Follows a path from the root. */
    method FindByPath(path: seq<Byte>) returns (found: bool, e: nat)
      requires Valid() && NulFree(path)
      ensures Lookup(tree, path) == if found then Some(e) else None
      ensures found ==> e in tree.names && IsElle(disk, e)
    {
      hide WellFormed, Components, Children, Prefix, NulFree;
      e := ROOT;
      if path == [] || path[0] != SLASH {
        return false, e;
      }
      DirectoryList(disk, tree, ROOT);
      if path == [SLASH] {
        return true, e;
      }
      var beginning := 1;
      while true
        invariant 1 <= beginning <= |path| && e in tree.kids
        invariant Lookup(tree, path) == Find(tree, e, Components(path[beginning..]))
        decreases |path| - beginning
      {
        ghost var rest := path[beginning..];
        var end := beginning;
        while end < |path| && path[end] != SLASH
          invariant beginning <= end <= |path|
          invariant forall k | beginning <= k < end :: path[k] != SLASH
        {
          end := end + 1;
        }
        FirstSlashFrom(path, beginning, end);
        ComponentsStep(rest);
        var filename := path[beginning..end];
        assert rest[..end - beginning] == filename;
        NulFreeSlice(path, beginning, end);
        DirectoryList(disk, tree, e);
        var child := ChildByName(disk[e].elle.content, filename, tree.kids[e], e);
        if child == 0 {
          return false, e;
        }
        e := child;
        if end == |path| {
          return true, e;
        }
        EntryKind(disk, tree, e);
        if !disk[e].elle.directory {
          return false, e;
        }
        assert rest[end - beginning + 1..] == path[end + 1..];
        beginning := end + 1;
      }
    }

    // ----- creating entries -----

    /** Takes a void for every piece of a name and its NUL. */
    method CutName(name: seq<Byte>, ghost k: nat) returns (sections: seq<Voidite>)
      requires BitmapSays(k) && k + NameVoids(name) <= Capacity()
      modifies this`disk
      ensures BitmapSays(k + NameVoids(name)) && disk == old(disk)[voidmap := disk[voidmap]]
      ensures |name| + 1 <= Start(NameVoids(name), RUN) && |sections| == NameVoids(name)
      ensures forall j | 0 <= j < |sections| ::
                sections[j] == Voidite((k + j) * VOID_SIZE, 0, Piece(name + [0], |sections|, j))
    {
      hide Prefix, Taken, Piece, RunOf;
      var data := name + [0];
      var size: nat := |data|;
      VoidCount(name);
      NameFits(name);
      ghost var n := NameVoids(name);
      var voidCount := (size + RUN - 1) / RUN;
      sections := [];
      var i := 0;
      while i < voidCount
        invariant 0 <= i <= voidCount == n && |sections| == i && size <= |data|
        invariant BitmapSays(k + i) && disk == old(disk)[voidmap := disk[voidmap]]
        invariant forall j | 0 <= j < i :: sections[j] == Voidite((k + j) * VOID_SIZE, 0, Piece(data, n, j))
        invariant size == 0 ==> i == n
        invariant size > 0 ==> |data| - size == Start(i, RUN)
      {
        CapacityAt(voidmap, voidmapSize, k + i, k + n, Capacity());
        PieceCopied(data, n, i, size);
        var pos := GetFreeVoid(k + i);
        var bytes := if size < RUN then size else RUN;
        var piece := data[|data| - size..|data| - size + bytes] + Zeros(RUN - bytes);
        sections := sections + [Voidite(pos, 0, piece)];
        size := size - bytes;
        PieceLast(data, n, i, size, bytes);
        i := i + 1;
      }
    }

    /** Writes a name and its NUL to freshly taken voidites, linked in order. */
    method PopulateName(name: seq<Byte>, ghost k: nat) returns (first: nat)
      requires BitmapSays(k) && k + NameVoids(name) <= Capacity() && 0 < k
      modifies this`disk
      ensures BitmapSays(k + NameVoids(name))
      ensures NameWritten(old(disk), disk, voidmap, k, k, name, Positions(k, NameVoids(name)))
      ensures first == k * VOID_SIZE
    {
      hide Prefix, Taken, Piece, RunOf, NameVoids;
      ghost var n := NameVoids(name);
      ghost var ps := Positions(k, n);
      CapacityAt(voidmap, voidmapSize, k, k + n, Capacity());
      var sections := CutName(name, k);
      var i := 0;
      while i < |sections|
        invariant 0 <= i <= |sections| && BitmapSays(k + n)
        invariant forall p | p in old(disk) && p < k * VOID_SIZE :: p in disk && disk[p] == old(disk)[p]
        invariant forall j | 0 <= j < i :: ps[j] in disk && disk[ps[j]] == NameVoid(name, ps, j)
      {
        var section := sections[i];
        if i < |sections| - 1 {
          section := section.(next := sections[i + 1].position);
        }
        assert Ite(section) == NameVoid(name, ps, i) && section.position == ps[i];
        disk := disk[section.position := Ite(section)];
        i := i + 1;
      }
      first := sections[0].position;
    }

    /** Writes the header and the name of a new entry, not yet linked anywhere. */
    method CreateEntry(name: seq<Byte>, directory: bool, ownerPerm: nat, otherPerm: nat) returns (header: Voidelle)
      requires Valid() && NulFree(name) && tree.taken + 1 + NameVoids(name) <= Capacity()
      modifies this
      ensures Valid() && tree == old(tree).(taken := old(tree).taken + 1 + NameVoids(name))
      ensures header == Voidelle(directory, (old(tree).taken + 1) * VOID_SIZE, |name| + 1, 0, 0, 0,
                                 old(tree).taken * VOID_SIZE, ownerPerm, otherPerm)
      ensures Unlinked(old(disk), old(tree), disk, voidmap, name, header)
      ensures forall path :: Lookup(tree, path) == Lookup(old(tree), path)
    {
      hide WellFormed, Prefix, Taken, NulFree, NameWritten, RunOf, NameVoids;
      ghost var d, t := disk, tree;
      CapacityAt(voidmap, voidmapSize, t.taken, t.taken + 1 + NameVoids(name), Capacity());
      var position := GetFreeVoid(t.taken);
      ghost var dm := disk;
      var nameVoidite := PopulateName(name, t.taken + 1);
      NameWrittenAfter(d, dm, disk, voidmap, t.taken, name);
      header := Voidelle(directory, nameVoidite, |name| + 1, 0, 0, 0, position, ownerPerm, otherPerm);
      ghost var d1 := disk;
      disk := disk[position := Elle(header)];
      UnlinkedKeeps(d, t, d1, voidmap, name, header);
      tree := t.(taken := t.taken + 1 + NameVoids(name));
      assert Unlinked(d, t, disk, voidmap, name, header) by { UnlinkedBy(d, t, d1, voidmap, name, header); }
    }

    /** Makes an entry the first child of directory u. */
    method AddEntry(u: nat, header: Voidelle)
      requires IsElle(disk, u)
      modifies this`disk
      ensures disk == LinkedIn(old(disk), u, header.(next := old(disk)[u].elle.content))
    {
      var child := header.(next := disk[u].elle.content);
      var parent := disk[u].elle.(content := child.position);
      disk := disk[child.position := Elle(child)];
      disk := disk[u := Elle(parent)];
    }

    /** Creates an empty file or directory at a path whose parent is a directory. */
    method Create(path: seq<Byte>, directory: bool, ownerPerm: nat, otherPerm: nat) returns (result: int)
      requires Valid() && NulFree(path) && path != [] && path[0] == SLASH
      requires Lookup(tree, path) == None ==>
                 (&& Lookup(tree, ParentPath(path)).Some? && Lookup(tree, ParentPath(path)).value in tree.kids
                  && tree.taken + 1 + NameVoids(FileName(path)) <= Capacity())
      modifies this
      ensures Valid()
      ensures result == if Lookup(old(tree), path).Some? then -5 else 0
      ensures result != 0 ==> disk == old(disk) && tree == old(tree)
      ensures result == 0 ==>
                (var t, u := old(tree), Lookup(old(tree), ParentPath(path)).value;
                 var p := t.taken * VOID_SIZE;
                 && tree == CreatedTree(t, u, FileName(path), directory)
                 && ((Lookup(tree, path) == Some(p) && forall q | q != path :: Lookup(tree, q) == Lookup(t, q))
                     <==> !DoubleSlash(path))
                 && IsElle(disk, p) && disk[p].elle.directory == directory && disk[p].elle.contentSize == 0
                 && disk[p].elle.ownerPermission == ownerPerm && disk[p].elle.otherPermission == otherPerm
                 && HeadersKept(old(disk), t, disk, u, p)
                 && forall f | f in t.files :: f in tree.files && tree.files[f] == t.files[f]
                                               && SameRuns(old(disk), disk, t.files[f]))
    {
      hide WellFormed, Prefix, Taken, NulFree, Unlinked, RunOf, Lookup, CreatedTree, SameRuns, DoubleSlash, Capacity, HeadersKept;
      ghost var d, t := disk, tree;
      var exists', e := FindByPath(path);
      if exists' {
        return -E_FILE_EXISTS;
      }
      NulFreeSlice(path, LastSlash(path) + 1, |path|);
      assert path[LastSlash(path) + 1..|path|] == FileName(path);
      var header := CreateEntry(FileName(path), directory, ownerPerm, otherPerm);
      var parentPath := ParentPath(path);
      NulFreeParent(path);
      var found, u := FindByPath(parentPath);
      ghost var du := disk;
      AddEntry(u, header);
      CreateLinked(d, t, du, voidmap, path, u, header);
      tree := CreatedTree(t, u, FileName(path), directory);
      return 0;
    }
  }

  /** A file "/a" of two bytes is written to once more, one byte at its start: its recorded
      size is 1 then, although its second byte is still there. */
  method SizeShrinks() returns (v: VoidVolume, e: nat)
    ensures v.Valid() && e in v.tree.files && IsElle(v.disk, e)
    ensures v.disk[e].elle.contentSize == 1 && ByteAt(v.disk, v.tree.files[e], 1) == 5
  {
    hide WellFormed, Prefix, OnlyContent, Lookup, SameRuns, FileName, ParentPath, DoubleSlash, RunOf, NameVoids;
    v := new VoidVolume.Formatted(100 * VOID_SIZE, VOID_SIZE);
    NewPath();
    var result := v.Create([SLASH, 97], false, 7, 7);
    e := 3 * VOID_SIZE;
    assert v.tree == CreatedTree(EmptyTree(), ROOT, [97], false);
    assert e in v.tree.files && v.tree.files[e] == [] && v.tree.taken == 5;
    var written := v.WriteVoidelle(e, [5, 5], 0);
    written := v.WriteVoidelle(e, [6], 0);
  }

  lemma NewPath()
    ensures var path := [SLASH, 97];
            && FileName(path) == [97] && ParentPath(path) == [SLASH] && !DoubleSlash(path) && NulFree(path)
            && Lookup(EmptyTree(), path) == None && Lookup(EmptyTree(), [SLASH]) == Some(ROOT)
    ensures NameVoids([97]) == 1 && RunOf(1, RUN) == 0 && RunOf(0, RUN) == 0
  {
    var path := [SLASH, 97];
    assert path[0] == SLASH && path[..1] == [SLASH] && path[1..] == [97];
    NoSlash([97]);
  }

  // ----- an empty volume -----

  /** The root entry, its name and a bitmap of three ones. */
  function EmptyDisk(voidmap: nat): Disk {
    map[ROOT := Elle(Voidelle(true, 2 * VOID_SIZE, 2, 0, 0, 0, ROOT, 7, 7)),
        2 * VOID_SIZE := Ite(Voidite(2 * VOID_SIZE, 0, [SLASH] + Zeros(RUN - 1))),
        voidmap := Bitmap(seq(VOID_SIZE, i => if i == 0 then 0xE0 else 0))]
  }

  ghost function EmptyTree(): Tree {
    Tree(3, map[ROOT := [2 * VOID_SIZE]], map[ROOT := [SLASH]], map[], map[ROOT := []], map[],
         map[2 * VOID_SIZE := NameOf(ROOT)])
  }

  lemma EmptyVolume(voidmap: nat)
    requires 3 * VOID_SIZE <= voidmap
    ensures WellFormed(EmptyDisk(voidmap), EmptyTree())
    ensures voidmap in EmptyDisk(voidmap) && EmptyDisk(voidmap)[voidmap].Bitmap?
    ensures |EmptyDisk(voidmap)[voidmap].bits| == VOID_SIZE && Prefix(EmptyDisk(voidmap)[voidmap].bits, 3)
    ensures forall p | p in EmptyTree().uses :: InUse(EmptyTree(), p)
  {
    hide NameOk, ContentOk, Prefix;
    EmptyBitmap();
    EmptyName(voidmap);
    EmptyContent(voidmap);
    assert EntryOk(EmptyDisk(voidmap), EmptyTree(), ROOT);
  }

  lemma EmptyBitmap()
    ensures Prefix(seq(VOID_SIZE, i => if i == 0 then 0xE0 else 0), 3)
  {
  }

  lemma EmptyContent(voidmap: nat)
    requires 3 * VOID_SIZE <= voidmap
    ensures ContentOk(EmptyDisk(voidmap), EmptyTree(), ROOT)
  {
  }

  lemma EmptyName(voidmap: nat)
    requires 3 * VOID_SIZE <= voidmap
    ensures NameOk(EmptyDisk(voidmap), EmptyTree(), ROOT)
  {
    var d, t, ps := EmptyDisk(voidmap), EmptyTree(), [2 * VOID_SIZE];
    EmptyChain(voidmap);
    OneRun(d, ps, [SLASH]);
    assert NameStored(d, ps, [SLASH], 2);
  }

  lemma EmptyChain(voidmap: nat)
    requires 3 * VOID_SIZE <= voidmap
    ensures var d := EmptyDisk(voidmap);
            && Chain(d, EmptyTree(), [2 * VOID_SIZE], 2 * VOID_SIZE, NameOf(ROOT))
            && RunAt(d, [2 * VOID_SIZE], 0) == [SLASH] + Zeros(RUN - 1)
  {
    assert Linked(EmptyDisk(voidmap), EmptyTree(), [2 * VOID_SIZE], 0, NameOf(ROOT));
  }

  lemma OneRun(d: Disk, ps: seq<nat>, text: seq<Byte>)
    requires |ps| == 1 && |text| < RUN && RunAt(d, ps, 0) == text + Zeros(RUN - |text|)
    ensures |RunsOf(d, ps, 1)| >= |text| + 1 && RunsOf(d, ps, 1)[..|text| + 1] == text + [0]
  {
    assert RunsOf(d, ps, 1) == RunsOf(d, ps, 0) + RunAt(d, ps, 0);
  }

  lemma CapacityBound(voidmap: nat, size: nat, k: nat, cap: nat)
    requires k < cap == Min(Min(8 * VOID_SIZE, 8 * size), voidmap / VOID_SIZE)
    ensures k < 8 * VOID_SIZE && k < 8 * size && (k + 1) * VOID_SIZE <= voidmap
  {
  }

  lemma OnlyContentFile(d: Disk, d2: Disk, t: Tree, t2: Tree, e: nat)
    requires OnlyContent(d, d2, t, t2, e)
    ensures e in t.files && e in t2.files && t2.names == t.names
  {
  }

  /** A file has content exactly when its header points to some. */
  lemma ContentHead(d: Disk, t: Tree, e: nat)
    requires WellFormed(d, t) && e in t.files
    ensures IsElle(d, e) && (d[e].elle.content == 0 <==> t.files[e] == [])
  {
    WellFormedEntry(d, t, e);
    if t.files[e] != [] {
      assert Linked(d, t, t.files[e], 0, ContentOf(e));
    }
  }

  lemma FileChain(d: Disk, t: Tree, e: nat)
    requires WellFormed(d, t) && e in t.files
    ensures IsElle(d, e) && Chain(d, t, t.files[e], d[e].elle.content, ContentOf(e))
  {
    WellFormedEntry(d, t, e);
  }

  lemma LastRunIs(off: nat, size: nat)
    requires 0 < off + size
    ensures LastRun(off, size, RUN) == (off + size - 1) / RUN
  {
  }

  lemma NameChain(d: Disk, t: Tree, e: nat)
    requires WellFormed(d, t) && e in t.names && IsElle(d, e)
    ensures e in t.labels && Chain(d, t, t.names[e], d[e].elle.name, NameOf(e))
    ensures NameStored(d, t.names[e], t.labels[e], d[e].elle.nameSize)
  {
    assert EntryOk(d, t, e);
  }

  lemma NameChainEnd(d: Disk, t: Tree, ps: seq<nat>, head: nat, use: Use, i: nat)
    requires Chain(d, t, ps, head, use) && i <= |ps| && PosAt(ps, i) == 0
    ensures i == |ps|
  {
    assert i < |ps| ==> Linked(d, t, ps, i, use);
  }

  lemma NamePiece(b: seq<Byte>, out: seq<Byte>, data: RunBytes, at: nat, n: nat)
    requires at + RUN <= |b| && data == b[at..at + RUN] && n <= RUN
    requires |out| <= |b| && out == b[..|out|] && (n > 0 ==> |out| == at)
    ensures |out| + n <= |b| && out + data[..n] == b[..|out| + n]
  {
    if n > 0 {
      SliceOfSlice(b, at, RUN, 0, n);
      TakeMore(b, at, n);
    }
  }

  lemma NameComplete(d: Disk, ps: seq<nat>, name: seq<Byte>, nameSize: nat, out: seq<Byte>, left: nat)
    requires NameStored(d, ps, name, nameSize) && |out| + left == nameSize
    requires |out| <= Start(|ps|, RUN) && out == RunsOf(d, ps, |ps|)[..|out|]
    requires left > 0 ==> |out| == Start(|ps|, RUN)
    ensures NulFree(name) && out == name + [0]
  {
    hide RunsOf;
  }

  lemma CStringOfName(name: seq<Byte>)
    requires NulFree(name)
    ensures CString(name + [0]) == name
  {
    if name != [] {
      assert (name + [0])[1..] == name[1..] + [0];
      CStringOfName(name[1..]);
    }
  }

  lemma DirectoryList(d: Disk, t: Tree, e: nat)
    requires WellFormed(d, t) && (e in t.kids || e == ROOT)
    ensures e in t.kids && e in t.names && IsElle(d, e) && Children(d, t, t.kids[e], d[e].elle.content, e)
  {
    WellFormedDirectory(d, t, e);
  }

  lemma EntryKind(d: Disk, t: Tree, e: nat)
    requires WellFormed(d, t) && e in t.names && IsElle(d, e)
    ensures d[e].elle.directory <==> e in t.kids
  {
    assert EntryOk(d, t, e);
  }

  lemma FirstSlashFrom(path: seq<Byte>, a: nat, b: nat)
    requires a <= b <= |path| && (forall k | a <= k < b :: path[k] != SLASH) && (b < |path| ==> path[b] == SLASH)
    ensures FirstSlash(path[a..]) == b - a
  {
    var s := path[a..];
    forall k | 0 <= k < b - a
      ensures s[k] != SLASH
    {
      assert s[k] == path[a + k];
    }
  }

  lemma NulFreeSlice(s: seq<Byte>, a: nat, b: nat)
    requires NulFree(s) && a <= b <= |s|
    ensures NulFree(s[a..b])
  {
  }

  lemma CapacityAt(voidmap: nat, size: nat, k: nat, m: nat, cap: nat)
    requires k < m <= cap == Min(Min(8 * VOID_SIZE, 8 * size), voidmap / VOID_SIZE)
    ensures k < 8 * VOID_SIZE && k < 8 * size && m * VOID_SIZE <= voidmap
  {
  }

  /** Another piece follows exactly while data is left. */
  lemma PieceLast(data: seq<Byte>, n: nat, i: nat, left: nat, bytes: nat)
    requires i < n && bytes <= RUN && |data| == Start(i, RUN) + bytes + left
    requires left > 0 ==> bytes == RUN
    requires |data| == 0 || n == RunOf(|data| - 1, RUN) + 1
    requires 0 < bytes
    ensures left == 0 ==> i + 1 == n
    ensures left > 0 ==> |data| - left == Start(i + 1, RUN)
  {
    RunIs(|data| - 1, RUN, i);
  }

  lemma NulFreeParent(path: seq<Byte>)
    requires NulFree(path) && SLASH in path
    ensures NulFree(ParentPath(path))
  {
  }

  /** Other files and all paths, when the content of one file has changed. */
  lemma OnlyContentElsewhere(d: Disk, d2: Disk, t: Tree, t2: Tree, e: nat)
    requires WellFormed(d, t) && WellFormed(d2, t2) && OnlyContent(d, d2, t, t2, e)
    ensures forall f | f in t.files && f != e :: f in t2.files && t2.files[f] == t.files[f] && SameRuns(d, d2, t2.files[f])
    ensures forall path :: Lookup(t2, path) == Lookup(t, path)
  {
    hide Lookup;
    if e in t.names {
      assert EntryOk(d2, t2, e);
    }
    OnlyContentKeeps(d, d2, t, t2, e);
    forall path
      ensures Lookup(t2, path) == Lookup(t, path)
    {
      LookupSame(t, t2, path);
    }
  }
}
