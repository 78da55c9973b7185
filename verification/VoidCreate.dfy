/** What creating an entry makes of the volume. */
module VoidCreate {
  import opened Bytes
  import opened Runs
  import opened Options
  import opened VoidFs
  import opened VoidPath

  /** How many voidites the name needs, with its NUL. */
  function NameVoids(name: seq<Byte>): (n: nat)
    ensures 0 < n
  {
    RunOf(|name|, RUN) + 1
  }

  /** They are as few as hold the name and its NUL, at 496 bytes each. */
  lemma NameVoidsNeeded(name: seq<Byte>)
    ensures |name| + 1 <= NameVoids(name) * 496 < |name| + 1 + 496
  {
    RunDivides(|name|, RUN);
  }

  lemma NameFits(name: seq<Byte>)
    ensures |name| + 1 <= Start(NameVoids(name), RUN)
  {
    RunIs(|name|, RUN, RunOf(|name|, RUN));
  }

  /** The n positions from void k on. */
  function Positions(k: nat, n: nat): (ps: seq<nat>)
    ensures |ps| == n && forall i | 0 <= i < n :: ps[i] == (k + i) * 512
  {
    seq(n, i requires 0 <= i < n => (k + i) * 512)
  }

  /** The void that holds piece i of a name whose voidites are ps. */
  function NameVoid(name: seq<Byte>, ps: seq<nat>, i: nat): Void
    requires i < |ps| && |name| + 1 <= Start(|ps|, RUN)
  {
    Ite(Voidite(ps[i], PosAt(ps, i + 1), Piece(name + [0], |ps|, i)))
  }

  /** d2 is d with the name's voidites written to the voids from void k on, and
      another bitmap; the voids below `low` are the same. */
  ghost predicate NameWritten(d: Disk, d2: Disk, map': nat, low: nat, k: nat, name: seq<Byte>, ps: seq<nat>) {
    && ps == Positions(k, NameVoids(name)) && |name| + 1 <= Start(|ps|, RUN)
    && map' in d && d[map'].Bitmap? && map' in d2 && d2[map'].Bitmap?
    && (forall i | 0 <= i < |ps| :: ps[i] in d2 && d2[ps[i]] == NameVoid(name, ps, i))
    && (forall p | p in d && p < low * 512 :: p in d2 && d2[p] == d[p])
  }

  function UsesOf(uses: map<nat, Use>, ps: seq<nat>, e: nat): (u: map<nat, Use>)
    ensures forall p | p in ps :: p in u && u[p] == NameOf(e)
    ensures forall p | p in uses && p !in ps :: p in u && u[p] == uses[p]
    ensures forall p | p in u :: p in uses || p in ps
    decreases |ps|
  {
    if ps == [] then uses else UsesOf(uses[ps[0] := NameOf(e)], ps[1..], e)
  }

  /** The tree with a new empty entry at void k, called name, first in directory u. */
  function CreatedTree(t: Tree, u: nat, name: seq<Byte>, directory: bool): Tree
    requires u in t.kids
  {
    var p := t.taken * 512;
    var ps := Positions(t.taken + 1, NameVoids(name));
    var kids := t.kids[u := [p] + t.kids[u]];
    Tree(t.taken + 1 + |ps|, t.names[p := ps], t.labels[p := name],
         if directory then t.files else t.files[p := []],
         if directory then kids[p := []] else kids,
         t.parents[p := u], UsesOf(t.uses, ps, p))
  }

  /** The headers as add_voidelle leaves them. */
  function LinkedIn(d: Disk, u: nat, header: Voidelle): Disk
    requires IsElle(d, u)
  {
    d[header.position := Elle(header)][u := Elle(d[u].elle.(content := header.position))]
  }

  lemma NewNameLinked(d: Disk, t: Tree, map': nat, u: nat, name: seq<Byte>, directory: bool, d1: Disk, header: Voidelle, i: nat)
    requires IsElle(d1, u) && u in t.kids && 0 < t.taken && InUse(t, u)
    requires NameWritten(d, d1, map', t.taken, t.taken + 1, name, Positions(t.taken + 1, NameVoids(name)))
    requires header.position == t.taken * 512 && i < NameVoids(name)
    ensures |name| + 1 <= Start(NameVoids(name), RUN)
    ensures var d2, t2, ps := LinkedIn(d1, u, header), CreatedTree(t, u, name, directory), Positions(t.taken + 1, NameVoids(name));
            Linked(d2, t2, ps, i, NameOf(t.taken * 512)) && RunAt(d2, ps, i) == Piece(name + [0], |ps|, i)
  {
    hide Piece;
    var p, ps := t.taken * 512, Positions(t.taken + 1, NameVoids(name));
    assert ps[i] in ps && ps[i] != p && ps[i] != u;
    assert d1[ps[i]] == NameVoid(name, ps, i);
  }

  lemma NewNameOk(d: Disk, t: Tree, map': nat, u: nat, name: seq<Byte>, directory: bool, d1: Disk, header: Voidelle)
    requires IsElle(d1, u) && u in t.kids && NulFree(name) && 0 < t.taken && InUse(t, u)
    requires NameWritten(d, d1, map', t.taken, t.taken + 1, name, Positions(t.taken + 1, NameVoids(name)))
    requires header.position == t.taken * 512 && header.name == (t.taken + 1) * 512 && header.nameSize == |name| + 1
    ensures NameOk(LinkedIn(d1, u, header), CreatedTree(t, u, name, directory), t.taken * 512)
  {
    var p, ps := t.taken * 512, Positions(t.taken + 1, NameVoids(name));
    var d2, t2 := LinkedIn(d1, u, header), CreatedTree(t, u, name, directory);
    assert IsElle(d2, p) && d2[p].elle.name == ps[0] && d2[p].elle.nameSize == |name| + 1;
    assert t2.names[p] == ps && t2.labels[p] == name;
    forall i | 0 <= i < |ps|
      ensures Linked(d2, t2, ps, i, NameOf(p))
      ensures RunAt(d2, ps, i) == Piece(name + [0], |ps|, i)
    {
      NewNameLinked(d, t, map', u, name, directory, d1, header, i);
    }
    hide Linked, RunAt, Piece, LinkedIn, CreatedTree, NameWritten, RunsOf, NulFree, Positions;
    NameFits(name);
    NameBytes(d2, ps, name);
  }

  /** A chain that holds the pieces of a name stores the name. */
  lemma NameBytes(d: Disk, ps: seq<nat>, name: seq<Byte>)
    requires NulFree(name) && |ps| == NameVoids(name) && |name| + 1 <= Start(|ps|, RUN)
    requires forall i | 0 <= i < |ps| :: RunAt(d, ps, i) == Piece(name + [0], |ps|, i)
    ensures NameStored(d, ps, name, |name| + 1)
  {
    hide RunAt, Piece, RunsOf;
    var b := name + [0];
    PiecesAreRuns(d, ps, b, |ps|, |ps|);
    var all := Padded(b, |ps|);
    assert all[..Start(|ps|, RUN)] == all;
  }

  /** Everything create_voidelle and add_voidelle assume and do. */
  ghost predicate CreateStep(d: Disk, t: Tree, d1: Disk, map': nat, u: nat, name: seq<Byte>, header: Voidelle) {
    && WellFormed(d, t) && 0 < t.taken && (forall p | p in t.uses :: InUse(t, p))
    && u in t.kids && NulFree(name) && IsElle(d, u)
    && NameWritten(d, d1, map', t.taken, t.taken + 1, name, Positions(t.taken + 1, NameVoids(name)))
    && header.position == t.taken * 512 && header.name == (t.taken + 1) * 512 && header.nameSize == |name| + 1
    && header.content == 0 && header.next == d[u].elle.content
  }

  /** The void taken for the new header is no entry's. */
  lemma NewPosition(d: Disk, t: Tree)
    requires WellFormed(d, t)
    ensures t.taken * 512 !in t.names && t.taken * 512 !in t.parents
    ensures forall e | e in t.names :: InUse(t, e) && EntryOk(d, t, e)
  {
    forall e | e in t.names
      ensures InUse(t, e) && EntryOk(d, t, e)
    {
      assert EntryOk(d, t, e);
    }
  }

  lemma CreatedExtends(t: Tree, u: nat, name: seq<Byte>, directory: bool)
    requires u in t.kids && t.taken * 512 !in t.names && t.taken * 512 !in t.parents
    requires forall p | p in t.uses :: InUse(t, p)
    ensures Extends(t, CreatedTree(t, u, name, directory))
    ensures forall p | p in CreatedTree(t, u, name, directory).uses :: InUse(CreatedTree(t, u, name, directory), p)
  {
    var ps := Positions(t.taken + 1, NameVoids(name));
    var t2 := CreatedTree(t, u, name, directory);
    forall q | q in ps
      ensures q !in t.uses && InUse(t2, q)
    {
    }
  }

  /** The old entries' headers and voidites stay, except that u points to the new entry. */
  lemma CreatedFrame(d: Disk, t: Tree, d1: Disk, map': nat, u: nat, name: seq<Byte>, header: Voidelle)
    requires CreateStep(d, t, d1, map', u, name, header)
    ensures EntryOk(d, t, u) && IsElle(d1, u) && d1[u] == d[u]
    ensures var d2 := LinkedIn(d1, u, header);
            && SameLinks(d, d2, t) && (forall use :: SameUse(d, d2, t, use))
            && (forall f | f in t.names && f != u :: f in d && f in d2 && d2[f] == d[f])
  {
    hide NameOk, ContentOk, Chain, Children, NulFree, WellFormed;
    NewPosition(d, t);
    WellFormedDirectory(d, t, u);
    assert u < (t.taken + 1) * 512;
    var d2 := LinkedIn(d1, u, header);
    forall f | f in t.names && f != u
      ensures f in d && f in d2 && d2[f] == d[f]
    {
      assert EntryOk(d, t, f);
    }
    forall c | c in t.names && IsElle(d, c)
      ensures IsElle(d2, c) && d2[c].elle.next == d[c].elle.next
    {
    }
  }

  lemma WellFormedDirectory(d: Disk, t: Tree, u: nat)
    requires WellFormed(d, t) && u in t.kids
    ensures u in t.names && u in t.labels && u !in t.files && EntryOk(d, t, u)
  {
    assert EntryOk(d, t, u);
  }

  /** The new entry is in order. */
  lemma NewEntryOk(d: Disk, t: Tree, d1: Disk, map': nat, u: nat, name: seq<Byte>, header: Voidelle)
    requires CreateStep(d, t, d1, map', u, name, header) && IsElle(d1, u)
    requires t.taken * 512 !in t.names
    ensures EntryOk(LinkedIn(d1, u, header), CreatedTree(t, u, name, header.directory), t.taken * 512)
  {
    WellFormedDirectory(d, t, u);
    NewNameOk(d, t, map', u, name, header.directory, d1, header);
  }

  /** Directory u lists the new entry before its old ones. */
  lemma DirectoryOk(d: Disk, t: Tree, d1: Disk, map': nat, u: nat, name: seq<Byte>, header: Voidelle)
    requires CreateStep(d, t, d1, map', u, name, header)
    requires EntryOk(d, t, u) && IsElle(d1, u) && d1[u] == d[u] && u !in t.files && t.taken * 512 != u
    requires u in t.names && u in t.labels
    requires SameLinks(d, LinkedIn(d1, u, header), t) && Extends(t, CreatedTree(t, u, name, header.directory))
    requires forall use :: SameUse(d, LinkedIn(d1, u, header), t, use)
    ensures EntryOk(LinkedIn(d1, u, header), CreatedTree(t, u, name, header.directory), u)
  {
    hide WellFormed, NulFree, NameWritten, NameOk, UsesOf, NameVoids, Positions;
    var d2, t2 := LinkedIn(d1, u, header), CreatedTree(t, u, name, header.directory);
    assert SameUse(d, d2, t, NameOf(u));
    NameFrame(d, d2, t, t2, u);
    ChildrenFrame(d, d2, t, t2, t.kids[u], d[u].elle.content, u);
    var ps := t2.kids[u];
    forall i | 0 <= i < |ps|
      ensures Listed(d2, t2, ps, i, u)
    {
      if i > 0 {
        assert Listed(d2, t2, t.kids[u], i - 1, u);
      }
    }
  }

  lemma CreatedInserted(t: Tree, u: nat, name: seq<Byte>, directory: bool)
    requires Rooted(t) && u in t.kids && ROOT in t.kids
    requires t.labels.Keys == t.names.Keys == t.files.Keys + t.kids.Keys
    requires t.taken * 512 !in t.names && t.taken * 512 !in t.parents
    ensures Inserted(t, CreatedTree(t, u, name, directory), u, t.taken * 512, name)
  {
    RootedFresh(t, t.taken * 512);
  }

  lemma CreatedKeys(t: Tree, u: nat, name: seq<Byte>, directory: bool)
    requires u in t.kids && ROOT in t.kids
    requires t.labels.Keys == t.names.Keys == t.files.Keys + t.kids.Keys
    requires t.taken * 512 !in t.names
    ensures var t2 := CreatedTree(t, u, name, directory);
            && ROOT in t2.kids && t2.labels.Keys == t2.names.Keys == t2.files.Keys + t2.kids.Keys
            && (forall f | f in t.files :: f in t2.files && t2.files[f] == t.files[f])
  {
  }

  lemma CreatedEntries(d: Disk, t: Tree, d1: Disk, map': nat, u: nat, name: seq<Byte>, header: Voidelle)
    requires CreateStep(d, t, d1, map', u, name, header)
    ensures IsElle(d1, u)
    ensures var d2, t2 := LinkedIn(d1, u, header), CreatedTree(t, u, name, header.directory);
            && (forall f | f in t2.names :: EntryOk(d2, t2, f))
            && (forall f | f in t.files :: SameRuns(d, d2, t.files[f]))
  {
    hide NameWritten, NulFree, EntryOk, Extends, SameRuns;
    NewPosition(d, t);
    CreatedExtends(t, u, name, header.directory);
    CreatedFrame(d, t, d1, map', u, name, header);
    WellFormedDirectory(d, t, u);
    var d2, t2 := LinkedIn(d1, u, header), CreatedTree(t, u, name, header.directory);
    NewEntryOk(d, t, d1, map', u, name, header);
    assert t.taken * 512 != u;
    DirectoryOk(d, t, d1, map', u, name, header);
    forall f | f in t.names && f != u
      ensures EntryOk(d2, t2, f)
      ensures f in t.files ==> SameRuns(d, d2, t.files[f])
    {
      OldEntryOk(d, d2, t, t2, u, name, header.directory, f);
    }
  }

  /** Creating an entry keeps the volume well formed and puts the entry in the tree;
      files keep their chains and bytes. */
  lemma CreateKeeps(d: Disk, t: Tree, d1: Disk, map': nat, u: nat, name: seq<Byte>, header: Voidelle)
    requires CreateStep(d, t, d1, map', u, name, header)
    ensures IsElle(d1, u)
    ensures var d2, t2 := LinkedIn(d1, u, header), CreatedTree(t, u, name, header.directory);
            && WellFormed(d2, t2) && (forall p | p in t2.uses :: InUse(t2, p))
            && Inserted(t, t2, u, t.taken * 512, name) && Rooted(t)
            && (forall f | f in t.files :: f in t2.files && t2.files[f] == t.files[f] && SameRuns(d, d2, t.files[f]))
  {
    hide NameWritten, NulFree, EntryOk, SameRuns, Extends, UsesOf, Inserted, Rooted, NameVoids, Positions, LinkedIn;
    CreatedEntries(d, t, d1, map', u, name, header);
    NewPosition(d, t);
    CreatedExtends(t, u, name, header.directory);
    WellFormedRooted(d, t);
    CreatedInserted(t, u, name, header.directory);
    CreatedKeys(t, u, name, header.directory);
  }

  lemma OldEntryOk(d: Disk, d2: Disk, t: Tree, t2: Tree, u: nat, name: seq<Byte>, directory: bool, f: nat)
    requires u in t.kids && t2 == CreatedTree(t, u, name, directory) && Extends(t, t2)
    requires f in t.names && f != u && f != t.taken * 512 && EntryOk(d, t, f)
    requires f in d2 && d2[f] == d[f] && SameLinks(d, d2, t) && forall use :: SameUse(d, d2, t, use)
    ensures EntryOk(d2, t2, f)
    ensures f in t.files ==> SameRuns(d, d2, t.files[f])
  {
    hide NulFree, NameStored, Chain, Children, SameRuns;
    assert SameUse(d, d2, t, NameOf(f)) && SameUse(d, d2, t, ContentOf(f));
    NameFrame(d, d2, t, t2, f);
    ContentFrame(d, d2, t, t2, f);
  }

  lemma WellFormedRooted(d: Disk, t: Tree)
    requires WellFormed(d, t)
    ensures Rooted(t)
  {
    forall e, c | e in t.kids && c in t.kids[e]
      ensures c in t.parents && t.parents[c] == e
    {
      assert EntryOk(d, t, e);
      var i :| 0 <= i < |t.kids[e]| && t.kids[e][i] == c;
      assert Listed(d, t, t.kids[e], i, e);
    }
  }

  lemma RootedFresh(t: Tree, p: nat)
    requires Rooted(t) && p !in t.parents
    ensures forall e | e in t.kids :: p !in t.kids[e]
  {
  }

  /** While the entry is written but not yet linked, the tree is still the old one. */
  lemma UnlinkedKeeps(d: Disk, t: Tree, d1: Disk, map': nat, name: seq<Byte>, header: Voidelle)
    requires WellFormed(d, t) && NulFree(name) && header.position == t.taken * 512
    requires NameWritten(d, d1, map', t.taken, t.taken + 1, name, Positions(t.taken + 1, NameVoids(name)))
    ensures var d2, t2 := d1[header.position := Elle(header)], t.(taken := t.taken + 1 + NameVoids(name));
            && WellFormed(d2, t2)
            && (forall e | e in t.names :: e in d && e in d2 && d2[e] == d[e])
            && (forall path :: Lookup(t2, path) == Lookup(t, path))
  {
    hide NulFree, NameVoids;
    var p := header.position;
    var d2, t2 := d1[p := Elle(header)], t.(taken := t.taken + 1 + NameVoids(name));
    NewPosition(d, t);
    forall e | e in t.names
      ensures EntryOk(d2, t2, e) && e in d && e in d2 && d2[e] == d[e]
    {
      UnlinkedEntry(d, t, d2, t2, e);
    }
    forall path
      ensures Lookup(t2, path) == Lookup(t, path)
    {
      LookupSame(t, t2, path);
    }
  }

  lemma UnlinkedEntry(d: Disk, t: Tree, d2: Disk, t2: Tree, e: nat)
    requires EntryOk(d, t, e) && e in t.names && (forall c | c in t.names :: InUse(t, c))
    requires t.taken <= t2.taken && t2 == t.(taken := t2.taken)
    requires forall p | p in d && InUse(t, p) :: p in d2 && d2[p] == d[p]
    ensures EntryOk(d2, t2, e) && e in d && e in d2 && d2[e] == d[e]
  {
    hide NulFree, NameStored, Chain, Children;
    assert Extends(t, t2) && SameLinks(d, d2, t);
    assert SameUse(d, d2, t, NameOf(e)) && SameUse(d, d2, t, ContentOf(e));
    NameFrame(d, d2, t, t2, e);
    ContentFrame(d, d2, t, t2, e);
  }

  /** How many voidites populate_voidite_data computes. */
  lemma VoidCount(name: seq<Byte>)
    ensures (|name| + 1 + RUN - 1) / RUN == NameVoids(name)
  {
    RunDivides(|name|, RUN);
  }

  /** The i-th piece as it is copied: what is left of the data, zeros behind it. */
  lemma PieceCopied(b: seq<Byte>, n: nat, i: nat, left: nat)
    requires |b| <= Start(n, RUN) && i < n && left <= |b|
    requires left > 0 ==> |b| - left == Start(i, RUN)
    requires left > 0
    ensures var m := if left < RUN then left else RUN;
            Piece(b, n, i) == b[|b| - left..|b| - left + m] + Zeros(RUN - m)
  {
    StartMono(i, n, RUN);
    var at := Start(i, RUN);
    SliceOfSlice(Padded(b, n), 0, |Padded(b, n)|, at, RUN);
  }

  /** The bitmap may be marked before the name is written. */
  lemma NameWrittenAfter(d: Disk, dm: Disk, d1: Disk, map': nat, k: nat, name: seq<Byte>)
    requires map' in d && d[map'].Bitmap? && map' in dm && dm == d[map' := dm[map']] && (k + 1) * 512 <= map'
    requires NameWritten(dm, d1, map', k + 1, k + 1, name, Positions(k + 1, NameVoids(name)))
    ensures NameWritten(d, d1, map', k, k + 1, name, Positions(k + 1, NameVoids(name)))
  {
  }

  /** du is d with the name and the header of a new entry written to fresh voids. */
  ghost predicate Unlinked(d: Disk, t: Tree, du: Disk, map': nat, name: seq<Byte>, header: Voidelle) {
    && header.position == t.taken * 512 && header.position in du && du[header.position] == Elle(header)
    && NameWritten(d, du, map', t.taken, t.taken + 1, name, Positions(t.taken + 1, NameVoids(name)))
  }

  lemma UnlinkedBy(d: Disk, t: Tree, d1: Disk, map': nat, name: seq<Byte>, header: Voidelle)
    requires header.position == t.taken * 512 && header.position < map'
    requires NameWritten(d, d1, map', t.taken, t.taken + 1, name, Positions(t.taken + 1, NameVoids(name)))
    ensures Unlinked(d, t, d1[header.position := Elle(header)], map', name, header)
  {
  }

  /** Linking the new entry completes its creation. */
  lemma CreateLinked(d: Disk, t: Tree, du: Disk, map': nat, path: seq<Byte>, u: nat, header: Voidelle)
    requires WellFormed(d, t) && 0 < t.taken && (forall p | p in t.uses :: InUse(t, p))
    requires path != [] && path[0] == SLASH && NulFree(FileName(path))
    requires Lookup(t, path) == None && Lookup(t, ParentPath(path)) == Some(u) && u in t.kids
    requires Unlinked(d, t, du, map', FileName(path), header) && IsElle(du, u)
    requires header.name == (t.taken + 1) * 512 && header.nameSize == |FileName(path)| + 1 && header.content == 0
    ensures u != t.taken * 512
    ensures var d2, t2 := LinkedIn(du, u, header.(next := du[u].elle.content)), CreatedTree(t, u, FileName(path), header.directory);
            && WellFormed(d2, t2) && (forall p | p in t2.uses :: InUse(t2, p))
            && t2.taken == t.taken + 1 + NameVoids(FileName(path))
            && ((Lookup(t2, path) == Some(t.taken * 512) && forall q | q != path :: Lookup(t2, q) == Lookup(t, q))
                <==> !DoubleSlash(path))
            && (forall f | f in t.files :: f in t2.files && t2.files[f] == t.files[f] && SameRuns(d, d2, t.files[f]))
            && HeadersKept(d, t, d2, u, t.taken * 512)
  {
    hide WellFormed, NameWritten, NulFree, NameVoids, SameRuns, Lookup, Inserted, Rooted, DoubleSlash;
    var name := FileName(path);
    HeaderOfParent(d, t, du, map', u, name);
    var header2 := header.(next := d[u].elle.content);
    assert CreateStep(d, t, du, map', u, name, header2);
    CreateKeeps(d, t, du, map', u, name, header2);
    CreateThenLookup(t, CreatedTree(t, u, name, header.directory), path, u, t.taken * 512);
    OtherHeaders(d, t, du, map', u, name, header2);
  }

  /** No header has changed but that of directory u, whose first child is now p. */
  ghost predicate HeadersKept(d: Disk, t: Tree, d2: Disk, u: nat, p: nat) {
    forall e | e in t.names ::
      && IsElle(d, e) && IsElle(d2, e)
      && d2[e].elle == if e == u then d[e].elle.(content := p) else d[e].elle
  }

  lemma OtherHeaders(d: Disk, t: Tree, d1: Disk, map': nat, u: nat, name: seq<Byte>, header: Voidelle)
    requires WellFormed(d, t) && u in t.kids && IsElle(d1, u)
    requires NameWritten(d, d1, map', t.taken, t.taken + 1, name, Positions(t.taken + 1, NameVoids(name)))
    requires header.position == t.taken * 512
    ensures HeadersKept(d, t, LinkedIn(d1, u, header), u, t.taken * 512)
  {
    hide NameOk, ContentOk, NameVoid, Positions;
    forall e | e in t.names
      ensures IsElle(d, e) && e < t.taken * 512 && e in d1 && d1[e] == d[e]
    {
      assert EntryOk(d, t, e);
    }
  }

  lemma HeaderOfParent(d: Disk, t: Tree, d1: Disk, map': nat, u: nat, name: seq<Byte>)
    requires WellFormed(d, t) && u in t.kids
    requires NameWritten(d, d1, map', t.taken, t.taken + 1, name, Positions(t.taken + 1, NameVoids(name)))
    ensures IsElle(d, u) && u in d1 && d1[u] == d[u] && u != t.taken * 512
  {
    WellFormedDirectory(d, t, u);
  }
}
