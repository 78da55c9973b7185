/** A Voidelle volume as its 512-byte voids, and what makes it well formed: every
    entry heads a chain of name voidites, and either a chain of content voidites or
    a list of child entries, and no voidite belongs to two chains. */
module VoidFs {
  import opened Bytes
  import opened Runs
  import opened Spans

  /** The bytes of content in one voidite. */
  const RUN: nat := 496

  /** The position of the root entry. */
  const ROOT: nat := 512

  /** A voidite is a void: its position and its successor take eight bytes each.  The root
      entry is in the void behind the first. */
  lemma VoidIsFull()
    ensures 8 + 8 + RUN == 512 == ROOT
  {
  }

  type RunBytes = s: seq<Byte> | |s| == RUN witness Zeros(RUN)

  datatype Voidite = Voidite(position: nat, next: nat, data: RunBytes)

  datatype Voidelle = Voidelle(directory: bool, name: nat, nameSize: nat, content: nat, contentSize: nat,
                               next: nat, position: nat, ownerPermission: nat, otherPermission: nat)

  datatype Void = Bitmap(bits: seq<bv8>) | Elle(elle: Voidelle) | Ite(ite: Voidite)

  /** The voids of the partition by byte position. */
  type Disk = map<nat, Void>

  datatype Use = NameOf(e: nat) | ContentOf(e: nat)

  /** What the disk represents: how many voids are taken, and for each entry its name
      chain, its name, its content chain or its children; the directory each entry is
      in; and who uses each voidite. */
  datatype Tree = Tree(taken: nat, names: map<nat, seq<nat>>, labels: map<nat, seq<Byte>>,
                       files: map<nat, seq<nat>>, kids: map<nat, seq<nat>>,
                       parents: map<nat, nat>, uses: map<nat, Use>)

  /** The i-th position of a list, 0 past its end. */
  function PosAt(ps: seq<nat>, i: nat): nat {
    if i < |ps| then ps[i] else 0
  }

  predicate InUse(t: Tree, p: nat) {
    0 < p < t.taken * 512
  }

  predicate IsElle(d: Disk, p: nat) {
    p in d && d[p].Elle?
  }

  predicate IsIte(d: Disk, p: nat) {
    p in d && d[p].Ite?
  }

  /** The i-th voidite of a chain is in place. */
  predicate Linked(d: Disk, t: Tree, ps: seq<nat>, i: nat, use: Use)
    requires i < |ps|
  {
    && IsIte(d, ps[i]) && d[ps[i]].ite.position == ps[i] && d[ps[i]].ite.next == PosAt(ps, i + 1)
    && InUse(t, ps[i]) && ps[i] in t.uses && t.uses[ps[i]] == use
  }

  ghost predicate Chain(d: Disk, t: Tree, ps: seq<nat>, head: nat, use: Use) {
    head == PosAt(ps, 0) && forall i | 0 <= i < |ps| :: Linked(d, t, ps, i, use)
  }

  /** The i-th entry of a directory is in place. */
  predicate Listed(d: Disk, t: Tree, ps: seq<nat>, i: nat, dir: nat)
    requires i < |ps|
  {
    && IsElle(d, ps[i]) && d[ps[i]].elle.next == PosAt(ps, i + 1) && InUse(t, ps[i])
    && ps[i] in t.names && ps[i] in t.parents && t.parents[ps[i]] == dir
  }

  ghost predicate Children(d: Disk, t: Tree, ps: seq<nat>, head: nat, dir: nat) {
    head == PosAt(ps, 0) && forall i | 0 <= i < |ps| :: Listed(d, t, ps, i, dir)
  }

  /** Run k of a chain, all zeros past its end. */
  function RunAt(d: Disk, ps: seq<nat>, k: nat): RunBytes {
    if k < |ps| && IsIte(d, ps[k]) then d[ps[k]].ite.data else Zeros(RUN)
  }

  /** The first n runs of a chain. */
  function RunsOf(d: Disk, ps: seq<nat>, n: nat): (b: seq<Byte>)
    ensures |b| == Start(n, RUN)
  {
    if n == 0 then [] else RunsOf(d, ps, n - 1) + RunAt(d, ps, n - 1)
  }

  /** Byte i of the zero-extended content of a chain. */
  function ByteAt(d: Disk, ps: seq<nat>, i: nat): Byte {
    RunIs(i, RUN, RunOf(i, RUN));
    RunAt(d, ps, RunOf(i, RUN))[i - Start(RunOf(i, RUN), RUN)]
  }

  /** Run k of a zero-extended content lies where run k of any sequence does. */
  lemma {:induction false} RunsOfAt(d: Disk, ps: seq<nat>, n: nat, k: nat)
    requires k < n
    ensures Start(k, RUN) + RUN <= Start(n, RUN)
    ensures RunsOf(d, ps, n)[Start(k, RUN)..Start(k, RUN) + RUN] == RunAt(d, ps, k)
    decreases n
  {
    StartMono(k, n, RUN);
    if k < n - 1 {
      StartMono(k, n - 1, RUN);
      RunsOfAt(d, ps, n - 1, k);
      SliceOfSlice(RunsOf(d, ps, n), 0, Start(n - 1, RUN), Start(k, RUN), RUN);
      assert RunsOf(d, ps, n)[..Start(n - 1, RUN)] == RunsOf(d, ps, n - 1);
    }
  }

  /** Byte by byte, the first n runs are the zero-extended content. */
  lemma RunsOfByte(d: Disk, ps: seq<nat>, n: nat, i: nat)
    requires i < Start(n, RUN)
    ensures RunsOf(d, ps, n)[i] == ByteAt(d, ps, i)
  {
    var k := RunOf(i, RUN);
    RunIs(i, RUN, k);
    if n <= k {
      StartMono(n, k, RUN);
    }
    RunsOfAt(d, ps, n, k);
    assert RunsOf(d, ps, n)[Start(k, RUN)..Start(k, RUN) + RUN][i - Start(k, RUN)] == RunsOf(d, ps, n)[i];
  }

  /** A window of the first n runs is that slice of the zero-extended content. */
  lemma RunsOfWindow(d: Disk, ps: seq<nat>, n: nat, off: nat, size: nat)
    requires off + size <= Start(n, RUN) || size == 0
    ensures var w := Window(RunsOf(d, ps, n), off, size);
            |w| == size && forall i | 0 <= i < size :: w[i] == ByteAt(d, ps, off + i)
  {
    var b := RunsOf(d, ps, n);
    forall j | off <= j < off + size
      ensures j < Start(n, RUN) && b[j] == ByteAt(d, ps, j)
    {
      RunsOfByte(d, ps, n, j);
    }
  }

  predicate NulFree(s: seq<Byte>) {
    forall i | 0 <= i < |s| :: s[i] != 0
  }

  /** The chain holds the name and its NUL. */
  predicate NameStored(d: Disk, ps: seq<nat>, text: seq<Byte>, nameSize: nat) {
    && NulFree(text) && nameSize == |text| + 1
    && |ps| == RunOf(|text|, RUN) + 1
    && |text| < Start(|ps|, RUN) && RunsOf(d, ps, |ps|)[..|text| + 1] == text + [0]
  }

  ghost predicate NameOk(d: Disk, t: Tree, e: nat) {
    && IsElle(d, e) && e in t.names && e in t.labels
    && Chain(d, t, t.names[e], d[e].elle.name, NameOf(e))
    && NameStored(d, t.names[e], t.labels[e], d[e].elle.nameSize)
  }

  ghost predicate ContentOk(d: Disk, t: Tree, e: nat) {
    && IsElle(d, e)
    && (d[e].elle.directory <==> e in t.kids)
    && (e in t.files <==> e !in t.kids)
    && (e in t.files ==> Chain(d, t, t.files[e], d[e].elle.content, ContentOf(e)))
    && (e in t.kids ==> Children(d, t, t.kids[e], d[e].elle.content, e))
  }

  ghost predicate EntryOk(d: Disk, t: Tree, e: nat) {
    InUse(t, e) && IsElle(d, e) && d[e].elle.position == e && NameOk(d, t, e) && ContentOk(d, t, e)
  }

  ghost predicate WellFormed(d: Disk, t: Tree) {
    && ROOT in t.kids && ROOT !in t.parents
    && t.labels.Keys == t.names.Keys == t.files.Keys + t.kids.Keys
    && (forall c | c in t.parents :: c in t.names)
    && forall e | e in t.names :: EntryOk(d, t, e)
  }

  /** A chain visits no voidite twice. */
  lemma {:induction false} ChainDistinct(d: Disk, t: Tree, ps: seq<nat>, head: nat, use: Use, i: nat, j: nat)
    requires Chain(d, t, ps, head, use) && i < j < |ps|
    ensures ps[i] != ps[j]
    decreases |ps| - j
  {
    assert Linked(d, t, ps, i, use) && Linked(d, t, ps, j, use);
    if j + 1 < |ps| {
      assert Linked(d, t, ps, j + 1, use) && Linked(d, t, ps, i + 1, use);
      ChainDistinct(d, t, ps, head, use, i + 1, j + 1);
    } else {
      assert Linked(d, t, ps, i + 1, use);
    }
  }

  // ----- frames: what an update elsewhere leaves alone -----

  /** t2 extends t: more voids may be taken and used, all entries stay. */
  ghost predicate Extends(t: Tree, t2: Tree) {
    && t.taken <= t2.taken
    && (forall p | p in t.uses :: p in t2.uses && t2.uses[p] == t.uses[p])
    && (forall e | e in t.names :: e in t2.names)
    && (forall e | e in t.parents :: e in t2.parents && t2.parents[e] == t.parents[e])
  }

  /** The voidites used for `use` are the same on both disks. */
  ghost predicate SameUse(d: Disk, d2: Disk, t: Tree, use: Use) {
    forall p | p in t.uses && t.uses[p] == use && IsIte(d, p) && InUse(t, p) :: p in d2 && d2[p] == d[p]
  }

  /** A chain holds the same bytes on both disks. */
  ghost predicate SameRuns(d: Disk, d2: Disk, ps: seq<nat>) {
    forall k: nat :: RunAt(d2, ps, k) == RunAt(d, ps, k)
  }

  lemma ChainFrame(d: Disk, d2: Disk, t: Tree, t2: Tree, ps: seq<nat>, head: nat, use: Use)
    requires Chain(d, t, ps, head, use) && Extends(t, t2) && SameUse(d, d2, t, use)
    ensures Chain(d2, t2, ps, head, use)
    ensures SameRuns(d, d2, ps)
  {
    forall i | 0 <= i < |ps|
      ensures Linked(d2, t2, ps, i, use) && ps[i] in d && d2[ps[i]] == d[ps[i]]
    {
      assert Linked(d, t, ps, i, use);
    }
    forall k: nat
      ensures RunAt(d2, ps, k) == RunAt(d, ps, k)
    {
      if k < |ps| {
        assert Linked(d, t, ps, k, use);
      }
    }
  }

  lemma RunsOfSame(d: Disk, d2: Disk, ps: seq<nat>, n: nat)
    requires SameRuns(d, d2, ps)
    ensures RunsOf(d2, ps, n) == RunsOf(d, ps, n)
  {
  }

  /** The name of an entry whose header and name chain stay. */
  lemma NameFrame(d: Disk, d2: Disk, t: Tree, t2: Tree, e: nat)
    requires NameOk(d, t, e) && Extends(t, t2) && SameUse(d, d2, t, NameOf(e))
    requires IsElle(d2, e) && d2[e].elle.name == d[e].elle.name && d2[e].elle.nameSize == d[e].elle.nameSize
    requires e in t2.names && t2.names[e] == t.names[e] && e in t2.labels && t2.labels[e] == t.labels[e]
    ensures NameOk(d2, t2, e)
  {
    ChainFrame(d, d2, t, t2, t.names[e], d[e].elle.name, NameOf(e));
    RunsOfSame(d, d2, t.names[e], |t.names[e]|);
  }

  /** Entries keep their place in a list while their links stay. */
  ghost predicate SameLinks(d: Disk, d2: Disk, t: Tree) {
    forall c | c in t.names && IsElle(d, c) :: IsElle(d2, c) && d2[c].elle.next == d[c].elle.next
  }

  lemma ChildrenFrame(d: Disk, d2: Disk, t: Tree, t2: Tree, ps: seq<nat>, head: nat, dir: nat)
    requires Children(d, t, ps, head, dir) && Extends(t, t2) && SameLinks(d, d2, t)
    ensures Children(d2, t2, ps, head, dir)
  {
    forall i | 0 <= i < |ps|
      ensures Listed(d2, t2, ps, i, dir)
    {
      assert Listed(d, t, ps, i, dir);
    }
  }

  /** The content of an entry whose header and content chain stay. */
  lemma ContentFrame(d: Disk, d2: Disk, t: Tree, t2: Tree, e: nat)
    requires ContentOk(d, t, e) && Extends(t, t2) && SameUse(d, d2, t, ContentOf(e)) && SameLinks(d, d2, t)
    requires IsElle(d2, e) && d2[e].elle.directory == d[e].elle.directory && d2[e].elle.content == d[e].elle.content
    requires e in t.files <==> e in t2.files
    requires e in t.kids <==> e in t2.kids
    requires e in t.files ==> t2.files[e] == t.files[e]
    requires e in t.kids ==> t2.kids[e] == t.kids[e]
    ensures ContentOk(d2, t2, e)
    ensures e in t.files ==> SameRuns(d, d2, t.files[e])
  {
    if e in t.files {
      ChainFrame(d, d2, t, t2, t.files[e], d[e].elle.content, ContentOf(e));
    } else {
      ChildrenFrame(d, d2, t, t2, t.kids[e], d[e].elle.content, e);
    }
  }

  // ----- the bytes of a name -----

  /** b with zeros behind it, n runs in all. */
  function Padded(b: seq<Byte>, n: nat): (r: seq<Byte>)
    requires |b| <= Start(n, RUN)
    ensures |r| == Start(n, RUN) && r[..|b|] == b
  {
    b + Zeros(Start(n, RUN) - |b|)
  }

  /** Run k of the padded bytes. */
  function Piece(b: seq<Byte>, n: nat, k: nat): RunBytes
    requires |b| <= Start(n, RUN) && k < n
  {
    StartMono(k, n, RUN);
    Padded(b, n)[Start(k, RUN)..Start(k, RUN) + RUN]
  }

  /** A chain whose voidites hold the pieces holds the padded bytes. */
  lemma {:induction false} PiecesAreRuns(d: Disk, ps: seq<nat>, b: seq<Byte>, n: nat, m: nat)
    requires |b| <= Start(n, RUN) && m <= n == |ps|
    requires forall k | 0 <= k < n :: RunAt(d, ps, k) == Piece(b, n, k)
    ensures Start(m, RUN) <= Start(n, RUN) && RunsOf(d, ps, m) == Padded(b, n)[..Start(m, RUN)]
    decreases m
  {
    hide RunAt, Padded;
    StartMono(m, n, RUN);
    if m > 0 {
      PiecesAreRuns(d, ps, b, n, m - 1);
      StartMono(m - 1, n, RUN);
      assert RunAt(d, ps, m - 1) == Piece(b, n, m - 1);
      TakeMore(Padded(b, n), Start(m - 1, RUN), RUN);
      assert RunsOf(d, ps, m) == RunsOf(d, ps, m - 1) + RunAt(d, ps, m - 1);
    }
  }

  lemma TakeMore(b: seq<Byte>, a: nat, n: nat)
    requires a + n <= |b|
    ensures b[..a + n] == b[..a] + b[a..a + n]
  {
  }
}
