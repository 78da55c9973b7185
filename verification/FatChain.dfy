/** The file allocation table seen as a table of 28-bit entries, and the cluster
    chains threaded through it.  Entry 0 means free, an entry of END or above
    ends a chain, any other entry is the number of the next cluster. */
module FatChain {

  /** Entries from here on end a chain (NextCluster). */
  const END: nat := 0x0FFF_FFF8

  /** What WriteClusterLink stores in the last cluster of a chain. */
  const LAST: nat := 0x0FFF_FFFF

  type Fat = seq<nat>

  /** The 28 bits of a word that make an entry. */
  function Low28(v: nat): nat {
    v % 0x1000_0000
  }

  lemma Low28Same(v: nat)
    requires v < 0x1000_0000
    ensures Low28(v) == v
  {
  }

  predicate IsCluster(fat: Fat, n: nat) {
    2 <= n < |fat|
  }

  predicate Allocated(fat: Fat, n: nat) {
    IsCluster(fat, n) && fat[n] != 0
  }

  predicate Free(fat: Fat, n: nat) {
    IsCluster(fat, n) && fat[n] == 0
  }

  /** The successor of cluster n, or 0 where its chain ends. */
  function Next(fat: Fat, n: nat): nat
    requires n < |fat|
  {
    if fat[n] >= END then 0 else fat[n]
  }

  /** The first entry that ends a chain, and the last that is a link. */
  lemma EndMarks()
    ensures Next([0, 0, 0x0FFF_FFF8], 2) == 0 && Next([0, 0, 0x0FFF_FFF7], 2) == 0x0FFF_FFF7 && LAST == 0x0FFF_FFFF
  {
  }

  predicate IsLink(fat: Fat, n: nat) {
    IsCluster(fat, n) && Next(fat, n) != 0
  }

  ghost predicate IsChain(fat: Fat, ch: seq<nat>) {
    && ch != []
    && (forall i | 0 <= i < |ch| :: IsCluster(fat, ch[i]))
    && (forall i | 0 <= i < |ch| - 1 :: fat[ch[i]] == ch[i + 1])
    && fat[ch[|ch| - 1]] >= END
  }

  ghost predicate HasChain(fat: Fat, n: nat) {
    exists ch :: IsChain(fat, ch) && ch[0] == n
  }

  /** The table is a forest of disjoint, finite chains: links lead to allocated
      clusters, no two clusters share a successor, and every walk ends. */
  ghost predicate WellFormed(fat: Fat) {
    && 2 <= |fat| <= END
    && (forall n: nat {:trigger IsLink(fat, n)} | IsLink(fat, n) :: Allocated(fat, fat[n]))
    && (forall m: nat, n: nat {:trigger IsLink(fat, m), IsLink(fat, n)} |
          IsLink(fat, m) && IsLink(fat, n) && fat[m] == fat[n] :: m == n)
    && (forall n: nat {:trigger HasChain(fat, n)} | Allocated(fat, n) :: HasChain(fat, n))
  }

  /** The chain that starts at cluster n. */
  ghost function ChainOf(fat: Fat, n: nat): (ch: seq<nat>)
    requires HasChain(fat, n)
    ensures IsChain(fat, ch) && ch[0] == n
  {
    var ch :| IsChain(fat, ch) && ch[0] == n;
    ch
  }

  function LastOf(ch: seq<nat>): nat
    requires ch != []
  {
    ch[|ch| - 1]
  }

  /** A chain is determined by its first cluster. */
  lemma {:induction false} ChainUnique(fat: Fat, a: seq<nat>, b: seq<nat>)
    requires |fat| <= END
    requires IsChain(fat, a) && IsChain(fat, b) && a[0] == b[0]
    ensures a == b
    decreases |a|
  {
    if |a| == 1 {
      assert fat[b[0]] >= END;
      assert |b| > 1 ==> fat[b[0]] == b[1] && IsCluster(fat, b[1]);
    } else {
      assert fat[a[0]] == a[1] && IsCluster(fat, a[1]);
      assert |b| > 1;
      assert fat[b[0]] == b[1];
      ChainSuffix(fat, a, 1);
      ChainSuffix(fat, b, 1);
      ChainUnique(fat, a[1..], b[1..]);
      assert a == [a[0]] + a[1..] && b == [b[0]] + b[1..];
    }
  }

  lemma ChainSuffix(fat: Fat, ch: seq<nat>, i: nat)
    requires IsChain(fat, ch) && i < |ch|
    ensures IsChain(fat, ch[i..])
  {
  }

  /** A chain visits no cluster twice. */
  lemma ChainDistinct(fat: Fat, ch: seq<nat>, i: nat, j: nat)
    requires |fat| <= END
    requires IsChain(fat, ch) && i < j < |ch|
    ensures ch[i] != ch[j]
  {
    if ch[i] == ch[j] {
      ChainSuffix(fat, ch, i);
      ChainSuffix(fat, ch, j);
      ChainUnique(fat, ch[i..], ch[j..]);
    }
  }

  /** Every cluster of a chain is allocated. */
  lemma ChainAllocated(fat: Fat, ch: seq<nat>, i: nat)
    requires |fat| <= END
    requires IsChain(fat, ch) && i < |ch|
    ensures Allocated(fat, ch[i])
    ensures i < |ch| - 1 <==> IsLink(fat, ch[i])
  {
    if i < |ch| - 1 {
      assert fat[ch[i]] == ch[i + 1] && IsCluster(fat, ch[i + 1]);
    }
  }

  lemma ChainNext(fat: Fat, ch: seq<nat>, i: nat)
    requires |fat| <= END
    requires IsChain(fat, ch) && i < |ch|
    ensures IsCluster(fat, ch[i]) && Next(fat, ch[i]) == if i + 1 < |ch| then ch[i + 1] else 0
    ensures i + 1 < |ch| <==> Next(fat, ch[i]) != 0
  {
    if i + 1 < |ch| {
      assert fat[ch[i]] == ch[i + 1] && IsCluster(fat, ch[i + 1]);
    }
  }

  /** Two chains meet exactly when they end in the same cluster, and then one is
      a suffix of the other. */
  lemma {:induction false} ChainsMeet(fat: Fat, a: seq<nat>, b: seq<nat>)
    requires WellFormed(fat)
    requires IsChain(fat, a) && IsChain(fat, b)
    ensures (exists x :: x in a && x in b) <==> LastOf(a) == LastOf(b)
    ensures LastOf(a) == LastOf(b) && |a| <= |b| ==> a == b[|b| - |a|..]
  {
    assert LastOf(a) in a && LastOf(b) in b;
    if x :| x in a && x in b {
      var i :| 0 <= i < |a| && a[i] == x;
      var j :| 0 <= j < |b| && b[j] == x;
      ChainSuffix(fat, a, i);
      ChainSuffix(fat, b, j);
      ChainUnique(fat, a[i..], b[j..]);
      assert LastOf(a) == LastOf(a[i..]) && LastOf(b) == LastOf(b[j..]);
    }
    if LastOf(a) == LastOf(b) && |a| <= |b| {
      SameTail(fat, a, b, 1);
    }
  }

  /** Walking back from a shared last cluster, the chains agree. */
  lemma {:induction false} SameTail(fat: Fat, a: seq<nat>, b: seq<nat>, k: nat)
    requires WellFormed(fat)
    requires IsChain(fat, a) && IsChain(fat, b) && 1 <= k <= |a| <= |b|
    requires a[|a| - k..] == b[|b| - k..]
    ensures a == b[|b| - |a|..]
    decreases |a| - k
  {
    if k < |a| {
      var i, j := |a| - k, |b| - k;
      assert a[i] == a[i..][0] && b[j] == b[j..][0];
      assert fat[a[i - 1]] == a[i] && fat[b[j - 1]] == b[j];
      ChainAllocated(fat, a, i - 1);
      ChainAllocated(fat, b, j - 1);
      assert a[i - 1..] == [a[i - 1]] + a[i..];
      assert b[j - 1..] == [b[j - 1]] + b[j..];
      SameTail(fat, a, b, k + 1);
    }
  }

  // ----- the free clusters -----

  ghost function FreeSet(fat: Fat): (s: set<nat>) {
    set n | 2 <= n < |fat| && fat[n] == 0
  }

  /** The lowest free cluster numbered from n on, or 0 if there is none. */
  function FirstFree(fat: Fat, n: nat := 2): (f: nat)
    requires 2 <= n <= |fat|
    ensures f != 0 ==> n <= f && Free(fat, f) && forall m | n <= m < f :: fat[m] != 0
    ensures f == 0 <==> forall m | n <= m < |fat| :: fat[m] != 0
    decreases |fat| - n
  {
    if n == |fat| then 0 else if fat[n] == 0 then n else FirstFree(fat, n + 1)
  }

  lemma FreeExists(fat: Fat)
    requires 2 <= |fat| && FreeSet(fat) != {}
    ensures FirstFree(fat) != 0
  {
    var f :| f in FreeSet(fat);
  }

  /** What LinkFreeCluster makes of the table: the last cluster of c's chain is
      linked to the lowest free one, which then ends the chain.  When no cluster
      is free, FirstFree is 0 and both writes still happen. */
  ghost function Link(fat: Fat, c: nat): Fat
    requires WellFormed(fat) && Allocated(fat, c)
  {
    var f := FirstFree(fat);
    fat[LastOf(ChainOf(fat, c)) := f][f := LAST]
  }

  /** What linking the free cluster f behind the end cluster last does to one chain. */
  lemma LinkedChain(fat: Fat, last: nat, f: nat, ch: seq<nat>)
    requires |fat| <= END
    requires IsCluster(fat, last) && fat[last] >= END && Free(fat, f)
    requires IsChain(fat, ch)
    ensures IsChain(fat[last := f][f := LAST], if LastOf(ch) == last then ch + [f] else ch)
  {
    var fat' := fat[last := f][f := LAST];
    forall i | 0 <= i < |ch|
      ensures ch[i] != f
      ensures ch[i] == last ==> i == |ch| - 1
    {
      ChainAllocated(fat, ch, i);
    }
    var ch' := if LastOf(ch) == last then ch + [f] else ch;
    forall i | 0 <= i < |ch'| - 1
      ensures fat'[ch'[i]] == ch'[i + 1]
    {
      if i < |ch| - 1 {
        assert fat[ch[i]] == ch[i + 1];
        assert ch[i] != last && ch[i] != f;
      }
    }
  }

  /** What happens to the chain of d when c's chain is extended. */
  lemma LinkChain(fat: Fat, c: nat, d: nat)
    requires WellFormed(fat) && Allocated(fat, c) && Allocated(fat, d)
    requires FirstFree(fat) != 0
    ensures Allocated(Link(fat, c), d) && HasChain(Link(fat, c), d)
    ensures ChainOf(Link(fat, c), d) ==
            ChainOf(fat, d) + if LastOf(ChainOf(fat, d)) == LastOf(ChainOf(fat, c)) then [FirstFree(fat)] else []
  {
    var ch, last, f := ChainOf(fat, d), LastOf(ChainOf(fat, c)), FirstFree(fat);
    var ch' := if LastOf(ch) == last then ch + [f] else ch;
    LinkedChain(fat, last, f, ch);
    assert ch'[0] == d;
    ChainUnique(Link(fat, c), ch', ChainOf(Link(fat, c), d));
    assert ch + [] == ch;
  }

  /** The links after LinkFreeCluster: the old ones and the one from last to f. */
  lemma LinkLinks(fat: Fat, c: nat, n: nat)
    requires WellFormed(fat) && Allocated(fat, c)
    requires FirstFree(fat) != 0
    ensures IsLink(Link(fat, c), n) <==> n == LastOf(ChainOf(fat, c)) || IsLink(fat, n)
    ensures IsLink(fat, n) ==> Link(fat, c)[n] == fat[n] && Allocated(fat, fat[n]) && Allocated(Link(fat, c), fat[n])
    ensures Link(fat, c)[LastOf(ChainOf(fat, c))] == FirstFree(fat)
  {
    ChainAllocated(fat, ChainOf(fat, c), |ChainOf(fat, c)| - 1);
  }

  lemma LinkWellFormed(fat: Fat, c: nat)
    requires WellFormed(fat) && Allocated(fat, c)
    requires FirstFree(fat) != 0
    ensures WellFormed(Link(fat, c))
  {
    var f, fat' := FirstFree(fat), Link(fat, c);
    forall n: nat | IsLink(fat', n)
      ensures Allocated(fat', fat'[n])
    {
      LinkLinks(fat, c, n);
    }
    forall m: nat, n: nat | IsLink(fat', m) && IsLink(fat', n) && fat'[m] == fat'[n]
      ensures m == n
    {
      LinkLinks(fat, c, m);
      LinkLinks(fat, c, n);
    }
    forall n: nat | Allocated(fat', n)
      ensures HasChain(fat', n)
    {
      if n == f {
        assert IsChain(fat', [f]) && [f][0] == f;
      } else {
        LinkChain(fat, c, n);
      }
    }
  }

  /** Linking a free cluster keeps the forest: c's chain gains the cluster at its
      end, every other chain stays as it was, and one free cluster is used up. */
  lemma LinkKeepsForest(fat: Fat, c: nat)
    requires WellFormed(fat) && Allocated(fat, c)
    requires FirstFree(fat) != 0
    ensures WellFormed(Link(fat, c))
    ensures forall d: nat | Allocated(fat, d) ::
              && Allocated(Link(fat, c), d)
              && ChainOf(Link(fat, c), d) ==
                 ChainOf(fat, d) + if LastOf(ChainOf(fat, d)) == LastOf(ChainOf(fat, c)) then [FirstFree(fat)] else []
    ensures Allocated(Link(fat, c), FirstFree(fat)) && ChainOf(Link(fat, c), FirstFree(fat)) == [FirstFree(fat)]
    ensures FreeSet(Link(fat, c)) == FreeSet(fat) - {FirstFree(fat)}
    ensures |FreeSet(Link(fat, c))| == |FreeSet(fat)| - 1
  {
    var f, fat' := FirstFree(fat), Link(fat, c);
    LinkWellFormed(fat, c);
    forall d: nat | Allocated(fat, d)
      ensures Allocated(fat', d)
      ensures ChainOf(fat', d) ==
              ChainOf(fat, d) + if LastOf(ChainOf(fat, d)) == LastOf(ChainOf(fat, c)) then [f] else []
    {
      LinkChain(fat, c, d);
    }
    assert IsChain(fat', [f]);
    ChainUnique(fat', [f], ChainOf(fat', f));
    LinkFreeSet(fat, c);
  }

  lemma LinkFreeSet(fat: Fat, c: nat)
    requires WellFormed(fat) && Allocated(fat, c)
    requires FirstFree(fat) != 0
    ensures FreeSet(Link(fat, c)) == FreeSet(fat) - {FirstFree(fat)}
    ensures |FreeSet(Link(fat, c))| == |FreeSet(fat)| - 1
  {
    ChainAllocated(fat, ChainOf(fat, c), |ChainOf(fat, c)| - 1);
    assert FirstFree(fat) in FreeSet(fat);
    assert FreeSet(Link(fat, c)) == FreeSet(fat) - {FirstFree(fat)};
  }

  /** The clusters a file already has survive the link exactly when a free
      cluster existed; on a full volume the last cluster of c's chain is lost. */
  lemma LinkKeepsFilesIffFree(fat: Fat, c: nat)
    requires WellFormed(fat) && Allocated(fat, c)
    ensures (forall d: nat | Allocated(fat, d) ::
               HasChain(Link(fat, c), d) && ChainOf(fat, d) <= ChainOf(Link(fat, c), d))
            <==> exists n :: Free(fat, n)
  {
    var fat', ch := Link(fat, c), ChainOf(fat, c);
    var last := LastOf(ch);
    if FirstFree(fat) != 0 {
      assert Free(fat, FirstFree(fat));
      LinkKeepsForest(fat, c);
    } else {
      ChainAllocated(fat, ch, |ch| - 1);
      assert fat'[last] == 0;
      assert Allocated(fat, last);
      if HasChain(fat', last) {
        ChainAllocated(fat', ChainOf(fat', last), 0);
        assert false;
      }
    }
  }

  /** A full volume on which the link frees a cluster still in use. */
  lemma LinkOnFullVolume()
    ensures var fat := [LAST, LAST, 3, LAST];
            WellFormed(fat) && Allocated(fat, 2) && Link(fat, 2) == [LAST, LAST, 3, 0]
  {
    var fat := [LAST, LAST, 3, LAST];
    assert IsChain(fat, [2, 3]) && IsChain(fat, [3]);
    assert [2, 3][0] == 2 && [3][0] == 3;
    forall n: nat | Allocated(fat, n)
      ensures HasChain(fat, n)
    {
      assert n == 2 || n == 3;
    }
    ChainUnique(fat, [2, 3], ChainOf(fat, 2));
    assert FirstFree(fat) == 0;
  }

  // ----- growth of one chain over a whole operation -----

  ghost function Elements(s: seq<nat>): set<nat> {
    set x | x in s
  }

  /** fat grew from fat0: the clusters of app, all free before, were appended to
      the chain ch0 (a new chain when ch0 is empty), and every other chain and
      free cluster is as it was. */
  ghost predicate Grown(fat0: Fat, fat: Fat, ch0: seq<nat>, app: seq<nat>) {
    && WellFormed(fat0) && WellFormed(fat)
    && |fat| == |fat0|
    && (ch0 != [] ==> IsChain(fat0, ch0))
    && (ch0 + app != [] ==> IsChain(fat, ch0 + app))
    && (forall i | 0 <= i < |app| :: Free(fat0, app[i]))
    && FreeSet(fat) == FreeSet(fat0) - Elements(app)
    && |FreeSet(fat)| == |FreeSet(fat0)| - |app|
    && (forall d: nat | Allocated(fat0, d) :: Allocated(fat, d) && ChainOf(fat, d) == GrownChain(fat0, ch0, app, d))
  }

  /** The chain that starts at d after app was appended to ch0. */
  ghost function GrownChain(fat0: Fat, ch0: seq<nat>, app: seq<nat>, d: nat): seq<nat>
    requires HasChain(fat0, d)
  {
    ChainOf(fat0, d) + if ch0 != [] && LastOf(ChainOf(fat0, d)) == LastOf(ch0) then app else []
  }

  lemma GrownStart(fat: Fat, ch: seq<nat>)
    requires WellFormed(fat) && (ch != [] ==> IsChain(fat, ch))
    ensures Grown(fat, fat, ch, [])
  {
    assert ch + [] == ch;
    forall d: nat | Allocated(fat, d)
      ensures ChainOf(fat, d) == GrownChain(fat, ch, [], d)
    {
      assert ChainOf(fat, d) + [] == ChainOf(fat, d);
    }
    assert Elements([]) == {};
  }

  /** A chain that shares no cluster with the grown one is as it was, and does not
      meet the appended clusters. */
  lemma OtherChainKept(fat0: Fat, fat: Fat, ch0: seq<nat>, app: seq<nat>, d: nat)
    requires Grown(fat0, fat, ch0, app) && Allocated(fat0, d)
    requires forall x | x in ChainOf(fat0, d) :: x !in ch0
    ensures Allocated(fat, d) && ChainOf(fat, d) == ChainOf(fat0, d)
    ensures forall x | x in ChainOf(fat0, d) :: x !in ch0 + app
  {
    var cd := ChainOf(fat0, d);
    assert LastOf(cd) in cd && (ch0 != [] ==> LastOf(ch0) in ch0);
    assert cd + [] == cd;
    assert ChainOf(fat, d) == GrownChain(fat0, ch0, app, d);
    forall x | x in cd
      ensures x !in app
    {
      ChainMember(fat0, cd, x);
    }
  }

  lemma GrownIsChain(fat0: Fat, fat: Fat, ch0: seq<nat>, app: seq<nat>)
    requires Grown(fat0, fat, ch0, app) && ch0 + app != []
    ensures WellFormed(fat) && |fat| <= END && IsChain(fat, ch0 + app)
  {
  }

  /** One more link, taken from any cluster of the grown chain. */
  lemma GrownLink(fat0: Fat, fat: Fat, ch0: seq<nat>, app: seq<nat>, c: nat)
    requires Grown(fat0, fat, ch0, app)
    requires c in ch0 + app
    requires FirstFree(fat) != 0
    ensures Allocated(fat, c)
    ensures Grown(fat0, Link(fat, c), ch0, app + [FirstFree(fat)])
  {
    var f := FirstFree(fat);
    var ch := ch0 + app;
    ChainMember(fat, ch, c);
    var fat' := Link(fat, c);
    LinkWellFormed(fat, c);
    LinkFreeSet(fat, c);
    ChainAllocated(fat, ChainOf(fat, c), |ChainOf(fat, c)| - 1);
    LinkedChain(fat, LastOf(ch), f, ch);
    assert ch0 + (app + [f]) == ch + [f];
    assert f in FreeSet(fat);
    assert Elements(app + [f]) == Elements(app) + {f};
    forall d: nat | Allocated(fat0, d)
      ensures Allocated(fat', d) && ChainOf(fat', d) == GrownChain(fat0, ch0, app + [f], d)
    {
      GrownLinkChain(fat0, fat, ch0, app, c, d);
    }
  }

  /** Any member of a chain leads to the chain's end. */
  lemma ChainMember(fat: Fat, ch: seq<nat>, c: nat)
    requires WellFormed(fat) && IsChain(fat, ch) && c in ch
    ensures Allocated(fat, c) && LastOf(ChainOf(fat, c)) == LastOf(ch)
  {
    var i :| 0 <= i < |ch| && ch[i] == c;
    ChainAllocated(fat, ch, i);
    ChainSuffix(fat, ch, i);
    ChainUnique(fat, ch[i..], ChainOf(fat, c));
    assert LastOf(ch[i..]) == LastOf(ch);
  }

  /** One more link, seen from the old chain that starts at d. */
  lemma GrownLinkChain(fat0: Fat, fat: Fat, ch0: seq<nat>, app: seq<nat>, c: nat, d: nat)
    requires Grown(fat0, fat, ch0, app) && c in ch0 + app
    requires Allocated(fat, c) && Allocated(fat0, d) && FirstFree(fat) != 0
    ensures Allocated(Link(fat, c), d) && HasChain(Link(fat, c), d)
    ensures ChainOf(Link(fat, c), d) == GrownChain(fat0, ch0, app + [FirstFree(fat)], d)
  {
    var f, cd := FirstFree(fat), ChainOf(fat0, d);
    ChainMember(fat, ch0 + app, c);
    LinkChain(fat, c, d);
    ChainAllocated(fat0, cd, |cd| - 1);
    if app != [] {
      assert LastOf(ch0 + app) == LastOf(app);
      assert Free(fat0, app[|app| - 1]);
    } else {
      assert cd + [] == cd && ch0 + app == ch0;
    }
    assert cd + (app + [f]) == (cd + app) + [f] && (cd + []) + [] == cd + [];
  }

  /** Making the free cluster f a chain of its own leaves the chain of d alone. */
  lemma NewChain(fat: Fat, f: nat, d: nat)
    requires WellFormed(fat) && Free(fat, f) && Allocated(fat, d)
    ensures HasChain(fat[f := LAST], d) && ChainOf(fat[f := LAST], d) == ChainOf(fat, d)
  {
    var fat', ch := fat[f := LAST], ChainOf(fat, d);
    forall i | 0 <= i < |ch|
      ensures ch[i] != f
    {
      ChainAllocated(fat, ch, i);
    }
    assert IsChain(fat', ch);
    ChainUnique(fat', ch, ChainOf(fat', d));
  }

  lemma NewWellFormed(fat: Fat, f: nat)
    requires WellFormed(fat) && Free(fat, f)
    ensures WellFormed(fat[f := LAST])
  {
    var fat' := fat[f := LAST];
    assert IsChain(fat', [f]) && [f][0] == f;
    forall n: nat | IsLink(fat', n)
      ensures IsLink(fat, n) && Allocated(fat', fat'[n])
    {
      assert IsLink(fat, n);
    }
    forall n: nat | Allocated(fat', n)
      ensures HasChain(fat', n)
    {
      if n != f {
        NewChain(fat, f, n);
      }
    }
  }

  lemma NewFreeSet(fat: Fat, f: nat)
    requires Free(fat, f)
    ensures FreeSet(fat[f := LAST]) == FreeSet(fat) - {f}
    ensures |FreeSet(fat[f := LAST])| == |FreeSet(fat)| - 1
  {
    assert f in FreeSet(fat);
    assert FreeSet(fat[f := LAST]) == FreeSet(fat) - {f};
  }

  /** A fresh one-cluster chain, as made for a file without content. */
  lemma GrownNew(fat: Fat)
    requires WellFormed(fat) && FirstFree(fat) != 0
    ensures Grown(fat, fat[FirstFree(fat) := LAST], [], [FirstFree(fat)])
  {
    var f := FirstFree(fat);
    var fat' := fat[f := LAST];
    NewWellFormed(fat, f);
    NewFreeSet(fat, f);
    forall d: nat | Allocated(fat, d)
      ensures HasChain(fat', d) && ChainOf(fat', d) == GrownChain(fat, [], [f], d)
    {
      NewChain(fat, f, d);
      assert ChainOf(fat, d) + [] == ChainOf(fat, d);
    }
    assert [] + [f] == [f];
    assert IsChain(fat', [f]);
    assert Elements([f]) == {f};
  }
}
