/** The map of page flags and what it says about live blocks and single pages. */
module PageMap {
  import opened Options

  datatype Flag = Free | Occupied | Header | Reserved

  type Flags = seq<Flag>

  /** Live blocks: n data pages from page s on, then their header page. */
  type Blocks = map<nat, nat>

  predicate InBlock(s: nat, n: nat, p: nat) {
    s <= p <= s + n
  }

  predicate BlockOk(flags: Flags, s: nat, n: nat) {
    && 1 <= n && s + n < |flags| && flags[s + n] == Header
    && forall p: nat | s <= p < s + n :: flags[p] == Occupied
  }

  ghost predicate Owned(blocks: Blocks, singles: set<nat>, p: nat) {
    p in singles || exists s | s in blocks :: InBlock(s, blocks[s], p)
  }

  /** The used pages are the disjoint union of the live blocks and the single pages. */
  ghost predicate Accounted(flags: Flags, blocks: Blocks, singles: set<nat>) {
    && (forall s | s in blocks :: BlockOk(flags, s, blocks[s]))
    && (forall s, t | s in blocks && t in blocks && s < t :: s + blocks[s] < t)
    && (forall p | p in singles :: p < |flags| && flags[p] == Occupied)
    && (forall p, s | p in singles && s in blocks :: !InBlock(s, blocks[s], p))
    && (forall p: nat | p < |flags| && (flags[p] == Occupied || flags[p] == Header) :: Owned(blocks, singles, p))
  }

  // ----- runs of free pages -----

  predicate FreeRun(flags: Flags, i: nat, n: nat) {
    i + n <= |flags| && forall p: nat | i <= p < i + n :: flags[p] == Free
  }

  ghost predicate HasRoom(flags: Flags, n: nat) {
    exists w: nat :: FreeRun(flags, w, n)
  }

  predicate LowestRun(flags: Flags, i: nat, n: nat) {
    FreeRun(flags, i, n) && forall j: nat | j < i :: !FreeRun(flags, j, n)
  }

  /** What check_memory tests: it stops at the end of memory. */
  predicate FreeToEnd(flags: Flags, i: nat, n: nat) {
    forall p: nat | i <= p < i + n && p < |flags| :: flags[p] == Free
  }

  /** The first place that passes the test. */
  predicate FirstFit(flags: Flags, i: nat, n: nat) {
    FreeToEnd(flags, i, n) && forall j: nat | j < i :: !FreeToEnd(flags, j, n)
  }

  /** The place found has room for all n pages exactly if there is room anywhere, and it
      is then the lowest with room. */
  lemma FirstFitIff(flags: Flags, i: nat, n: nat)
    requires i < |flags| && FirstFit(flags, i, n)
    ensures FreeRun(flags, i, n) <==> HasRoom(flags, n)
    ensures FreeRun(flags, i, n) ==> LowestRun(flags, i, n)
  {
    hide FreeToEnd;
    forall w: nat | FreeRun(flags, w, n)
      ensures i <= w && FreeToEnd(flags, w, n)
    {
      RunPasses(flags, w, n);
    }
    FitsOrOverruns(flags, i, n);
  }

  lemma RunPasses(flags: Flags, w: nat, n: nat)
    requires FreeRun(flags, w, n)
    ensures FreeToEnd(flags, w, n)
  {
  }

  lemma FitsOrOverruns(flags: Flags, i: nat, n: nat)
    requires FreeToEnd(flags, i, n)
    ensures i + n <= |flags| <==> FreeRun(flags, i, n)
  {
  }

  /** With no room, the search still reports a place exactly if the last page is free:
      a run cut short by the end of memory. */
  lemma OverrunIff(flags: Flags, n: nat)
    requires 0 < |flags| && 0 < n && !HasRoom(flags, n)
    ensures (exists i: nat :: i < |flags| && FreeToEnd(flags, i, n)) <==> flags[|flags| - 1] == Free
  {
    var last := |flags| - 1;
    if flags[last] == Free {
      assert FreeToEnd(flags, last, n);
    }
    forall i: nat | i < |flags| && FreeToEnd(flags, i, n)
      ensures flags[last] == Free
    {
      FitsOrOverruns(flags, i, n);
      assert !FreeRun(flags, i, n);
    }
  }

  /** One free page at the end of memory, and two are wanted. */
  lemma OverrunHappens()
    ensures var flags := [Occupied, Free];
            !HasRoom(flags, 2) && FirstFit(flags, 1, 2)
  {
    var flags := [Occupied, Free];
    forall w: nat
      ensures !FreeRun(flags, w, 2)
    {
      assert flags[0] == Occupied;
    }
    assert !FreeToEnd(flags, 0, 2) by {
      assert flags[0] != Free;
    }
  }

  predicate LowestFree(flags: Flags, i: nat) {
    i < |flags| && flags[i] == Free && Free !in flags[..i]
  }

  // ----- what the operations do to the flags -----

  function Taken(flags: Flags, i: nat, n: nat): (r: Flags)
    requires i + n < |flags|
  {
    seq(|flags|, p requires 0 <= p < |flags| => if i <= p < i + n then Occupied else if p == i + n then Header else flags[p])
  }

  function Released(flags: Flags, i: nat, n: nat): (r: Flags)
    requires i + n < |flags|
  {
    seq(|flags|, p requires 0 <= p < |flags| => if i <= p <= i + n then Free else flags[p])
  }

  /** Freeing a block right after it was allocated restores the map. */
  lemma ReleaseUndoesTake(flags: Flags, i: nat, n: nat)
    requires FreeRun(flags, i, n + 1)
    ensures Released(Taken(flags, i, n), i, n) == flags
  {
  }

  lemma TakeKeeps(flags: Flags, blocks: Blocks, singles: set<nat>, i: nat, n: nat)
    requires Accounted(flags, blocks, singles) && 0 < n && FreeRun(flags, i, n + 1)
    ensures i !in blocks && Accounted(Taken(flags, i, n), blocks[i := n], singles)
  {
    hide Accounted, Owned;
    TakeDisjoint(flags, blocks, singles, i, n);
    TakeOwned(flags, blocks, singles, i, n);
    TakeAccounted(flags, blocks, singles, i, n);
  }

  /** A free run meets no live block. */
  lemma TakeDisjoint(flags: Flags, blocks: Blocks, singles: set<nat>, i: nat, n: nat)
    requires Accounted(flags, blocks, singles) && FreeRun(flags, i, n + 1)
    ensures forall s | s in blocks :: BlockOk(flags, s, blocks[s]) && (s + blocks[s] < i || i + n < s)
    ensures forall p | p in singles :: !InBlock(i, n, p)
    ensures i !in blocks
  {
    hide Owned;
    forall s | s in blocks
      ensures s + blocks[s] < i || i + n < s
    {
      BlockMissesRun(flags, s, blocks[s], i, n);
    }
  }

  lemma BlockMissesRun(flags: Flags, s: nat, m: nat, i: nat, n: nat)
    requires BlockOk(flags, s, m) && FreeRun(flags, i, n + 1)
    ensures s + m < i || i + n < s
  {
    assert flags[i] == Free && flags[s] == Occupied;
  }

  lemma TakeOwned(flags: Flags, blocks: Blocks, singles: set<nat>, i: nat, n: nat)
    requires Accounted(flags, blocks, singles) && i !in blocks && i + n < |flags|
    ensures forall p: nat | p < |flags| && (Taken(flags, i, n)[p] == Occupied || Taken(flags, i, n)[p] == Header) ::
              Owned(blocks[i := n], singles, p)
  {
    forall p: nat | p < |flags| && (Taken(flags, i, n)[p] == Occupied || Taken(flags, i, n)[p] == Header)
      ensures Owned(blocks[i := n], singles, p)
    {
      if InBlock(i, n, p) {
        assert i in blocks[i := n];
      } else {
        OwnedStill(blocks, singles, i, n, p);
      }
    }
  }

  lemma OwnedStill(blocks: Blocks, singles: set<nat>, i: nat, n: nat, p: nat)
    requires i !in blocks && Owned(blocks, singles, p)
    ensures Owned(blocks[i := n], singles, p)
  {
    if p !in singles {
      var s :| s in blocks && InBlock(s, blocks[s], p);
      assert blocks[i := n][s] == blocks[s];
    }
  }

  lemma TakeAccounted(flags: Flags, blocks: Blocks, singles: set<nat>, i: nat, n: nat)
    requires Accounted(flags, blocks, singles) && 0 < n && i + n < |flags| && i !in blocks
    requires forall s | s in blocks :: BlockOk(flags, s, blocks[s]) && (s + blocks[s] < i || i + n < s)
    requires forall p | p in singles :: !InBlock(i, n, p)
    requires forall p: nat | p < |flags| && (Taken(flags, i, n)[p] == Occupied || Taken(flags, i, n)[p] == Header) ::
               Owned(blocks[i := n], singles, p)
    ensures Accounted(Taken(flags, i, n), blocks[i := n], singles)
  {
    hide Owned;
    forall s | s in blocks
      ensures BlockOk(Taken(flags, i, n), s, blocks[s])
    {
    }
  }

  lemma ReleaseKeeps(flags: Flags, blocks: Blocks, singles: set<nat>, i: nat)
    requires Accounted(flags, blocks, singles) && i in blocks
    ensures BlockOk(flags, i, blocks[i])
    ensures Accounted(Released(flags, i, blocks[i]), blocks - {i}, singles)
  {
    hide Owned;
    var n := blocks[i];
    var after := Released(flags, i, n);
    forall s | s in blocks - {i}
      ensures BlockOk(after, s, blocks[s])
    {
      assert BlockOk(flags, s, blocks[s]);
      assert s < i ==> s + blocks[s] < i;
      assert i < s ==> i + n < s;
    }
    forall p: nat | p < |flags| && (after[p] == Occupied || after[p] == Header)
      ensures Owned(blocks - {i}, singles, p)
    {
      ReleaseOwned(blocks, singles, i, p);
    }
  }

  lemma ReleaseOwned(blocks: Blocks, singles: set<nat>, i: nat, p: nat)
    requires i in blocks && Owned(blocks, singles, p) && !InBlock(i, blocks[i], p)
    ensures Owned(blocks - {i}, singles, p)
  {
    if p !in singles {
      var s :| s in blocks && InBlock(s, blocks[s], p);
      assert s in blocks - {i} && (blocks - {i})[s] == blocks[s];
    }
  }

  lemma SingleKeeps(flags: Flags, blocks: Blocks, singles: set<nat>, p: nat)
    requires Accounted(flags, blocks, singles) && p < |flags| && flags[p] == Free
    ensures Accounted(flags[p := Occupied], blocks, singles + {p})
  {
    hide Owned;
    forall s | s in blocks
      ensures BlockOk(flags[p := Occupied], s, blocks[s]) && !InBlock(s, blocks[s], p)
    {
      assert BlockOk(flags, s, blocks[s]);
    }
    forall q: nat | q < |flags| && (flags[p := Occupied][q] == Occupied || flags[p := Occupied][q] == Header)
      ensures Owned(blocks, singles + {p}, q)
    {
      SingleOwned(blocks, singles, p, q);
    }
  }

  lemma SingleOwned(blocks: Blocks, singles: set<nat>, p: nat, q: nat)
    requires q == p || Owned(blocks, singles, q)
    ensures Owned(blocks, singles + {p}, q)
  {
  }

  lemma LiveBlock(flags: Flags, blocks: Blocks, singles: set<nat>, s: nat)
    requires Accounted(flags, blocks, singles) && s in blocks
    ensures BlockOk(flags, s, blocks[s])
  {
  }

  /** The first header page from page s on. */
  predicate FirstHeader(flags: Flags, s: nat, h: Option<nat>) {
    match h
    case Some(i) => s <= i < |flags| && flags[i] == Header && forall p: nat | s <= p < i :: flags[p] != Header
    case None => forall p: nat | s <= p < |flags| :: flags[p] != Header
  }

  /** From the start of a block, the first header is the block's own. */
  lemma OwnHeader(flags: Flags, s: nat, n: nat, h: Option<nat>)
    requires BlockOk(flags, s, n) && FirstHeader(flags, s, h)
    ensures h == Some(s + n)
  {
    assert flags[s + n] == Header;
  }
}
