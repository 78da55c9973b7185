/** The bytes between the recorded size of a file and a write behind it. */
module FatGap {
  import opened Bytes
  import opened Runs
  import opened Spans
  import opened FatChain
  import opened FatFile
  import opened FatDirectory
  import opened Fat32

  /** The bytes of a file from s up to off are zeros. */
  ghost predicate GapReadsZero(data: Data, ch: seq<nat>, cl: nat, s: nat, off: nat) {
    && Sized(data, cl) && InData(data, ch)
    && forall j | s <= j < off && j < Start(|ch|, cl) :: FileBytes(data, ch, cl)[j] == 0
  }

  /** Whatever the clusters of the file held, the bytes from its recorded size s up to the
      write read as zeros: this holds exactly if the write leaves no gap. */
  lemma GapReadsZeroIff(fat0: Fat, data0: Data, fat: Fat, data: Data, ch0: seq<nat>, app: seq<nat>, dir: seq<nat>,
                        cl: nat, off: nat, buf: seq<Byte>, entry: Slot, s: nat)
    requires Updates(fat0, data0, fat, data, ch0, app, dir, cl, off, buf, entry)
    requires forall c | c in dir :: c !in ch0 + app
    ensures (forall d0: Data, d: Data | Updates(fat0, d0, fat, d, ch0, app, dir, cl, off, buf, entry) ::
               GapReadsZero(d, ch0 + app, cl, s, off))
            <==> off <= s
  {
    hide Updates, GapReadsZero;
    if s < off {
      var d0, d := StaleByte(fat0, data0, fat, data, ch0, app, dir, cl, off, buf, entry, s);
    } else {
      forall d0: Data, d: Data | Updates(fat0, d0, fat, d, ch0, app, dir, cl, off, buf, entry)
        ensures GapReadsZero(d, ch0 + app, cl, s, off)
      {
        NoGap(fat0, d0, fat, d, ch0, app, dir, cl, off, buf, entry, s);
      }
    }
  }

  lemma NoGap(fat0: Fat, data0: Data, fat: Fat, data: Data, ch0: seq<nat>, app: seq<nat>, dir: seq<nat>,
              cl: nat, off: nat, buf: seq<Byte>, entry: Slot, s: nat)
    requires Updates(fat0, data0, fat, data, ch0, app, dir, cl, off, buf, entry) && off <= s
    ensures GapReadsZero(data, ch0 + app, cl, s, off)
  {
    hide FileBytes, Grown, IsChain;
  }

  /** With a gap, other old contents make its first byte read as 1. */
  lemma StaleByte(fat0: Fat, data0: Data, fat: Fat, data: Data, ch0: seq<nat>, app: seq<nat>, dir: seq<nat>,
                  cl: nat, off: nat, buf: seq<Byte>, entry: Slot, s: nat) returns (d0: Data, d: Data)
    requires Updates(fat0, data0, fat, data, ch0, app, dir, cl, off, buf, entry) && s < off
    requires forall c | c in dir :: c !in ch0 + app
    ensures Updates(fat0, d0, fat, d, ch0, app, dir, cl, off, buf, entry)
    ensures !GapReadsZero(d, ch0 + app, cl, s, off)
  {
    hide Updates, GapReadsZero, Grown;
    var ch := ch0 + app;
    UpdatesFacts(fat0, data0, fat, data, ch0, app, dir, cl, off, buf, entry);
    PlaceInChain(ch, cl, s);
    d0 := ByteSet(data0, ch, cl, s);
    d := ByteSet(data, ch, cl, s);
    ByteSetEffect(data0, ch, dir, cl, s);
    ByteSetEffect(data, ch, dir, cl, s);
    StillUpdates(fat0, data0, fat, data, ch0, app, dir, cl, off, buf, entry, s);
    GapShows(d, ch, cl, s, off);
  }

  lemma GapShows(d: Data, ch: seq<nat>, cl: nat, s: nat, off: nat)
    requires Sized(d, cl) && InData(d, ch) && s < off && s < Start(|ch|, cl) && FileBytes(d, ch, cl)[s] != 0
    ensures !GapReadsZero(d, ch, cl, s, off)
  {
    hide FileBytes;
  }

  lemma UpdatesFacts(fat0: Fat, data0: Data, fat: Fat, data: Data, ch0: seq<nat>, app: seq<nat>, dir: seq<nat>,
                     cl: nat, off: nat, buf: seq<Byte>, entry: Slot)
    requires Updates(fat0, data0, fat, data, ch0, app, dir, cl, off, buf, entry) && 0 < off
    ensures Sized(data0, cl) && Sized(data, cl) && |data0| == |data|
    ensures InData(data, ch0 + app) && InData(data0, ch0 + app) && InData(data, dir) && InData(data0, dir)
    ensures off + |buf| <= Start(|ch0 + app|, cl)
    ensures forall i, j | 0 <= i < j < |ch0 + app| :: (ch0 + app)[i] != (ch0 + app)[j]
  {
    hide FileBytes, Grown, IsChain, Updated, Splice;
    GrownIsChain(fat0, fat, ch0, app);
    ChainDistinctAll(fat, ch0 + app);
  }

  lemma PlaceInChain(ch: seq<nat>, cl: nat, s: nat)
    requires 0 < cl && s < Start(|ch|, cl)
    ensures RunOf(s, cl) < |ch| && Start(RunOf(s, cl), cl) <= s < Start(RunOf(s, cl), cl) + cl
  {
    RunIs(s, cl, RunOf(s, cl));
    if |ch| <= RunOf(s, cl) {
      StartMono(|ch|, RunOf(s, cl), cl);
    }
  }

  /** The content with byte s of a chain set to 1. */
  ghost function ByteSet(data: Data, ch: seq<nat>, cl: nat, s: nat): Data
    requires Sized(data, cl) && InData(data, ch) && s < Start(|ch|, cl)
  {
    PlaceInChain(ch, cl, s);
    var i := RunOf(s, cl);
    data[ch[i] := data[ch[i]][s - Start(i, cl) := 1]]
  }

  lemma ByteSetEffect(data: Data, ch: seq<nat>, dir: seq<nat>, cl: nat, s: nat)
    requires Sized(data, cl) && InData(data, ch) && InData(data, dir) && s < Start(|ch|, cl)
    requires forall i, j | 0 <= i < j < |ch| :: ch[i] != ch[j]
    requires forall c | c in dir :: c !in ch
    ensures var d := ByteSet(data, ch, cl, s);
            && |d| == |data| && Sized(d, cl) && InData(d, ch) && InData(d, dir)
            && FileBytes(d, ch, cl) == FileBytes(data, ch, cl)[s := 1]
            && FileBytes(d, dir, cl) == FileBytes(data, dir, cl)
            && forall c | 2 <= c < |data| && c !in ch :: d[c] == data[c]
  {
    hide FileBytes;
    PlaceInChain(ch, cl, s);
    var i := RunOf(s, cl);
    var v := data[ch[i]][s - Start(i, cl) := 1];
    FileBytesUpdate(data, ch, cl, i, v);
    FileBytesCluster(data, ch, cl, i);
    OneByte(FileBytes(data, ch, cl), Start(i, cl), data[ch[i]], s - Start(i, cl));
    assert ch[i] in ch;
    FileBytesOther(data, dir, cl, ch[i], v);
  }

  lemma OneByte(b: seq<Byte>, a: nat, part: seq<Byte>, q: nat)
    requires a + |part| <= |b| && b[a..a + |part|] == part && q < |part|
    ensures Splice(b, a, part[q := 1]) == b[a + q := 1]
  {
    var l, r := Splice(b, a, part[q := 1]), b[a + q := 1];
    forall k | 0 <= k < |b|
      ensures l[k] == r[k]
    {
      assert a <= k < a + |part| ==> b[k] == b[a..a + |part|][k - a];
    }
  }

  lemma StillUpdates(fat0: Fat, data0: Data, fat: Fat, data: Data, ch0: seq<nat>, app: seq<nat>, dir: seq<nat>,
                     cl: nat, off: nat, buf: seq<Byte>, entry: Slot, s: nat)
    requires Updates(fat0, data0, fat, data, ch0, app, dir, cl, off, buf, entry) && s < off
    requires forall c | c in dir :: c !in ch0 + app
    requires Sized(data0, cl) && InData(data0, ch0 + app) && s < Start(|ch0 + app|, cl)
    ensures var ch := ch0 + app;
            Updates(fat0, ByteSet(data0, ch, cl, s), fat, ByteSet(data, ch, cl, s), ch0, app, dir, cl, off, buf, entry)
  {
    hide FileBytes, Grown, IsChain, Updated, ByteSet;
    var ch := ch0 + app;
    UpdatesFacts(fat0, data0, fat, data, ch0, app, dir, cl, off, buf, entry);
    ByteSetEffect(data0, ch, dir, cl, s);
    ByteSetEffect(data, ch, dir, cl, s);
    assert Splice(FileBytes(data0, ch, cl), off, buf)[s := 1] == Splice(FileBytes(data0, ch, cl)[s := 1], off, buf);
  }
}
