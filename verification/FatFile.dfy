/** A file as the bytes of its cluster chain, and what reads and writes mean on it. */
module FatFile {
  import opened Bytes
  import opened Runs
  import opened Spans
  import opened FatChain

  type Data = seq<seq<Byte>>

  /** Every data cluster holds cl bytes. */
  ghost predicate Sized(data: Data, cl: nat) {
    0 < cl && forall c | 2 <= c < |data| :: |data[c]| == cl
  }

  ghost predicate InData(data: Data, ch: seq<nat>) {
    forall i | 0 <= i < |ch| :: 2 <= ch[i] < |data|
  }

  /** The bytes stored along a chain. */
  ghost function FileBytes(data: Data, ch: seq<nat>, cl: nat): (b: seq<Byte>)
    requires Sized(data, cl) && InData(data, ch)
    ensures |b| == Start(|ch|, cl)
  {
    if ch == [] then [] else
      assert InData(data, ch[..|ch| - 1]);
      var n := |ch| - 1;
      FileBytes(data, ch[..n], cl) + data[ch[n]]
  }

  /** Cluster i of a chain holds run i of the file's bytes. */
  lemma {:induction false} FileBytesCluster(data: Data, ch: seq<nat>, cl: nat, i: nat)
    requires Sized(data, cl) && InData(data, ch) && i < |ch|
    ensures Start(i, cl) + cl <= Start(|ch|, cl)
    ensures FileBytes(data, ch, cl)[Start(i, cl)..Start(i, cl) + cl] == data[ch[i]]
    decreases |ch|
  {
    StartMono(i, |ch|, cl);
    var n := |ch| - 1;
    var front := ch[..n];
    assert InData(data, front);
    if i < n {
      StartMono(i, n, cl);
      FileBytesCluster(data, front, cl, i);
      assert FileBytes(data, ch, cl)[..Start(n, cl)] == FileBytes(data, front, cl);
      assert FileBytes(data, ch, cl)[Start(i, cl)..Start(i, cl) + cl] == FileBytes(data, front, cl)[Start(i, cl)..Start(i, cl) + cl];
    }
  }

  /** Overwriting a cluster outside the chain does not show in the file. */
  lemma {:induction false} FileBytesOther(data: Data, ch: seq<nat>, cl: nat, c: nat, v: seq<Byte>)
    requires Sized(data, cl) && InData(data, ch) && 2 <= c < |data| && |v| == cl
    requires c !in ch
    ensures FileBytes(data[c := v], ch, cl) == FileBytes(data, ch, cl)
    decreases |ch|
  {
    if ch != [] {
      var n := |ch| - 1;
      assert InData(data, ch[..n]);
      FileBytesOther(data, ch[..n], cl, c, v);
      assert ch[n] in ch;
    }
  }

  /** Overwriting cluster i of a chain overwrites run i of the file's bytes. */
  lemma {:induction false} FileBytesUpdate(data: Data, ch: seq<nat>, cl: nat, i: nat, v: seq<Byte>)
    requires Sized(data, cl) && InData(data, ch) && i < |ch| && |v| == cl
    requires forall j, k | 0 <= j < k < |ch| :: ch[j] != ch[k]
    ensures Start(i, cl) + cl <= Start(|ch|, cl)
    ensures FileBytes(data[ch[i] := v], ch, cl) == Splice(FileBytes(data, ch, cl), Start(i, cl), v)
    decreases |ch|
  {
    StartMono(i, |ch|, cl);
    var n := |ch| - 1;
    var front, data' := ch[..n], data[ch[i] := v];
    assert InData(data, front);
    if i < n {
      StartMono(i, n, cl);
      FileBytesUpdate(data, front, cl, i, v);
      assert data'[ch[n]] == data[ch[n]];
    } else {
      FileBytesOther(data, front, cl, ch[n], v);
      assert FileBytes(data', ch, cl) == FileBytes(data, front, cl) + v;
    }
  }

  /** Two contents that agree on the chain make the same file. */
  lemma {:induction false} FileBytesAgree(data: Data, data': Data, ch: seq<nat>, cl: nat)
    requires Sized(data, cl) && Sized(data', cl) && |data| == |data'| && InData(data, ch)
    requires forall i | 0 <= i < |ch| :: data'[ch[i]] == data[ch[i]]
    ensures FileBytes(data', ch, cl) == FileBytes(data, ch, cl)
    decreases |ch|
  {
    if ch != [] {
      var front := ch[..|ch| - 1];
      assert InData(data, front);
      forall i | 0 <= i < |front|
        ensures data'[front[i]] == data[front[i]]
      {
        assert front[i] == ch[i];
      }
      FileBytesAgree(data, data', front, cl);
    }
  }

  lemma {:induction false} FileBytesConcat(data: Data, a: seq<nat>, b: seq<nat>, cl: nat)
    requires Sized(data, cl) && InData(data, a) && InData(data, b)
    ensures InData(data, a + b)
    ensures FileBytes(data, a + b, cl) == FileBytes(data, a, cl) + FileBytes(data, b, cl)
    decreases |b|
  {
    hide FileBytes, Sized, InData;
    InDataConcat(data, a, b);
    if b == [] {
      assert a + b == a;
      FileBytesNone(data, cl);
    } else {
      var n := |b| - 1;
      assert (a + b)[..|a| + n] == a + b[..n] && (a + b)[|a| + n] == b[n];
      assert b[..n] + b[n..] == b;
      InDataParts(data, b[..n], b[n..]);
      FileBytesConcat(data, a, b[..n], cl);
      FileBytesSnoc(data, b, cl);
      FileBytesSnoc(data, a + b, cl);
      ConcatAssoc(FileBytes(data, a, cl), FileBytes(data, b[..n], cl), data[b[n]]);
    }
  }

  lemma InDataConcat(data: Data, a: seq<nat>, b: seq<nat>)
    requires InData(data, a) && InData(data, b)
    ensures InData(data, a + b)
  {
  }

  lemma FileBytesNone(data: Data, cl: nat)
    requires Sized(data, cl)
    ensures InData(data, []) && FileBytes(data, [], cl) == []
  {
  }

  lemma FileBytesSnoc(data: Data, ch: seq<nat>, cl: nat)
    requires Sized(data, cl) && InData(data, ch) && ch != []
    ensures var n := |ch| - 1;
            && ch[n] < |data| && InData(data, ch[..n])
            && FileBytes(data, ch, cl) == FileBytes(data, ch[..n], cl) + data[ch[n]]
  {
  }

  lemma ConcatAssoc(a: seq<Byte>, b: seq<Byte>, c: seq<Byte>)
    ensures (a + b) + c == a + (b + c)
  {
  }

  // ----- the meaning of writing -----

  /** How many clusters a write of size bytes at off walks over. */
  function Needed(off: nat, size: nat, cl: nat): nat
    requires 0 < cl
  {
    RunOf(if size == 0 then off else off + size - 1, cl) + 1
  }

  lemma NeededCovers(off: nat, size: nat, cl: nat)
    requires 0 < cl
    ensures off + size <= Start(Needed(off, size, cl), cl)
    ensures RunOf(off, cl) < Needed(off, size, cl)
  {
    var last := if size == 0 then off else off + size - 1;
    RunIs(last, cl, RunOf(last, cl));
    RunMono(off, last, cl);
    assert Start(RunOf(last, cl) + 1, cl) == Start(RunOf(last, cl), cl) + cl;
  }

  /** The effect of one write: buf appears at off in the file that owns the chain
      ch0, which grew by the clusters app; all other clusters keep their content,
      and the table changed by that growth alone. */
  ghost predicate Written(fat0: Fat, data0: Data, fat: Fat, data: Data,
                          ch0: seq<nat>, app: seq<nat>, cl: nat, off: nat, buf: seq<Byte>)
  {
    && Grown(fat0, fat, ch0, app)
    && |data0| == |data| == |fat|
    && Sized(data0, cl) && Sized(data, cl)
    && InData(data, ch0 + app)
    && |ch0 + app| == Max(|ch0|, Needed(off, |buf|, cl))
    && off + |buf| <= Start(|ch0 + app|, cl)
    && FileBytes(data, ch0 + app, cl) == Splice(FileBytes(data0, ch0 + app, cl), off, buf)
    && (forall c | 2 <= c < |data| && c !in ch0 + app :: data[c] == data0[c])
  }

  lemma ConcatAt(a: seq<Byte>, b: seq<Byte>, j: nat)
    requires j < |a + b|
    ensures (a + b)[j] == if j < |a| then a[j] else b[j - |a|]
  {
  }

  lemma InDataParts(data: Data, a: seq<nat>, b: seq<nat>)
    requires InData(data, a + b)
    ensures InData(data, a) && InData(data, b)
  {
    forall i | 0 <= i < |a|
      ensures 2 <= a[i] < |data|
    {
      assert a[i] == (a + b)[i];
    }
    forall i | 0 <= i < |b|
      ensures 2 <= b[i] < |data|
    {
      assert b[i] == (a + b)[|a| + i];
    }
  }

  // ----- a write in progress -----

  /** A write of size bytes at off starts at byte start of cluster k0 and touches
      clusters up to number need - 1. */
  ghost predicate WriteSpan(off: nat, size: nat, k0: nat, start: nat, need: nat, cl: nat) {
    && start < cl && off == Start(k0, cl) + start
    && need == Needed(off, size, cl)
  }

  /** The first w bytes of buf are in place; if bytes are left, the next one goes to
      byte pos of cluster k, and if none is left, k is the last cluster needed. */
  ghost predicate WritePart(data0: Data, data: Data, ch: seq<nat>, cl: nat, off: nat, buf: seq<Byte>,
                            w: nat, k: nat, pos: nat, need: nat)
  {
    && Sized(data0, cl) && Sized(data, cl) && |data| == |data0| && InData(data, ch)
    && w <= |buf| && k < need && k < |ch|
    && need == Needed(off, |buf|, cl)
    && (w < |buf| ==> off + w == Start(k, cl) + pos)
    && (w == |buf| ==> k + 1 == need)
    && off + w <= Start(|ch|, cl)
    && FileBytes(data, ch, cl) == Splice(FileBytes(data0, ch, cl), off, buf[..w])
    && (forall c | 2 <= c < |data| && c !in ch :: data[c] == data0[c])
  }

  lemma WritePartStart(data: Data, ch: seq<nat>, cl: nat, off: nat, buf: seq<Byte>, k0: nat, start: nat, need: nat)
    requires Sized(data, cl) && InData(data, ch) && k0 < |ch|
    requires WriteSpan(off, |buf|, k0, start, need, cl)
    ensures WritePart(data, data, ch, cl, off, buf, 0, k0, start, need)
  {
    RunIs(off, cl, k0);
    NeededCovers(off, |buf|, cl);
    StartMono(k0, |ch|, cl);
    assert buf[..0] == [];
  }

  /** Overwriting part of cluster k with the next bytes of buf moves the written
      prefix forward. */
  lemma WritePartCluster(data0: Data, data: Data, ch: seq<nat>, cl: nat, off: nat, buf: seq<Byte>,
                         w: nat, len: nat, k: nat, start: nat, need: nat)
    requires WritePart(data0, data, ch, cl, off, buf, w, k, start, need)
    requires forall i, j | 0 <= i < j < |ch| :: ch[i] != ch[j]
    requires w < |buf| && start < cl && len == Min(cl - start, |buf| - w)
    ensures 2 <= ch[k] < |data| && |data[ch[k]]| == cl
    ensures WritePart(data0, data[ch[k] := Splice(data[ch[k]], start, buf[w..w + len])], ch, cl, off, buf,
                      w + len, k, cl, need)
  {
    StartMono(k, |ch|, cl);
    var v := Splice(data[ch[k]], start, buf[w..w + len]);
    WriteStep(data0, data, ch, cl, off, buf, w, len, k, start);
    if w + len == |buf| {
      RunIs(off + |buf| - 1, cl, k);
    }
  }

  /** What one such store does to the bytes of the file. */
  lemma WriteStep(data0: Data, data: Data, ch: seq<nat>, cl: nat, off: nat, buf: seq<Byte>,
                  w: nat, len: nat, k: nat, start: nat)
    requires Sized(data0, cl) && Sized(data, cl) && InData(data0, ch) && InData(data, ch)
    requires forall i, j | 0 <= i < j < |ch| :: ch[i] != ch[j]
    requires k < |ch| && start + len <= cl && w + len <= |buf|
    requires off + w == Start(k, cl) + start
    requires off + w + len <= Start(|ch|, cl)
    requires FileBytes(data, ch, cl) == Splice(FileBytes(data0, ch, cl), off, buf[..w])
    ensures FileBytes(data[ch[k] := Splice(data[ch[k]], start, buf[w..w + len])], ch, cl)
            == Splice(FileBytes(data0, ch, cl), off, buf[..w + len])
  {
    var chunk := buf[w..w + len];
    var v := Splice(data[ch[k]], start, chunk);
    var b := FileBytes(data, ch, cl);
    FileBytesUpdate(data, ch, cl, k, v);
    FileBytesCluster(data, ch, cl, k);
    assert Splice(b, Start(k, cl), v) == Splice(b, off + w, chunk);
    SpliceTwice(FileBytes(data0, ch, cl), off, buf[..w], chunk);
    assert buf[..w] + chunk == buf[..w + len];
  }

  /** While bytes are left, another cluster is needed. */
  lemma WritePartMore(data0: Data, data: Data, ch: seq<nat>, cl: nat, off: nat, buf: seq<Byte>,
                      w: nat, k: nat, need: nat)
    requires WritePart(data0, data, ch, cl, off, buf, w, k, cl, need) && w < |buf|
    ensures k + 1 < need
  {
    NeededCovers(off, |buf|, cl);
    assert Start(k + 1, cl) == Start(k, cl) + cl;
  }

  /** Moving on to cluster k + 1, which may be a newly linked one. */
  lemma WritePartGrow(data0: Data, data: Data, ch: seq<nat>, ch': seq<nat>, cl: nat, off: nat, buf: seq<Byte>,
                      w: nat, k: nat, need: nat)
    requires WritePart(data0, data, ch, cl, off, buf, w, k, cl, need) && w < |buf|
    requires ch <= ch' && |ch'| == Max(|ch|, k + 2) && InData(data, ch')
    requires forall i, j | 0 <= i < j < |ch'| :: ch'[i] != ch'[j]
    ensures WritePart(data0, data, ch', cl, off, buf, w, k + 1, 0, need)
  {
    assert Start(k, cl) + cl == Start(k + 1, cl);
    NeededCovers(off, |buf|, cl);
    if |ch'| == |ch| {
      assert ch' == ch;
    } else {
      forall i | 0 <= i < |ch|
        ensures ch[i] != ch'[|ch|]
      {
        assert ch[i] == ch'[i];
      }
      GrowStep(data0, data, ch, ch', cl, off, buf[..w]);
      StartMono(k + 1, |ch'|, cl);
    }
  }

  lemma WritePartDone(data0: Data, data: Data, ch: seq<nat>, cl: nat, off: nat, buf: seq<Byte>, k: nat, need: nat)
    requires WritePart(data0, data, ch, cl, off, buf, |buf|, k, cl, need)
    ensures WritePart(data0, data, ch, cl, off, buf, |buf|, k, 0, need)
  {
  }

  /** With all bytes in place the write is done. */
  lemma WritePartEnd(fat0: Fat, data0: Data, fat: Fat, data: Data, ch0: seq<nat>, app: seq<nat>,
                     cl: nat, off: nat, buf: seq<Byte>, k: nat, pos: nat, need: nat)
    requires Grown(fat0, fat, ch0, app) && |data| == |fat|
    requires |ch0 + app| == Max(|ch0|, k + 1)
    requires WritePart(data0, data, ch0 + app, cl, off, buf, |buf|, k, pos, need)
    ensures Written(fat0, data0, fat, data, ch0, app, cl, off, buf)
  {
    assert buf[..|buf|] == buf;
  }

  /** Linking one more cluster lengthens the file by that cluster's old content. */
  lemma GrowStep(data0: Data, data: Data, ch: seq<nat>, ch': seq<nat>, cl: nat, off: nat, b: seq<Byte>)
    requires Sized(data0, cl) && Sized(data, cl) && |data| == |data0| && InData(data, ch')
    requires ch <= ch' && |ch'| == |ch| + 1
    requires InData(data, ch) && off + |b| <= Start(|ch|, cl)
    requires FileBytes(data, ch, cl) == Splice(FileBytes(data0, ch, cl), off, b)
    requires forall c | 2 <= c < |data| && c !in ch :: data[c] == data0[c]
    requires ch'[|ch|] !in ch
    ensures off + |b| <= Start(|ch'|, cl)
    ensures FileBytes(data, ch', cl) == Splice(FileBytes(data0, ch', cl), off, b)
  {
    var c := ch'[|ch|];
    assert ch'[..|ch'| - 1] == ch;
    StartMono(|ch|, |ch'|, cl);
    SpliceAppend(FileBytes(data0, ch, cl), off, b, data0[c]);
    assert FileBytes(data, ch', cl) == FileBytes(data, ch, cl) + data[c];
  }
}
