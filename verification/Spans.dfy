/** Reading a span of bytes out of a sequence of runs, run after run.  Both file
    systems of the kernel do this with the same arithmetic. */
module Spans {
  import opened Bytes
  import opened Runs

  function Min(a: nat, b: nat): nat {
    if a < b then a else b
  }

  function Max(a: nat, b: nat): nat {
    if a < b then b else a
  }

  /** The part of size bytes from off on that lies in b. */
  function Window(b: seq<Byte>, off: nat, size: nat): seq<Byte> {
    b[Min(off, |b|)..Min(off + size, |b|)]
  }

  /** The last run a read of size bytes at off looks at, computed in 64-bit
      unsigned arithmetic as the source does. */
  function LastRun(off: nat, size: nat, n: nat): nat
    requires 0 < n
  {
    (if off + size == 0 then 0xFFFF_FFFF_FFFF_FFFF else off + size - 1) / n
  }

  /** How many bytes the read takes from run k when `left` bytes are still wanted. */
  function CopyLen(off: nat, size: nat, n: nat, k: nat, left: nat): (len: nat)
    requires 0 < n
    ensures len <= left
  {
    var whole := if k == off / n then n - off % n else n;
    var len := if k != LastRun(off, size, n) then whole
               else if (off + size) % n == 0 then left else (off + size) % n;
    Min(len, left)
  }

  /** Where in run k the read starts. */
  function CopyStart(off: nat, n: nat, k: nat): (s: nat)
    requires 0 < n
    ensures s < n
  {
    if k == off / n then off % n else 0
  }

  /** The read is at run k: the bytes of b from off up to that run have been copied. */
  ghost predicate ReadPart(b: seq<Byte>, off: nat, size: nat, n: nat, k: nat, out: seq<Byte>) {
    && 0 < n && RunOf(off, n) <= k
    && |out| <= size
    && (out != [] ==> off + |out| <= |b| && out == b[off..off + |out|])
    && (|out| < size ==> off + |out| == Start(k, n) + CopyStart(off, n, k))
  }

  /** What is copied from run k is what is wanted of it. */
  lemma CopyFits(off: nat, size: nat, n: nat, k: nat, left: nat)
    requires 0 < n && 0 < left <= size
    requires off + (size - left) == Start(k, n) + CopyStart(off, n, k)
    requires RunOf(off, n) <= k
    ensures CopyLen(off, size, n, k, left) == Min(n - CopyStart(off, n, k), left)
  {
    var end := off + size;
    RunDivides(off, n);
    RunDivides(end, n);
    RunDivides(end - 1, n);
    RunIs(end - 1, n, k);
    RunIs(end, n, k);
    RunIs(end, n, k + 1);
    assert Start(k + 1, n) == Start(k, n) + n;
    if k != LastRun(off, size, n) {
      RunMono(Start(k, n), end - 1, n);
      RunIs(Start(k, n), n, k);
    }
  }

  lemma ReadPartStart(b: seq<Byte>, off: nat, size: nat, n: nat)
    requires 0 < n
    ensures off / n == RunOf(off, n) && ReadPart(b, off, size, n, off / n, [])
  {
    RunDivides(off, n);
  }

  /** Where the read starts in the runs after the first: at their beginning. */
  lemma CopyStartLater(off: nat, n: nat, k: nat)
    requires 0 < n && RunOf(off, n) <= k
    ensures CopyStart(off, n, k + 1) == 0
  {
    RunDivides(off, n);
  }

  lemma CopyNothing(off: nat, size: nat, n: nat, k: nat)
    requires 0 < n
    ensures CopyLen(off, size, n, k, 0) == 0
  {
  }

  /** Copying from run k carries the read on to run k + 1. */
  lemma ReadPartStep(b: seq<Byte>, off: nat, size: nat, n: nat, k: nat, out: seq<Byte>, run: seq<Byte>)
    requires ReadPart(b, off, size, n, k, out)
    requires Start(k, n) + n <= |b| && run == b[Start(k, n)..Start(k, n) + n]
    ensures CopyStart(off, n, k) + CopyLen(off, size, n, k, size - |out|) <= n
    ensures var s := CopyStart(off, n, k);
            ReadPart(b, off, size, n, k + 1, out + run[s..s + CopyLen(off, size, n, k, size - |out|)])
  {
    hide CopyStart, CopyLen, RunOf;
    var left, s := size - |out|, CopyStart(off, n, k);
    var len := CopyLen(off, size, n, k, left);
    CopyStartLater(off, n, k);
    if left == 0 {
      CopyNothing(off, size, n, k);
      assert out + run[s..s + len] == out;
    } else {
      CopyFits(off, size, n, k, left);
      var at := Start(k, n) + s;
      SliceOfSlice(b, Start(k, n), n, s, len);
      assert out + b[at..at + len] == b[off..at + len];
      assert Start(k + 1, n) == Start(k, n) + n;
    }
  }

  /** A read that met the end of the file, or has passed its last run, has copied
      all of the window that exists. */
  lemma ReadPartEnd(b: seq<Byte>, off: nat, size: nat, n: nat, k: nat, out: seq<Byte>, runs: nat)
    requires ReadPart(b, off, size, n, k, out) && |b| == Start(runs, n)
    requires runs <= k || LastRun(off, size, n) < k
    ensures out == Window(b, off, size)
  {
    RunDivides(off, n);
    if |out| < size {
      if LastRun(off, size, n) < k {
        var last := off + size - 1;
        RunDivides(last, n);
        RunIs(last, n, RunOf(last, n));
        StartMono(RunOf(last, n), k, n);
      }
      StartMono(runs, k, n);
    }
  }

  /** The runs looked at cover the window. */
  lemma LastRunCovers(off: nat, size: nat, n: nat, k: nat)
    requires 0 < n && 0 < size && LastRun(off, size, n) < k
    ensures LastRun(off, size, n) == RunOf(off + size - 1, n)
    ensures off + size <= Start(k, n)
  {
    var last := off + size - 1;
    RunDivides(last, n);
    RunIs(last, n, RunOf(last, n));
    StartMono(RunOf(last, n), k, n);
  }
}
