/** Positions in a sequence that is cut into runs of equal length. */
module Runs {

  /** The first position of run k when every run has n elements. */
  function Start(k: nat, n: nat): nat {
    if k == 0 then 0 else Start(k - 1, n) + n
  }

  /** The run that holds position i. */
  function RunOf(i: nat, n: nat): (k: nat)
    requires 0 < n
  {
    if i < n then 0 else RunOf(i - n, n) + 1
  }

  lemma StartIsProduct(k: nat, n: nat)
    ensures Start(k, n) == k * n
  {
  }

  lemma {:induction false} StartMono(j: nat, k: nat, n: nat)
    requires j <= k
    ensures Start(j, n) <= Start(k, n)
    ensures j < k ==> Start(j, n) + n <= Start(k, n)
    decreases k
  {
    if j < k {
      StartMono(j, k - 1, n);
    }
  }

  /** Position i lies in run k exactly when k is RunOf(i). */
  lemma {:induction false} RunIs(i: nat, n: nat, k: nat)
    requires 0 < n
    ensures Start(k, n) <= i < Start(k, n) + n <==> RunOf(i, n) == k
    decreases i
  {
    if i < n {
      if 0 < k {
        StartMono(1, k, n);
        assert Start(1, n) == n;
      }
    } else if k == 0 {
    } else {
      RunIs(i - n, n, k - 1);
      StartShift(k, n);
    }
  }

  lemma {:induction false} StartShift(k: nat, n: nat)
    requires 0 < k
    ensures Start(k, n) == n + Start(k - 1, n)
  {
  }

  lemma RunMono(i: nat, j: nat, n: nat)
    requires 0 < n && i <= j
    ensures RunOf(i, n) <= RunOf(j, n)
  {
    var a, b := RunOf(i, n), RunOf(j, n);
    RunIs(i, n, a);
    RunIs(j, n, b);
    if b < a {
      StartMono(b, a, n);
    }
  }

  /** The quotient and remainder the source computes. */
  lemma RunDivides(i: nat, n: nat)
    requires 0 < n
    ensures i / n == RunOf(i, n)
    ensures i == Start(i / n, n) + i % n
  {
    StartIsProduct(i / n, n);
    RunIs(i, n, i / n);
  }
}
