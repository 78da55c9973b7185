/** Rings of tasks seen from the running one, and what scheduling rounds do to them. */
module Ring {

  /** The place after place i in a ring of n. */
  function After(i: nat, n: nat): (k: nat)
    requires i < n
    ensures k < n
  {
    if i + 1 < n then i + 1 else 0
  }

  predicate Distinct<T(==)>(s: seq<T>) {
    forall i, j | 0 <= i < j < |s| :: s[i] != s[j]
  }

  /** The ring read from place i on. */
  function Rotation<T>(ring: seq<T>, i: nat): seq<T>
    requires i <= |ring|
  {
    ring[i..] + ring[..i]
  }

  function Turned<T>(c: seq<T>): seq<T>
    requires c != []
  {
    c[1..] + [c[0]]
  }

  function Without<T>(ring: seq<T>, k: nat): seq<T>
    requires k < |ring|
  {
    ring[..k] + ring[k + 1..]
  }

  /** The ring, read from the running task, once the task after it is dropped if it is
      killed. */
  function Dropped<T>(c: seq<T>, killed: set<T>): seq<T>
    requires c != []
  {
    if |c| == 1 then (if c[0] in killed then [] else c)
    else if c[1] in killed then [c[0]] + c[2..]
    else c
  }

  /** One scheduling round: that task is dropped, and the next one runs. */
  function NextRound<T>(c: seq<T>, killed: set<T>): seq<T>
    requires c != []
  {
    var d := Dropped(c, killed);
    if d == [] then [] else Turned(d)
  }

  function RoundsOf<T>(c: seq<T>, killed: set<T>, k: nat): seq<T>
    decreases k
  {
    if k == 0 || c == [] then c else RoundsOf(NextRound(c, killed), killed, k - 1)
  }

  /** What the scheduling loop does with the ring until it switches to a task other than
      the one it left, or for ever if it never does. */
  function Looped<T(==)>(c: seq<T>, killed: set<T>): seq<T>
    requires c != []
    decreases |c|
  {
    var r := NextRound(c, killed);
    if r == [] || r[0] != c[0] || |r| >= |c| then r else Looped(r, killed)
  }

  /** What the end of the running task's time does: the timer drops a task, and leaves the
      running one for the loop unless it finds no other. */
  function Preempted<T(==)>(c: seq<T>, killed: set<T>): seq<T>
    requires c != []
  {
    var d := Dropped(c, killed);
    if |d| <= 1 then d else Looped(d, killed)
  }

  /** k of these.  After one that switches to no other task, `stop` stays set and none
      follows. */
  function PreemptsOf<T(==)>(c: seq<T>, killed: set<T>, k: nat): seq<T>
    decreases k
  {
    if k == 0 || c == [] then c else
      var r := Preempted(c, killed);
      if |r| <= 1 then r else PreemptsOf(r, killed, k - 1)
  }

  /** What a timer interrupt and the scheduling loop behind it do when the running task c[0]
      is not killed: the interrupt drops a task and leaves c[0] for the loop, which drops
      another one, finds c[0] alone, and goes on picking it without ever resuming it. */
  ghost predicate NeverResumed<T(!new)>(c: seq<T>, killed: set<T>)
    requires c != []
  {
    var d := Dropped(c, killed);
    && d != [] && Turned(d)[0] != c[0]
    && forall k: nat :: RoundsOf(d, killed, k) != [] && RoundsOf(d, killed, k)[0] == c[0]
  }

  /** This happens exactly in a ring of three whose other two tasks are killed. */
  lemma NeverResumedIff<T(!new)>(c: seq<T>, killed: set<T>)
    requires Distinct(c) && c != [] && c[0] !in killed
    ensures NeverResumed(c, killed) <==> |c| == 3 && c[1] in killed && c[2] in killed
  {
    var d := Dropped(c, killed);
    if |c| == 3 && c[1] in killed && c[2] in killed {
      assert d == [c[0], c[2]];
      forall k: nat
        ensures RoundsOf(d, killed, k) != [] && RoundsOf(d, killed, k)[0] == c[0]
      {
        if k > 0 {
          assert NextRound(d, killed) == [c[0]];
          AloneStays(c[0], killed, k - 1);
        }
      }
    } else if |c| > 1 {
      SomeoneElse(c, killed);
      assert RoundsOf(d, killed, 1) == RoundsOf(NextRound(d, killed), killed, 0);
    }
  }

  lemma {:induction false} AloneStays<T>(t: T, killed: set<T>, k: nat)
    requires t !in killed
    ensures RoundsOf([t], killed, k) == [t]
    decreases k
  {
    if k > 0 {
      assert NextRound([t], killed) == [t];
      AloneStays(t, killed, k - 1);
    }
  }

  /** Otherwise the interrupt or the loop finds another task, or the interrupt returns. */
  lemma SomeoneElse<T>(c: seq<T>, killed: set<T>)
    requires Distinct(c) && |c| > 1 && !(|c| == 3 && c[1] in killed && c[2] in killed)
    ensures var d := Dropped(c, killed);
            d == [c[0]] || (NextRound(d, killed) != [] && NextRound(d, killed)[0] != c[0])
  {
    var d := Dropped(c, killed);
    if |d| > 1 {
      assert d[0] == c[0] && |Dropped(d, killed)| > 1 && Dropped(d, killed)[1] in c[1..];
    }
  }

  lemma NextRoundSame<T>(c: seq<T>, k0: set<T>, k1: set<T>)
    requires c != [] && forall t | t in c :: t in k0 <==> t in k1
    ensures NextRound(c, k0) == NextRound(c, k1)
  {
    assert |c| > 1 ==> c[1] in c;
    assert c[0] in c;
  }

  /** One round picks a killed task exactly when the two tasks after the running one are
      killed: only the first of them is dropped. */
  lemma KilledRunsIff<T>(c: seq<T>, killed: set<T>)
    requires 1 < |c|
    ensures NextRound(c, killed) != []
    ensures NextRound(c, killed)[0] in killed <==> c[1] in killed && c[if |c| > 2 then 2 else 0] in killed
  {
    assert c[1] in killed ==> ([c[0]] + c[2..])[0] == c[0];
  }

  /** Through the timer, which picks twice, the scheduler switches to a killed task exactly
      when the three tasks after the running one are killed. */
  lemma KilledAfterTickIff<T>(c: seq<T>, killed: set<T>)
    requires Distinct(c) && c != []
    ensures |Preempted(c, killed)| > 1 && Preempted(c, killed)[0] in killed
            <==> |c| > 3 && c[1] in killed && c[2] in killed && c[3] in killed
  {
    var d := Dropped(c, killed);
    if |d| > 1 {
      KilledRunsIff(d, killed);
      LoopedOnce(d, killed);
    }
  }

  /** The loop switches in its first round, or it is down to the task that it left. */
  lemma LoopedOnce<T>(d: seq<T>, killed: set<T>)
    requires Distinct(d) && |d| > 1
    ensures Looped(d, killed) ==
            if |d| == 2 && d[1] in killed then (if d[0] in killed then [] else [d[0]]) else NextRound(d, killed)
    ensures Looped(d, killed) != [] ==> (|Looped(d, killed)| > 1 <==> Looped(d, killed)[0] != d[0])
  {
    var r := NextRound(d, killed);
    if |d| == 2 && d[1] in killed {
      assert r == [d[0]];
      assert NextRound(r, killed) == if d[0] in killed then [] else [d[0]];
    } else if d[1] in killed {
      assert r[0] == d[2];
    }
  }

  lemma TurnedRotation<T>(ring: seq<T>, i: nat)
    requires i < |ring|
    ensures Turned(Rotation(ring, i)) == Rotation(ring, After(i, |ring|))
  {
    assert Rotation(ring, i)[0] == ring[i];
  }

  lemma RotationMembers<T>(ring: seq<T>, i: nat)
    requires i <= |ring| && Distinct(ring)
    ensures Distinct(Rotation(ring, i)) && |Rotation(ring, i)| == |ring|
    ensures forall t | t in Rotation(ring, i) :: t in ring
    ensures forall t | t in ring :: t in Rotation(ring, i)
  {
    var c, n := Rotation(ring, i), |ring|;
    assert forall k | 0 <= k < n :: c[k] == ring[if k < n - i then i + k else k - (n - i)];
    assert forall k | 0 <= k < n :: ring[k] == c[if k < i then n - i + k else k - i];
  }

  lemma TurnsRotation<T>(ring: seq<T>, i: nat)
    requires i < |ring|
    ensures Turned(Rotation(ring, i)) == Rotation(ring, i + 1)
  {
  }

  /** Dropping the task after place i, seen from place i. */
  lemma DroppedAfter<T>(ring: seq<T>, i: nat, j: nat)
    requires i < |ring| && 1 < |ring| && j == if i + 1 < |ring| then i else i - 1
    ensures j < |ring| - 1 && Without(ring, After(i, |ring|))[j] == ring[i]
    ensures Rotation(Without(ring, After(i, |ring|)), j) == [ring[i]] + Rotation(ring, i)[2..]
    ensures Rotation(ring, i)[1] == ring[After(i, |ring|)]
  {
  }

  lemma WithoutDistinct<T>(ring: seq<T>, k: nat)
    requires Distinct(ring) && k < |ring|
    ensures Distinct(Without(ring, k)) && ring[k] !in Without(ring, k)
    ensures forall t | t in Without(ring, k) :: t in ring && t != ring[k]
    ensures forall t | t in ring && t != ring[k] :: t in Without(ring, k)
  {
    var w := Without(ring, k);
    assert forall i | 0 <= i < |w| :: w[i] == ring[if i < k then i else i + 1];
    assert forall i | 0 <= i < |ring| && i != k :: ring[i] == w[if i < k then i else i - 1];
  }

  // ----- many rounds -----

  /** Without kills, |c| rounds run every task exactly once, in ring order, and come
      back to the first. */
  lemma EachRunsOnce<T>(c: seq<T>, killed: set<T>)
    requires c != [] && forall t | t in c :: t !in killed
    ensures forall k: nat | k <= |c| :: RoundsOf(c, killed, k) == Rotation(c, k)
    ensures forall k: nat | k < |c| :: Rotation(c, k)[0] == c[k]
    ensures RoundsOf(c, killed, |c|) == c
  {
    hide NextRound, RoundsOf;
    assert Rotation(c, 0) == c && Rotation(c, |c|) == c;
    forall k: nat | k <= |c|
      ensures RoundsOf(c, killed, k) == Rotation(c, k)
    {
      RoundsRotate(c, killed, 0, k);
    }
  }

  lemma {:induction false} RoundsRotate<T>(c: seq<T>, killed: set<T>, i: nat, k: nat)
    requires c != [] && i + k <= |c| && forall t | t in c :: t !in killed
    ensures RoundsOf(Rotation(c, i), killed, k) == Rotation(c, i + k)
    decreases k
  {
    hide NextRound;
    if k > 0 {
      RoundTurns(c, killed, i);
      RoundsRotate(c, killed, i + 1, k - 1);
    }
  }

  lemma RoundTurns<T>(c: seq<T>, killed: set<T>, i: nat)
    requires i < |c| && forall t | t in c :: t !in killed
    ensures NextRound(Rotation(c, i), killed) == Rotation(c, i + 1)
  {
    TurnsRotation(c, i);
    assert forall t | t in Rotation(c, i) :: t in c;
  }

  /** Rounds go on until no killed task is left in the ring: each drops one task, or
      brings the running one closer to the place d of a killed one. */
  lemma {:induction false} KilledAreDropped<T>(c: seq<T>, killed: set<T>, d: nat) returns (k: nat)
    requires Distinct(c) && 1 <= d <= |c| && c[if d == |c| then 0 else d] in killed
    ensures forall t | t in RoundsOf(c, killed, k) :: t in c && t !in killed
    ensures forall t | t in c && t !in killed :: t in RoundsOf(c, killed, k)
    decreases |c|, d
  {
    hide NextRound;
    var r := NextRound(c, killed);
    RoundMembers(c, killed);
    if forall t | t in r :: t !in killed {
      assert RoundsOf(r, killed, 0) == r;
      return 1;
    }
    var j := NextPlace(c, killed, d);
    k := KilledAreDropped(r, killed, j);
    k := k + 1;
  }

  lemma NextPlace<T>(c: seq<T>, killed: set<T>, d: nat) returns (j: nat)
    requires Distinct(c) && 1 <= d <= |c| && c[if d == |c| then 0 else d] in killed
    requires exists t | t in NextRound(c, killed) :: t in killed
    ensures var r := NextRound(c, killed);
            && 1 <= j <= |r| && r[if j == |r| then 0 else j] in killed
            && (|r| < |c| || (|r| == |c| && j < d))
  {
    hide Distinct;
    var r := NextRound(c, killed);
    if |c| > 1 && c[1] !in killed {
      assert r == Turned(c);
      assert r[if d - 1 == |r| then 0 else d - 1] == c[if d == |c| then 0 else d];
      return d - 1;
    }
    var i :| 0 <= i < |r| && r[i] in killed;
    return if i == 0 then |r| else i;
  }

  lemma RoundMembers<T>(c: seq<T>, killed: set<T>)
    requires Distinct(c) && c != []
    ensures var r := NextRound(c, killed);
            && Distinct(r) && |r| <= |c|
            && (|c| == 1 && c[0] in killed ==> r == [])
            && (|c| > 1 && c[1] in killed ==> |r| < |c| && r != [])
            && (forall t | t in r :: t in c && (|c| == 1 ==> t !in killed) && (|c| > 1 && c[1] in killed ==> t != c[1]))
            && (forall t | t in c && t !in killed :: t in r)
            && (|c| > 1 ==> forall t | t in c && t != c[1] :: t in r)
            && (|c| > 1 && c[1] !in killed ==> forall t | t in c :: t in r)
  {
    var r := NextRound(c, killed);
    if |c| > 1 && c[1] in killed {
      assert [c[0]] + c[2..] == Without(c, 1);
      WithoutDistinct(c, 1);
      TurnedMembers(Without(c, 1));
    } else {
      TurnedMembers(c);
    }
  }

  lemma TurnedMembers<T>(c: seq<T>)
    requires Distinct(c) && c != []
    ensures Distinct(Turned(c)) && (forall t | t in Turned(c) :: t in c) && forall t | t in c :: t in Turned(c)
  {
    var r := Turned(c);
    assert forall i | 0 <= i < |c| :: r[i] == c[if i + 1 < |c| then i + 1 else 0];
    assert forall i | 0 <= i < |c| :: c[i] == r[if i == 0 then |c| - 1 else i - 1];
  }

  // ----- many preemptions -----

  predicate AnyAlive<T>(c: seq<T>, killed: set<T>) {
    exists t | t in c :: t !in killed
  }

  predicate NoneKilled<T>(c: seq<T>, killed: set<T>) {
    forall t | t in c :: t !in killed
  }

  lemma DroppedMembers<T>(c: seq<T>, killed: set<T>)
    requires Distinct(c) && c != []
    ensures var d := Dropped(c, killed);
            && Distinct(d) && |d| <= |c| && (forall t | t in d :: t in c) && (forall t | t in c && t !in killed :: t in d)
            && (|c| > 1 ==> d != [] && d[0] == c[0])
            && (d != c ==> |d| == |c| - 1)
  {
    var d := Dropped(c, killed);
    if |c| > 1 && c[1] in killed {
      assert d == Without(c, 1);
      WithoutDistinct(c, 1);
    }
  }

  lemma PreemptedSame<T>(c: seq<T>, k0: set<T>, k1: set<T>)
    requires Distinct(c) && c != [] && forall t | t in c :: t in k0 <==> t in k1
    ensures Preempted(c, k0) == Preempted(c, k1)
  {
    var d := Dropped(c, k0);
    assert c[0] in c && (|c| > 1 ==> c[1] in c);
    DroppedMembers(c, k0);
    if |d| > 1 {
      assert d[0] in c && d[1] in c;
      LoopedOnce(d, k0);
      LoopedOnce(d, k1);
      NextRoundSame(d, k0, k1);
    }
  }

  /** Without kills, |c| preemptions run every task exactly once as well, if there are two. */
  lemma EachPreempted<T>(c: seq<T>, killed: set<T>, k: nat)
    requires Distinct(c) && 1 < |c| && NoneKilled(c, killed) && k <= |c|
    ensures PreemptsOf(c, killed, k) == Rotation(c, k)
  {
    assert Rotation(c, 0) == c;
    PreemptsRotate(c, killed, 0, k);
  }

  lemma {:induction false} PreemptsRotate<T>(c: seq<T>, killed: set<T>, i: nat, k: nat)
    requires Distinct(c) && 1 < |c| && NoneKilled(c, killed) && i + k <= |c|
    ensures PreemptsOf(Rotation(c, i), killed, k) == Rotation(c, i + k)
    decreases k
  {
    hide Preempted, Distinct, Rotation;
    if k > 0 {
      RotationMembers(c, i);
      assert Rotation(c, i)[1] in Rotation(c, i);
      PreemptTurns(Rotation(c, i), killed);
      TurnsRotation(c, i);
      PreemptsRotate(c, killed, i + 1, k - 1);
    } else {
      RotationMembers(c, i);
    }
  }

  lemma PreemptTurns<T>(c: seq<T>, killed: set<T>)
    requires Distinct(c) && 1 < |c| && c[1] !in killed
    ensures Preempted(c, killed) == Turned(c)
  {
    LoopedOnce(c, killed);
  }

  /** One preemption keeps the tasks that are alive. */
  lemma PreemptedMembers<T>(c: seq<T>, killed: set<T>)
    requires Distinct(c) && c != []
    ensures var r := Preempted(c, killed);
            && Distinct(r) && |r| <= |c| && (forall t | t in r :: t in c) && (forall t | t in c && t !in killed :: t in r)
  {
    hide NextRound, Dropped;
    var d := Dropped(c, killed);
    DroppedMembers(c, killed);
    if |d| > 1 {
      RoundMembers(d, killed);
      LoopedOnce(d, killed);
      assert |d| == 2 ==> forall t | t in d :: t == d[0] || t == d[1];
    }
  }

  lemma {:induction false} AliveKept<T>(c: seq<T>, killed: set<T>, k: nat)
    requires Distinct(c)
    ensures forall t | t in PreemptsOf(c, killed, k) :: t in c
    ensures forall t | t in c && t !in killed :: t in PreemptsOf(c, killed, k)
    decreases k
  {
    hide Preempted, Distinct;
    if k > 0 && c != [] {
      PreemptedMembers(c, killed);
      if |Preempted(c, killed)| > 1 {
        AliveKept(Preempted(c, killed), killed, k - 1);
      }
    }
  }

  /** Where no task is alive, two go with each preemption. */
  lemma TwoGo<T>(c: seq<T>, killed: set<T>)
    requires Distinct(c) && c != [] && !AnyAlive(c, killed)
    ensures var r := Preempted(c, killed);
            && !AnyAlive(r, killed) && Distinct(r)
            && |r| == if |c| == 1 then 0 else if |c| == 2 then 1 else if |c| == 3 then 0 else |c| - 2
  {
    var d := Dropped(c, killed);
    PreemptedMembers(c, killed);
    DroppedMembers(c, killed);
    assert |c| > 1 ==> c[1] in c;
    if |d| > 1 {
      assert d[0] in c && d[1] in c;
      LoopedOnce(d, killed);
    }
  }

  lemma {:induction false} OddGo<T>(c: seq<T>, killed: set<T>) returns (k: nat)
    requires Distinct(c) && |c| % 2 == 1 && !AnyAlive(c, killed)
    ensures PreemptsOf(c, killed, k) == []
    decreases |c|
  {
    hide Preempted, Distinct, AnyAlive;
    TwoGo(c, killed);
    k := 1;
    if |c| > 3 {
      k := OddGo(Preempted(c, killed), killed);
      k := k + 1;
    }
  }

  lemma {:induction false} OneStays<T>(c: seq<T>, killed: set<T>, k: nat)
    requires Distinct(c) && c != [] && |c| % 2 == 0 && !AnyAlive(c, killed)
    ensures PreemptsOf(c, killed, k) != [] && !AnyAlive(PreemptsOf(c, killed, k), killed)
    decreases k
  {
    hide Preempted, Distinct, AnyAlive;
    if k > 0 {
      TwoGo(c, killed);
      if |c| > 2 {
        OneStays(Preempted(c, killed), killed, k - 1);
      }
    }
  }

  /** With a task alive, preemptions go on until no killed task is left: each drops one, or
      brings the running task closer to the place p of a killed one. */
  lemma {:induction false} AliveReclaims<T>(c: seq<T>, killed: set<T>, p: nat) returns (k: nat)
    requires Distinct(c) && 1 <= p <= |c| && c[if p == |c| then 0 else p] in killed && AnyAlive(c, killed)
    ensures NoneKilled(PreemptsOf(c, killed, k), killed)
    decreases |c|, p
  {
    hide Preempted, AnyAlive, Distinct;
    var r := Preempted(c, killed);
    StaysAlive(c, killed);
    if NoneKilled(r, killed) {
      NoneKilledStays(r, killed);
      return 1;
    }
    var q := PlaceAfter(c, killed, p);
    k := AliveReclaims(r, killed, q);
    k := k + 1;
  }

  lemma NoneKilledStays<T>(r: seq<T>, killed: set<T>)
    requires NoneKilled(r, killed)
    ensures PreemptsOf(r, killed, 0) == r
  {
  }

  lemma StaysAlive<T>(c: seq<T>, killed: set<T>)
    requires Distinct(c) && AnyAlive(c, killed)
    ensures c != [] && AnyAlive(Preempted(c, killed), killed) && Distinct(Preempted(c, killed))
    ensures |Preempted(c, killed)| <= 1 ==> NoneKilled(Preempted(c, killed), killed)
  {
    hide Preempted;
    var t :| t in c && t !in killed;
    PreemptedMembers(c, killed);
    assert t in Preempted(c, killed);
  }

  lemma PlaceAfter<T>(c: seq<T>, killed: set<T>, p: nat) returns (q: nat)
    requires Distinct(c) && 1 <= p <= |c| && c[if p == |c| then 0 else p] in killed
    requires !NoneKilled(Preempted(c, killed), killed)
    ensures var r := Preempted(c, killed);
            && 1 <= q <= |r| && r[if q == |r| then 0 else q] in killed
            && (|r| < |c| || (|r| == |c| && q < p))
  {
    var r := Preempted(c, killed);
    if |c| > 1 && c[1] !in killed {
      LoopedOnce(c, killed);
      assert r == Turned(c);
      assert r[if p - 1 == |r| then 0 else p - 1] == c[if p == |c| then 0 else p];
      return p - 1;
    }
    SmallerAfter(c, killed);
    var t :| t in r && t in killed;
    var i :| 0 <= i < |r| && r[i] == t;
    return if i == 0 then |r| else i;
  }

  lemma SmallerAfter<T>(c: seq<T>, killed: set<T>)
    requires Distinct(c) && c != [] && (|c| == 1 || c[1] in killed) && !NoneKilled(Preempted(c, killed), killed)
    ensures |Preempted(c, killed)| < |c|
  {
    hide NextRound;
    var d := Dropped(c, killed);
    DroppedMembers(c, killed);
    if |d| > 1 {
      LoopedOnce(d, killed);
      RoundMembers(d, killed);
    }
  }

  /** Killed tasks are all reclaimed by the timer and the loop exactly if some task in the
      ring is alive or the number of tasks is odd; of an even number of killed tasks the
      last one runs on. */
  lemma AllReclaimedIff<T>(c: seq<T>, killed: set<T>)
    requires Distinct(c) && c != []
    ensures (exists k: nat :: NoneKilled(PreemptsOf(c, killed, k), killed)) <==> AnyAlive(c, killed) || |c| % 2 == 1
  {
    if NoneKilled(c, killed) {
      NoneKilledStays(c, killed);
      assert NoneKilled(PreemptsOf(c, killed, 0), killed) && c[0] in c;
    } else if AnyAlive(c, killed) {
      var t :| t in c && t in killed;
      var i :| 0 <= i < |c| && c[i] == t;
      var k := AliveReclaims(c, killed, if i == 0 then |c| else i);
    } else if |c| % 2 == 1 {
      var k := OddGo(c, killed);
      assert NoneKilled(PreemptsOf(c, killed, k), killed);
    } else {
      forall k: nat
        ensures !NoneKilled(PreemptsOf(c, killed, k), killed)
      {
        OneStays(c, killed, k);
        assert PreemptsOf(c, killed, k)[0] in PreemptsOf(c, killed, k);
      }
    }
  }
}
