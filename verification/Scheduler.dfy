/** The round-robin scheduler: a circular list of tasks, a head pointer outside it, and
    killed tasks that are unlinked by whoever runs before them. */
module Scheduler {
  import opened Ring

  /** How many ticks a task may run for. */
  const DEFAULT_TIME: int := 5

  class Task {
    var next: Task?
    var active: bool
    var killed: bool
    var pid: int
    var time: int

    constructor ()
      ensures next == null && active && !killed && time == DEFAULT_TIME
    {
      next, active, killed, pid, time := null, true, false, 0, DEFAULT_TIME;
    }
  }

  class Scheduler {
    const defaultTask: Task
    var current: Task
    var lastPid: int
    var stop: bool
    ghost var ring: seq<Task>
    ghost var reclaimed: set<Task>

    /** The tasks form one circular list that the head pointer is in; none of its
        members is reclaimed, and the running task is one of them or the default one. */
    ghost predicate Valid()
      reads this, defaultTask, ring
    {
      && Linked(defaultTask, ring) && defaultTask !in ring
      && (forall t | t in ring :: t.active && t !in reclaimed)
      && defaultTask !in reclaimed
      && (current in ring || (current == defaultTask && forall t | t in ring :: !t.killed))
    }

    /** The killed tasks still in the ring. */
    ghost function Killed(): set<Task>
      reads this, ring`killed
    {
      set t | t in ring && t.killed
    }

    /** The ring read from the running task on, or from the head before any task runs. */
    ghost function View(): seq<Task>
      reads this
    {
      if current in ring then Rotation(ring, PlaceOf(ring, current)) else ring
    }

    constructor ()
      ensures Valid() && ring == [] && reclaimed == {} && current == defaultTask && stop && fresh(defaultTask)
    {
      var d := new Task();
      defaultTask, current, lastPid, stop := d, d, 1, true;
      ring, reclaimed := [], {};
    }

    /** Puts a task at the end of the ring. */
    method AddTask(task: Task) returns (pid: int)
      requires Valid() && task !in ring && task != defaultTask && task !in reclaimed && task.active && !task.killed
      modifies this`lastPid, this`ring, defaultTask`next, task`next, set t | t in ring
      ensures Valid() && ring == old(ring) + [task] && current == old(current)
      ensures forall t | t in ring :: t.killed == old(t.killed) && t.time == old(t.time)
      ensures pid == old(lastPid) + 2 && lastPid == old(lastPid) + 1
    {
      hide Linked;
      HeadIs(defaultTask, ring);
      if defaultTask.next == null {
        defaultTask.next := task;
        task.next := task;
      } else {
        LinkedAt(defaultTask, ring, 0);
        var last := LastTask();
        last.next := task;
        task.next := defaultTask.next;
      }
      Appended(defaultTask, ring, task);
      ring := ring + [task];
      lastPid := lastPid + 1;
      pid := lastPid + 1;
    }

    /** The task whose successor is the first one. */
    method LastTask() returns (last: Task)
      requires Valid() && ring != []
      ensures last == ring[|ring| - 1]
    {
      hide Linked;
      LinkedAt(defaultTask, ring, 0);
      last := defaultTask.next;
      ghost var i := 0;
      while last.next != null && last.next != defaultTask.next
        invariant 0 <= i < |ring| && last == ring[i]
        decreases |ring| - i
      {
        i := i + 1;
        last := last.next;
      }
    }

    /** The task that runs after the current one.  If the next task in the ring is
        killed it is unlinked and reclaimed first.  Null if there is no task. */
    method GetNextTask() returns (r: Task?)
      requires Valid()
      modifies this`current, this`ring, this`reclaimed, defaultTask`next, set t | t in ring
      ensures Valid() && (r == null <==> ring == []) && (r != null ==> r in ring)
      ensures AtMostOneGone(old(ring), old(Killed()), old(reclaimed), ring, reclaimed)
      ensures forall t | t in ring :: t in old(ring) && t.killed == old(t.killed) && t.time == old(t.time)
      ensures old(current) in old(ring) ==>
                && View() == Dropped(old(View()), old(Killed()))
                && (r != null ==> current in ring && r == Turned(View())[0])
      ensures old(current) !in old(ring) ==> ring == old(ring) && (ring != [] ==> r == ring[0])
      ensures current == if old(current) in old(ring) && ring == [] then defaultTask else old(current)
    {
      hide Rotation, PlaceOf, Dropped, Without, Turned, Linked;
      var cur: Task? := current;
      ghost var i := if cur in ring then PlaceOf(ring, cur) else 0;
      Linkage(defaultTask, ring, i, Killed());
      if cur.next != null && cur.next.killed {
        var none := UnlinkNext(cur, i);
        if none {
          return null;
        }
        i := PlaceOf(ring, cur);
        Linkage(defaultTask, ring, i, {});
      }
      cur := if cur.next != null then cur.next else defaultTask.next;
      if cur == null {
        return null;
      }
      if cur.active {
        return cur;
      }
      assert false; // no task is ever made inactive
    }

    /** Unlinks and reclaims the killed task after the one at place i.  True if it was
        the only task. */
    method UnlinkNext(cur: Task, ghost i: nat) returns (none: bool)
      requires Valid() && i < |ring| && cur == ring[i] == current && cur.next != null && cur.next.killed
      modifies this`current, this`ring, this`reclaimed, defaultTask`next, set t | t in ring
      ensures Valid() && none == (ring == []) && none == (|old(ring)| == 1)
      ensures current == if none then defaultTask else cur
      ensures ring == Without(old(ring), After(i, |old(ring)|))
      ensures reclaimed == old(reclaimed) + {old(ring)[After(i, |old(ring)|)]}
      ensures forall t | t in ring :: t in old(ring) && t.killed == old(t.killed) && t.time == old(t.time)
    {
      hide Without, Linked;
      ghost var k, was := After(i, |ring|), ring;
      LinkedAt(defaultTask, ring, i);
      if defaultTask.next == cur.next {
        if cur.next == cur {
          defaultTask.next := null;
        } else {
          defaultTask.next := cur.next.next;
        }
      }
      if cur.next == cur {
        KillTask(cur);
        current := defaultTask;
        ring := [];
        WithoutOnly(was);
        EmptyLinked(defaultTask);
        return true;
      }
      WithoutDistinct(ring, k);
      var next := cur.next;
      cur.next := cur.next.next;
      KillTask(next);
      ring := Without(ring, k);
      Relinked(defaultTask, was, i);
      none := false;
    }

    /** What the scheduler does over and over: pick the next task and run it. */
    method Step() returns (r: Task?)
      requires Valid()
      modifies this`stop, this`current, this`ring, this`reclaimed, defaultTask`next, set t | t in ring
      ensures Valid() && (r != null ==> current == r && r in ring)
      ensures stop == (old(stop) && (r == null || r == old(current)))
      ensures old(current) in old(ring) ==> View() == NextRound(old(View()), old(Killed()))
      ensures old(current) !in old(ring) ==> View() == old(View()) && ring == old(ring)
      ensures r == null ==> ring == []
      ensures AtMostOneGone(old(ring), old(Killed()), old(reclaimed), ring, reclaimed)
      ensures forall t | t in ring :: t in old(ring) && t.killed == old(t.killed) && t.time == old(t.time)
    {
      hide Rotation, PlaceOf, Dropped, Turned;
      r := GetNextTask();
      if r != null {
        TurnSeen(ring, current, r);
        SwitchTask(r);
      }
    }

    method SwitchTask(next: Task)
      requires Valid() && next in ring
      modifies this`current, this`stop
      ensures Valid() && current == next && stop == (old(stop) && next == old(current))
    {
      if current == next {
        return;
      }
      stop := false;
      current := next;
    }

    /** The running task asks to be killed. */
    method ExitProcess()
      requires Valid() && current in ring
      modifies current`killed, current`time
      ensures Valid() && current.killed && current.time == 0
      ensures forall t | t in ring && t != current :: t.killed == old(t.killed) && t.time == old(t.time)
      ensures View() == old(View()) && Killed() == old(Killed()) + {current}
    {
      hide Rotation, PlaceOf, Linked;
      current.killed := true;
      current.time := 0;
    }

    /** A timer interrupt.  True if the running task is left for the scheduling loop.
        Once a task has used up its time nothing is scheduled by ticks any more until
        another task has been switched to. */
    method Tick() returns (leaves: bool)
      requires Valid()
      modifies this`stop, this`current, this`ring, this`reclaimed, defaultTask, set t | t in ring
      ensures Valid() && stop == (old(stop) || old(current.time) <= 1)
      ensures old(stop) || old(current.time) > 1 ==>
                !leaves && ring == old(ring) && current == old(current) && reclaimed == old(reclaimed) && View() == old(View())
      ensures !old(stop) && old(current.time) <= 1 ==>
                && AtMostOneGone(old(ring), old(Killed()), old(reclaimed), ring, reclaimed)
                && (old(current) in old(ring) ==>
                      && View() == Dropped(old(View()), old(Killed()))
                      && (leaves <==> View() == [] || Turned(View())[0] != old(current)))
      ensures forall t | t in ring :: t in old(ring) && t.killed == old(t.killed)
      ensures old(current) in old(ring) && ring != [] ==> current in ring && current == old(current)
      ensures !old(stop) && current == old(current) ==>
                current.time == if old(current.time) <= 1 then DEFAULT_TIME else old(current.time) - 1
    {
      hide Rotation, PlaceOf, Dropped, Turned, Linked, AtMostOneGone;
      if stop {
        return false;
      }
      current.time := current.time - 1;
      if current.time > 0 {
        return false;
      }
      current.time := DEFAULT_TIME;
      stop := true;
      assert Killed() == old(Killed()) && View() == old(View());
      var r := GetNextTask();
      if current in ring {
        ViewMembers(ring, current);
      }
      leaves := r != current;
    }

    /** The scheduling loop: rounds until one switches to another task, k of them at most.
        From the second on they change nothing, so it does not matter how many they are. */
    method Schedule(k: nat)
      requires Valid() && stop && (current in ring || ring == []) && 2 <= k
      modifies this`stop, this`current, this`ring, this`reclaimed, defaultTask`next, set t | t in ring
      ensures Valid() && (ring != [] ==> current in ring)
      ensures old(ring) == [] ==> stop && View() == []
      ensures old(ring) != [] ==> old(View()) != [] && View() == Looped(old(View()), old(Killed()))
      ensures stop == (ring == [] || current == old(current))
      ensures forall t | t in ring :: t in old(ring) && t.killed == old(t.killed) && t.time == old(t.time)
    {
      hide Rotation, PlaceOf, Linked, AtMostOneGone, NextRound, Looped;
      ghost var c, killed, cur := View(), Killed(), current;
      ViewFacts(this);
      var i := 0;
      while stop && i < k
        invariant 0 <= i && Valid() && (current in ring || ring == [])
        invariant forall t | t in ring :: t in old(ring) && t.killed == old(t.killed) && t.time == old(t.time)
        invariant c == [] ==> stop && View() == []
        invariant i == 0 ==> View() == c && stop && current == cur && Killed() == killed
        invariant c != [] && !stop ==> View() == Looped(c, killed) && current != cur && ring != []
        invariant c != [] && 0 < i && stop ==> OnlyLeft(View(), c, killed, i)
        invariant stop && View() != [] ==> current == cur
      {
        ViewFacts(this);
        ghost var v, k0 := View(), Killed();
        var r := Step();
        ViewFacts(this);
        if v != [] {
          RoundLeft(v, k0, c, killed, i);
        }
        i := i + 1;
      }
      ViewFacts(this);
      if c != [] && stop {
        OnlyLeftEnds(View(), c, killed, i);
      }
    }

    /** The end of the running task's time: ticks until it is used up, and then the loop if
        the task is left for it. */
    method Preempt(k: nat) returns (left: bool)
      requires Valid() && current in ring && !stop && 2 <= k
      modifies this`stop, this`current, this`ring, this`reclaimed, defaultTask, set t | t in ring
      ensures Valid() && (ring != [] ==> current in ring)
      ensures old(View()) != [] && View() == Preempted(old(View()), old(Killed()))
      ensures stop == (|View()| <= 1) && left == (|Dropped(old(View()), old(Killed()))| != 1)
      ensures forall t | t in ring :: t in old(ring) && t.killed == old(t.killed)
    {
      hide Rotation, PlaceOf, Linked, AtMostOneGone, Dropped, Looped, Turned;
      ViewFacts(this);
      ghost var c, killed := View(), Killed();
      ghost var d := Dropped(c, killed);
      DroppedMembers(c, killed);
      LeavesIff(c, killed);
      left := false;
      while !stop
        invariant Valid() && (ring != [] ==> current in ring)
        invariant forall t | t in ring :: t in old(ring) && t.killed == old(t.killed)
        invariant !stop ==> !left && ring == old(ring) && current == old(current) && View() == c && Killed() == killed
        invariant stop ==> View() == d && left == (|d| != 1)
        decreases !stop, if current.time > 0 then current.time else 0
      {
        left := Tick();
      }
      ViewFacts(this);
      ghost var k0 := Killed();
      if left {
        Schedule(k);
        ViewFacts(this);
        if d != [] {
          LoopedOnce(d, killed);
          LoopedSame(d, k0, killed);
        }
      }
    }

    /** n times over, with no system call in between. */
    method RunPreempted(n: nat, k: nat)
      requires Valid() && current in ring && !stop && 2 <= k
      modifies this`stop, this`current, this`ring, this`reclaimed, defaultTask, set t | t in ring
      ensures Valid() && View() == PreemptsOf(old(View()), old(Killed()), n)
      ensures forall t | t in ring :: t in old(ring) && t.killed == old(t.killed)
    {
      hide Rotation, PlaceOf, Linked, AtMostOneGone, Preempted, Dropped;
      ghost var c, killed := View(), Killed();
      ViewFacts(this);
      var i := 0;
      while i < n && !stop
        invariant 0 <= i <= n && Valid() && (ring != [] ==> current in ring)
        invariant forall t | t in ring :: t in old(ring) && t.killed == old(t.killed)
        invariant if stop then View() == PreemptsOf(c, killed, n)
                  else View() != [] && PreemptsOf(View(), killed, n - i) == PreemptsOf(c, killed, n)
      {
        ViewFacts(this);
        PreemptedSame(View(), Killed(), killed);
        var left := Preempt(k);
        i := i + 1;
      }
    }

    /** k steps with no system call in between: k rounds on the ring, and the tasks that
        went were killed ones. */
    method Run(k: nat)
      requires Valid() && current in ring
      modifies this`stop, this`current, this`ring, this`reclaimed, defaultTask`next, set t | t in ring
      ensures Valid() && View() == RoundsOf(old(View()), old(Killed()), k)
      ensures forall t | t in ring :: t in old(ring) && t.killed == old(t.killed) && t.time == old(t.time)
    {
      hide Rotation, PlaceOf, NextRound, Linked, AtMostOneGone;
      ghost var killed := Killed();
      var i := 0;
      while i < k
        invariant 0 <= i <= k && Valid() && (current in ring || ring == [])
        invariant forall t | t in ring :: t in old(ring) && t.killed == old(t.killed) && t.time == old(t.time)
        invariant RoundsOf(View(), killed, k - i) == RoundsOf(old(View()), killed, k)
      {
        if current in ring {
          ViewMembers(ring, current);
          NextRoundSame(View(), Killed(), killed);
        }
        var r := Step();
        i := i + 1;
      }
    }

    /** Gives the memory of a task back; nothing may read the task from then on. */
    method KillTask(task: Task)
      requires task !in reclaimed
      modifies this`reclaimed, task
      ensures reclaimed == old(reclaimed) + {task}
    {
      reclaimed := reclaimed + {task};
      task.next := null;
    }
  }

  lemma ViewAt(ring: seq<Task>, i: nat)
    requires Distinct(ring) && i < |ring|
    ensures PlaceOf(ring, ring[i]) == i
  {
  }

  /** What dropping the next task looks like from the running one. */
  lemma DropSeen(ring: seq<Task>, i: nat, killed: set<Task>)
    requires Distinct(ring) && i < |ring|
    ensures PlaceOf(ring, ring[i]) == i && Turned(Rotation(ring, i))[0] == ring[After(i, |ring|)]
    ensures |ring| == 1 && ring[i] in killed ==> Dropped(Rotation(ring, i), killed) == []
    ensures ring[After(i, |ring|)] !in killed ==> Dropped(Rotation(ring, i), killed) == Rotation(ring, i)
    ensures |ring| > 1 && ring[After(i, |ring|)] in killed ==>
              var after := Without(ring, After(i, |ring|));
              ring[i] in after && Dropped(Rotation(ring, i), killed) == Rotation(after, PlaceOf(after, ring[i]))
  {
    if |ring| > 1 {
      var k := After(i, |ring|);
      var j := if i + 1 < |ring| then i else i - 1;
      DroppedAfter(ring, i, j);
      WithoutDistinct(ring, k);
      ViewAt(Without(ring, k), j);
    }
  }

  lemma HeadIs(d: Task, ring: seq<Task>)
    requires Linked(d, ring)
    ensures Distinct(ring) && d.next == if ring == [] then null else ring[0]
  {
  }

  lemma Appended(d: Task, ring: seq<Task>, task: Task)
    requires Distinct(ring) && task !in ring
    requires forall i: nat {:trigger ring[i].next} | i + 1 < |ring| :: ring[i].next == ring[i + 1]
    requires d.next == (ring + [task])[0] && task.next == d.next && (ring != [] ==> ring[|ring| - 1].next == task)
    ensures Linked(d, ring + [task])
  {
    var r := ring + [task];
    forall i: nat | i < |r|
      ensures r[i].next == r[After(i, |r|)]
    {
      assert i < |ring| ==> r[i] == ring[i];
    }
  }

  lemma LinkedAt(d: Task, ring: seq<Task>, i: nat)
    requires Linked(d, ring) && i < |ring|
    ensures Distinct(ring) && d.next == ring[0] && ring[i].next == ring[After(i, |ring|)]
    ensures ring[After(i, |ring|)].next == ring[After(After(i, |ring|), |ring|)]
    ensures forall m: nat {:trigger ring[m].next} | m < |ring| :: ring[m].next == ring[After(m, |ring|)]
  {
  }

  /** No task left the ring, or one that was killed. */
  ghost predicate AtMostOneGone(ring0: seq<Task>, killed0: set<Task>, gone0: set<Task>, ring: seq<Task>, gone: set<Task>) {
    || (ring == ring0 && gone == gone0)
    || exists k: nat :: k < |ring0| && ring0[k] in killed0 && ring == Without(ring0, k) && gone == gone0 + {ring0[k]}
  }

  /** The links around place i, and what dropping the next task looks like from there. */
  lemma Linkage(d: Task, ring: seq<Task>, i: nat, killed: set<Task>)
    requires Linked(d, ring) && (i < |ring| || i == 0)
    ensures d.next == if ring == [] then null else ring[0]
    ensures i < |ring| ==> ring[i].next == ring[After(i, |ring|)]
    ensures i < |ring| ==> PlaceOf(ring, ring[i]) == i && Turned(Rotation(ring, i))[0] == ring[After(i, |ring|)]
    ensures i < |ring| && ring[After(i, |ring|)] !in killed ==> Dropped(Rotation(ring, i), killed) == Rotation(ring, i)
    ensures |ring| == 1 && ring[0] in killed ==> i == 0 && Dropped(Rotation(ring, i), killed) == []
    ensures |ring| > 1 && ring[After(i, |ring|)] in killed ==>
              var after := Without(ring, After(i, |ring|));
              ring[i] in after && Dropped(Rotation(ring, i), killed) == Rotation(after, PlaceOf(after, ring[i]))
  {
    hide PlaceOf, Without, Rotation, Turned, Dropped;
    if i < |ring| {
      DropSeen(ring, i, killed);
    }
  }

  /** Switching to the next task turns the view, or starts it at the head. */
  lemma TurnSeen(ring: seq<Task>, cur: Task, r: Task)
    requires Distinct(ring) && ring != []
    requires r == if cur in ring then Turned(Rotation(ring, PlaceOf(ring, cur)))[0] else ring[0]
    ensures r in ring && (cur in ring ==> Rotation(ring, PlaceOf(ring, cur)) != [])
    ensures Rotation(ring, PlaceOf(ring, r)) == if cur in ring then Turned(Rotation(ring, PlaceOf(ring, cur))) else ring
  {
    if cur in ring {
      var i := PlaceOf(ring, cur);
      TurnedRotation(ring, i);
      assert Turned(Rotation(ring, i))[0] == ring[After(i, |ring|)];
      ViewAt(ring, After(i, |ring|));
    } else {
      ViewAt(ring, 0);
      assert Rotation(ring, 0) == ring;
    }
  }

  lemma WithoutOnly(ring: seq<Task>)
    requires |ring| == 1
    ensures Without(ring, 0) == []
  {
  }

  lemma ViewFacts(s: Scheduler)
    requires s.Valid() && (s.current in s.ring || s.ring == [])
    ensures Distinct(s.View()) && |s.View()| == |s.ring|
    ensures s.ring != [] ==> s.View()[0] == s.current
    ensures forall t | t in s.View() :: t in s.ring
    ensures forall t | t in s.ring :: t in s.View()
    ensures forall t | t in s.View() :: t in s.Killed() <==> t.killed
  {
    if s.current in s.ring {
      RotationMembers(s.ring, PlaceOf(s.ring, s.current));
    }
  }

  /** What i rounds that switched to no other task have left of c. */
  ghost predicate OnlyLeft(v: seq<Task>, c: seq<Task>, killed: set<Task>, i: nat)
    requires c != []
  {
    if v == [] then Looped(c, killed) == []
    else v == [c[0]] && Looped(c, killed) == Looped(v, killed) && (i > 1 ==> c[0] !in killed)
  }

  lemma RoundLeft(v: seq<Task>, k0: set<Task>, c: seq<Task>, killed: set<Task>, i: nat)
    requires Distinct(c) && c != [] && v != [] && (forall t | t in v :: t in k0 <==> t in killed)
    requires if i == 0 then v == c else OnlyLeft(v, c, killed, i)
    ensures var r := NextRound(v, k0);
            if r != [] && r[0] != c[0] then r == Looped(c, killed) else OnlyLeft(r, c, killed, i + 1)
  {
    NextRoundSame(v, k0, killed);
    var r := NextRound(v, killed);
    if i == 0 && |c| > 1 {
      LoopedOnce(c, killed);
    }
  }

  lemma OnlyLeftEnds(v: seq<Task>, c: seq<Task>, killed: set<Task>, i: nat)
    requires c != [] && OnlyLeft(v, c, killed, i) && 1 < i
    ensures v == Looped(c, killed)
  {
  }

  /** The running task is left for the loop unless it is the only one that remains. */
  lemma LeavesIff(c: seq<Task>, killed: set<Task>)
    requires Distinct(c) && c != []
    ensures var d := Dropped(c, killed); d == [] || (Turned(d)[0] != c[0] <==> |d| != 1)
  {
    DroppedMembers(c, killed);
  }

  lemma LoopedSame(c: seq<Task>, k0: set<Task>, k1: set<Task>)
    requires Distinct(c) && c != [] && forall t | t in c :: t in k0 <==> t in k1
    ensures Looped(c, k0) == Looped(c, k1)
  {
    NextRoundSame(c, k0, k1);
    if |c| > 1 {
      assert c[0] in c && c[1] in c;
      LoopedOnce(c, k0);
      LoopedOnce(c, k1);
    }
  }

  /** Left to the timer, the scheduler gets rid of all killed tasks exactly if some task is
      alive or the number of tasks is odd. */
  lemma KilledGoIff(s: Scheduler)
    requires s.Valid() && s.current in s.ring
    ensures (exists k: nat :: forall t | t in PreemptsOf(s.View(), s.Killed(), k) :: !t.killed)
            <==> (exists t :: t in s.ring && !t.killed) || |s.ring| % 2 == 1
  {
    hide PreemptsOf, Rotation, PlaceOf;
    ghost var c, killed := s.View(), s.Killed();
    ViewFacts(s);
    AllReclaimedIff(c, killed);
    forall k: nat
      ensures NoneKilled(PreemptsOf(c, killed, k), killed) <==> forall t | t in PreemptsOf(c, killed, k) :: !t.killed
    {
      AliveKept(c, killed, k);
    }
  }

  /** In scheduling steps that follow each other directly, all killed tasks go and no other. */
  lemma KilledGo(s: Scheduler) returns (k: nat)
    requires s.Valid() && s.current in s.ring && s.Killed() != {}
    ensures forall t | t in RoundsOf(s.View(), s.Killed(), k) :: t in s.ring && !t.killed
    ensures forall t | t in s.ring && !t.killed :: t in RoundsOf(s.View(), s.Killed(), k)
  {
    hide RoundsOf, Rotation, PlaceOf;
    var c := s.View();
    RotationMembers(s.ring, PlaceOf(s.ring, s.current));
    ghost var killed := s.Killed();
    assert forall u | u in c :: u in s.ring;
    var t :| t in killed;
    assert t in c;
    var i :| 0 <= i < |c| && c[i] == t;
    k := KilledAreDropped(c, killed, if i == 0 then |c| else i);
    forall u | u in RoundsOf(c, killed, k)
      ensures u in s.ring && !u.killed
    {
      assert u in c && u !in killed;
    }
  }

  lemma ViewMembers(ring: seq<Task>, cur: Task)
    requires cur in ring
    ensures forall t | t in Rotation(ring, PlaceOf(ring, cur)) :: t in ring
    ensures Rotation(ring, PlaceOf(ring, cur)) != []
  {
  }

  lemma EmptyLinked(d: Task)
    requires d.next == null
    ensures Linked(d, [])
  {
  }

  /** Unlinking the task after place i keeps the list circular. */
  lemma Relinked(d: Task, was: seq<Task>, i: nat)
    requires Distinct(was) && i < |was| && 1 < |was|
    requires was[i].next == was[After(After(i, |was|), |was|)]
    requires forall m: nat {:trigger was[m].next} | m < |was| && m != i && m != After(i, |was|) ::
               was[m].next == was[After(m, |was|)]
    requires d.next == was[if After(i, |was|) == 0 then 1 else 0]
    ensures Linked(d, Without(was, After(i, |was|)))
  {
    var k := After(i, |was|);
    var ring := Without(was, k);
    WithoutDistinct(was, k);
    forall m: nat | m < |ring|
      ensures ring[m].next == ring[After(m, |ring|)]
    {
      var o := if m < k then m else m + 1;
      assert ring[m] == was[o];
      assert was[o].next == was[After(if o == i then k else o, |was|)];
    }
  }

  ghost predicate Linked(d: Task, ring: seq<Task>)
    reads d`next, ring`next
  {
    && Distinct(ring)
    && d.next == (if ring == [] then null else ring[0])
    && forall i: nat {:trigger ring[i].next} | i < |ring| :: ring[i].next == ring[After(i, |ring|)]
  }

  ghost function PlaceOf(ring: seq<Task>, t: Task): (i: nat)
    requires t in ring
    ensures i < |ring| && ring[i] == t
  {
    var i: nat :| i < |ring| && ring[i] == t;
    i
  }

  lemma ThreeTurns<T>(a: T, b: T, c: T)
    requires a != b && b != c && a != c
    ensures Preempted([a, b, c], {}) == [b, c, a] && Preempted([b, c, a], {b}) == [c, a, b]
    ensures Preempted([c, a, b], {b, c}) == [a, b, c] && Preempted([a, b, c], {b, c}) == [a]
    ensures Dropped([a, b, c], {b, c}) == [a, c] && Turned([a, c]) == [c, a]
  {
    hide Preempted;
    PreemptTurns([a, b, c], {});
    PreemptTurns([b, c, a], {b});
    PreemptTurns([c, a, b], {b, c});
    LastOfThree(a, b, c);
  }

  lemma LastOfThree<T>(a: T, b: T, c: T)
    requires a != b && b != c && a != c
    ensures Preempted([a, b, c], {b, c}) == [a]
  {
    LoopedOnce([a, c], {b, c});
  }

  lemma FourTurns<T>(a: T, b: T, c: T, d: T)
    requires Distinct([a, b, c, d])
    ensures Preempted([a, b, c, d], {}) == [b, c, d, a] && Preempted([b, c, d, a], {b}) == [c, d, a, b]
    ensures Preempted([c, d, a, b], {b, c}) == [d, a, b, c] && Preempted([d, a, b, c], {b, c, d}) == [a, b, c, d]
    ensures Preempted([a, b, c, d], {b, c, d}) == [d, a]
  {
    var v := [a, b, c, d];
    assert v[0] != v[1] && v[0] != v[2] && v[0] != v[3] && v[1] != v[2] && v[1] != v[3] && v[2] != v[3];
    hide Preempted;
    PreemptTurns([a, b, c, d], {});
    PreemptTurns([b, c, d, a], {b});
    PreemptTurns([c, d, a, b], {b, c});
    PreemptTurns([d, a, b, c], {b, c, d});
    ThreeAfter(a, b, c, d);
  }

  lemma ThreeAfter<T>(a: T, b: T, c: T, d: T)
    requires a != b && a != c && a != d && b != c && b != d && c != d
    ensures Preempted([a, b, c, d], {b, c, d}) == [d, a]
  {
    LoopedOnce([a, c, d], {b, c, d});
  }

  /** What is known of a scheduler: its ring from the running task on, and the killed ones. */
  ghost predicate Seen(s: Scheduler, v: seq<Task>, killed: set<Task>)
    reads s, s.defaultTask, s.ring
  {
    && s.Valid() && s.current in s.ring && s.View() == v && s.Killed() == killed
    && v != [] && v[0] == s.current && forall t | t in s.ring :: t in v
  }

  ghost function Kept(killed: set<Task>, v: seq<Task>): set<Task> {
    set t | t in killed && t in v
  }

  /** The end of a task's time, after which the ring is v2. */
  method PreemptSeen(s: Scheduler, ghost v: seq<Task>, ghost killed: set<Task>, ghost v2: seq<Task>, k: nat)
    returns (left: bool)
    requires Seen(s, v, killed) && !s.stop && v2 == Preempted(v, killed) && v2 != [] && 2 <= k
    modifies s, s.defaultTask, set t | t in v
    ensures Seen(s, v2, Kept(killed, v2)) && s.stop == (|v2| == 1) && left == (|Dropped(v, killed)| != 1)
  {
    hide Rotation, PlaceOf, Linked, AtMostOneGone, Preempted, Dropped;
    left := s.Preempt(k);
    SeenMembers(s);
  }

  lemma SeenMembers(s: Scheduler)
    requires s.Valid()
    ensures s.current !in s.ring ==> s.View() == s.ring
    ensures s.current in s.ring ==> s.View() != [] && s.View()[0] == s.current
    ensures forall t | t in s.View() :: t in s.ring
    ensures forall t | t in s.ring :: t in s.View()
  {
    if s.current in s.ring {
      RotationMembers(s.ring, PlaceOf(s.ring, s.current));
    }
  }

  method ExitSeen(s: Scheduler, ghost v: seq<Task>, ghost killed: set<Task>)
    requires Seen(s, v, killed)
    modifies set t | t in v
    ensures Seen(s, v, killed + {v[0]})
    ensures forall t | t in v && t != v[0] :: t.time == old(t.time)
  {
    hide Rotation, PlaceOf, Linked;
    s.ExitProcess();
  }

  /** A scheduler whose n tasks are alive, with the first one running. */
  method Started(n: nat) returns (s: Scheduler, ghost v: seq<Task>)
    requires 0 < n
    ensures fresh(s) && fresh(s.defaultTask) && |v| == n && Distinct(v) && Seen(s, v, {})
    ensures !s.stop && forall t | t in v :: fresh(t) && t.time == DEFAULT_TIME
  {
    hide Rotation, PlaceOf, Linked, AtMostOneGone;
    s := new Scheduler();
    var i := 0;
    while i < n
      invariant 0 <= i <= n && fresh(s) && fresh(s.defaultTask) && s.Valid() && |s.ring| == i
      invariant s.current == s.defaultTask && s.stop
      invariant forall t | t in s.ring :: fresh(t) && !t.killed && t.time == DEFAULT_TIME
    {
      var task := new Task();
      var pid := s.AddTask(task);
      i := i + 1;
    }
    v := s.ring;
    HeadIs(s.defaultTask, v);
    var r := s.Step();
    SeenMembers(s);
  }

  /** Two of three tasks exit, one after the other, and the third runs again. */
  method TwoExit() returns (s: Scheduler, ghost v: seq<Task>)
    ensures fresh(s) && fresh(s.defaultTask) && |v| == 3 && Distinct(v) && Seen(s, v, {v[1], v[2]})
    ensures !s.stop && forall t | t in v :: fresh(t)
  {
    hide Seen, Preempted, Dropped;
    s, v := Started(3);
    ghost var a, b, c := v[0], v[1], v[2];
    ThreeTurns(a, b, c);
    assert v == [a, b, c] && {} + {b} == {b} && {b} + {c} == {b, c};
    assert Kept({}, [b, c, a]) == {} && Kept({b}, [c, a, b]) == {b} && Kept({b, c}, [a, b, c]) == {b, c};
    var left := PreemptSeen(s, [a, b, c], {}, [b, c, a], 2);
    ExitSeen(s, [b, c, a], {});
    left := PreemptSeen(s, [b, c, a], {b}, [c, a, b], 2);
    ExitSeen(s, [c, a, b], {b});
    left := PreemptSeen(s, [c, a, b], {b, c}, [a, b, c], 2);
  }

  /** The task picked to follow it is then a killed one. */
  method KilledTaskPicked() returns (r: Task?)
    ensures r != null && r.killed
  {
    hide Seen, Preempted;
    ghost var v;
    var s;
    s, v := TwoExit();
    ThreeTurns(v[0], v[1], v[2]);
    assert v == [v[0], v[1], v[2]];
    r := PickSeen(s, v, {v[1], v[2]});
  }

  /** And once its time is up it is left for the scheduling loop, which goes on picking it
      without resuming it, however many rounds it makes. */
  method LiveTaskStuck(rounds: nat) returns (left: bool, s: Scheduler, ghost a: Task)
    ensures left && s.current == a && !a.killed && s.stop
  {
    hide Seen, Preempted, Turned, Dropped;
    ghost var v;
    s, v := TwoExit();
    a := v[0];
    ghost var b, c := v[1], v[2];
    ThreeTurns(a, b, c);
    assert v == [a, b, c] && Kept({b, c}, [a]) == {};
    left := PreemptSeen(s, v, {b, c}, [a], rounds + 2);
    SeenFirst(s, [a], {});
  }

  /** Three of four tasks exit, one after the other, and when the fourth has run the timer
      and the loop switch to a killed one. */
  method KilledTaskRuns() returns (s: Scheduler)
    ensures s.current.killed && !s.stop
  {
    hide Seen, Preempted, Dropped;
    ghost var v;
    s, v := Started(4);
    ghost var a, b, c, d := v[0], v[1], v[2], v[3];
    assert v == [a, b, c, d];
    FourTurns(a, b, c, d);
    assert {} + {b} == {b} && {b} + {c} == {b, c} && {b, c} + {d} == {b, c, d};
    assert Kept({}, [b, c, d, a]) == {} && Kept({b}, [c, d, a, b]) == {b} && Kept({b, c}, [d, a, b, c]) == {b, c};
    assert Kept({b, c, d}, [a, b, c, d]) == {b, c, d} && d in Kept({b, c, d}, [d, a]);
    var left := PreemptSeen(s, [a, b, c, d], {}, [b, c, d, a], 2);
    ExitSeen(s, [b, c, d, a], {});
    left := PreemptSeen(s, [b, c, d, a], {b}, [c, d, a, b], 2);
    ExitSeen(s, [c, d, a, b], {b});
    left := PreemptSeen(s, [c, d, a, b], {b, c}, [d, a, b, c], 2);
    ExitSeen(s, [d, a, b, c], {b, c});
    left := PreemptSeen(s, [d, a, b, c], {b, c, d}, [a, b, c, d], 2);
    left := PreemptSeen(s, [a, b, c, d], {b, c, d}, [d, a], 2);
    SeenFirst(s, [d, a], Kept({b, c, d}, [d, a]));
  }

  /** Two tasks exit, one after the other, and the time of the second one ends. */
  method BothExit() returns (s: Scheduler)
    ensures fresh(s) && fresh(s.defaultTask) && s.Valid() && s.stop && s.current in s.ring && s.current.killed
    ensures forall t | t in s.ring :: fresh(t)
  {
    hide Seen, Preempted, Dropped;
    ghost var v;
    s, v := Started(2);
    ghost var a, b := v[0], v[1];
    assert b in v && fresh(b);
    TwoPreempted(a, b);
    assert v == [a, b] && {} + {a} == {a} && {a} + {b} == {a, b};
    assert Kept({a}, [b, a]) == {a} && Kept({a, b}, [b]) == {b};
    ExitSeen(s, [a, b], {});
    var left := PreemptSeen(s, [a, b], {a}, [b, a], 2);
    ExitSeen(s, [b, a], {a});
    left := PreemptSeen(s, [b, a], {a, b}, [b], 2);
    SeenFirst(s, [b], {b});
    SeenTasks(s, [b], {b});
    assert forall t | t in s.ring :: t == b;
  }

  lemma SeenTasks(s: Scheduler, v: seq<Task>, killed: set<Task>)
    requires Seen(s, v, killed)
    ensures forall t | t in s.ring :: t in v
  {
  }

  /** The second one is never reclaimed, and nothing else runs however many ticks follow. */
  method KilledTaskStays(ticks: nat) returns (s: Scheduler)
    ensures s.current.killed && s.current in s.ring && s.stop
  {
    hide Rotation, PlaceOf, Linked, AtMostOneGone, Preempted, Dropped;
    s := BothExit();
    var i := 0;
    while i < ticks
      invariant 0 <= i && s.Valid() && s.stop && s.current in s.ring && s.current.killed
      invariant fresh(s) && fresh(s.defaultTask) && forall t | t in s.ring :: fresh(t)
    {
      var left := s.Tick();
      i := i + 1;
    }
  }

  lemma TwoPreempted<T>(a: T, b: T)
    requires a != b
    ensures Preempted([a, b], {a}) == [b, a] && Preempted([b, a], {a, b}) == [b]
  {
    LoopedOnce([a, b], {a});
  }

  lemma SeenFirst(s: Scheduler, v: seq<Task>, killed: set<Task>)
    requires Seen(s, v, killed)
    ensures s.Valid() && s.current == v[0] && s.current in s.ring && (v[0].killed <==> v[0] in killed)
  {
  }

  lemma DroppedFirst<T>(c: seq<T>, killed: set<T>)
    requires c != [] && c[0] !in killed
    ensures Dropped(c, killed) != [] && Dropped(c, killed)[0] == c[0]
    ensures forall t | t in Dropped(c, killed) :: t in c
  {
  }

  method TickSeen(s: Scheduler, ghost v: seq<Task>, ghost killed: set<Task>) returns (left: bool)
    requires Seen(s, v, killed) && !s.stop && v[0] !in killed
    modifies s, s.defaultTask, set t | t in v
    ensures s.stop == (old(v[0].time) <= 1)
    ensures !s.stop ==> !left && Seen(s, v, killed) && v[0].time == old(v[0].time) - 1
    ensures s.stop ==> Dropped(v, killed) != [] && left == (Turned(Dropped(v, killed))[0] != v[0])
    ensures s.stop ==> Seen(s, Dropped(v, killed), Kept(killed, Dropped(v, killed)))
  {
    hide Rotation, PlaceOf, Linked, AtMostOneGone, Turned, Dropped;
    DroppedFirst(v, killed);
    left := s.Tick();
    SeenMembers(s);
  }

  method PickSeen(s: Scheduler, ghost v: seq<Task>, ghost killed: set<Task>) returns (r: Task?)
    requires Seen(s, v, killed) && Dropped(v, killed) != []
    modifies s, s.defaultTask, set t | t in v
    ensures r == Turned(Dropped(v, killed))[0] && (r in killed ==> r.killed)
  {
    hide Rotation, PlaceOf, Linked, AtMostOneGone, Turned, Dropped;
    r := s.GetNextTask();
    SeenMembers(s);
  }

  /** A task runs for five ticks and is left for the next one at the fifth. */
  method FiveTicks() returns (fourth: bool, fifth: bool)
    ensures !fourth && fifth
  {
    hide Seen, Turned, Dropped;
    ghost var v;
    var s;
    s, v := Started(2);
    assert v == [v[0], v[1]];
    TwoStay(v[0], v[1]);
    var i := 0;
    fourth := false;
    while i < 4
      invariant 0 <= i <= 4 && !fourth && Seen(s, v, {}) && !s.stop && v[0].time == 5 - i
      invariant fresh(s) && fresh(s.defaultTask) && forall t | t in v :: fresh(t)
    {
      fourth := TickSeen(s, v, {});
      i := i + 1;
    }
    fifth := TickSeen(s, v, {});
  }

  lemma TwoStay<T>(a: T, b: T)
    requires a != b
    ensures Dropped([a, b], {}) == [a, b] && Turned([a, b])[0] == b
  {
  }

  /** A task that has used up its time alone is not preempted any more, although another
      task has been added since. */
  method LoneTaskKeepsRunning(n: nat) returns (s: Scheduler, a: Task, b: Task)
    ensures s.current == a && !a.killed && b in s.ring && b != a && !b.killed
  {
    hide Rotation, PlaceOf, Linked, AtMostOneGone;
    s := new Scheduler();
    a := new Task();
    ghost var v := [a];
    var pid := s.AddTask(a);
    var r := s.Step();
    SeenMembers(s);
    AloneDropped(a);
    assert s.ring == v && Seen(s, v, {});
    var left;
    var i := DEFAULT_TIME;
    while i > 0
      invariant 0 <= i <= DEFAULT_TIME && Seen(s, v, {}) && s.stop == (i == 0)
      invariant i > 0 ==> a.time == i
    {
      left := TickSeen(s, v, {});
      assert Kept({}, v) == {};
      i := i - 1;
    }
    b := new Task();
    pid := s.AddTask(b);
    while i < n
      invariant 0 <= i && s.Valid() && s.stop && s.current == a && !a.killed && !b.killed && b in s.ring
      invariant forall t | t in s.ring :: t == a || t == b
    {
      left := s.Tick();
      i := i + 1;
    }
  }

  lemma AloneDropped<T>(t: T)
    ensures Dropped([t], {}) == [t]
  {
  }
}
