/**
 The scheduler as it runs: tasks linked into a circular intrusive ring, the running task, the time
 slice, and the sleep list with its swap-remove wake loop. The methods refine RoundRobin.
 */
module Scheduler {
  import opened Lists
  import opened RoundRobin

  datatype TaskState = Created | Ready | Running | Blocked | Zombie | Dead

  class Task {
    var state: TaskState
    var timeSlice: nat
    var totalTicks: nat
    var wakeTick: nat
    var next: Task?
    var prev: Task?

    /** The scheduling fields sched_alloc_task sets. */
    constructor ()
      ensures state == Created && timeSlice == TIMESLICE && totalTicks == 0 && next == null && prev == null
    {
      state, timeSlice, totalTicks, wakeTick, next, prev := Created, TIMESLICE, 0, 0, null, null;
    }
  }

  // ---------------------------------------------------------------- ring indices

  function Next(i: nat, n: nat): (j: nat)
    requires i < n
    ensures j < n
  {
    if i + 1 == n then 0 else i + 1
  }

  function Prev(i: nat, n: nat): (j: nat)
    requires i < n
    ensures j < n
  {
    if i == 0 then n - 1 else i - 1
  }

  /** Where entry i of Without(q, k) stood in q. */
  function Source(i: nat, k: nat): (j: nat) {
    if i < k then i else i + 1
  }

  /** The neighbours of entry a once entry k is skipped. */
  function Skip(a: nat, k: nat, n: nat): (j: nat)
    requires a < n && k < n
    ensures j < n
  {
    if Next(a, n) == k then Next(k, n) else Next(a, n)
  }

  function SkipBack(a: nat, k: nat, n: nat): (j: nat)
    requires a < n && k < n
    ensures j < n
  {
    if Prev(a, n) == k then Prev(k, n) else Prev(a, n)
  }

  lemma NeighbourIndices(k: nat, n: nat)
    requires k < n
    ensures forall a :: 0 <= a < n ==> (Next(a, n) == k <==> a == Prev(k, n))
    ensures forall a :: 0 <= a < n ==> (Prev(a, n) == k <==> a == Next(k, n))
  {
  }

  lemma WithoutEntries<T>(q: seq<T>, k: nat)
    requires k < |q|
    ensures |Without(q, k)| == |q| - 1
    ensures forall i :: 0 <= i < |q| - 1 ==> Without(q, k)[i] == q[Source(i, k)]
    ensures Distinct(q) ==> Distinct(Without(q, k))
  {
  }

  lemma HeadGone<T>(q: seq<T>)
    requires q != [] && Distinct(q)
    ensures Without(q, 0) == q[1..] && q[0] !in q[1..] && forall t :: t in q[1..] ==> t in q
  {
  }

  lemma NeighboursWithout(i: nat, k: nat, n: nat)
    requires 2 <= n && k < n && i < n - 1
    ensures Source(Next(i, n - 1), k) == Skip(Source(i, k), k, n)
    ensures Source(Prev(i, n - 1), k) == SkipBack(Source(i, k), k, n)
  {
  }

  // ---------------------------------------------------------------- the sleep list

  /** The removal of the source: the last entry moves into slot i. */
  function SwapRemoved<T>(q: seq<T>, i: nat): (r: seq<T>)
    requires i < |q|
  {
    q[i := q[|q| - 1]][..|q| - 1]
  }

  lemma SwapRemoveCounts<T>(q: seq<T>, i: nat)
    requires i < |q|
    ensures multiset(SwapRemoved(q, i)) == multiset(q) - multiset{q[i]}
    ensures forall j :: 0 <= j < i && j < |q| - 1 ==> SwapRemoved(q, i)[j] == q[j]
  {
    var n := |q| - 1;
    var init, last := q[..n], q[n];
    assert q == init + [last];
    if i == n {
      assert SwapRemoved(q, i) == init;
    } else {
      assert SwapRemoved(q, i) == init[i := last];
      ReplacedCounts(init, i, last);
    }
  }

  lemma ReplacedCounts<T>(q: seq<T>, i: nat, x: T)
    requires i < |q|
    ensures multiset(q[i := x]) == multiset(q) + multiset{x} - multiset{q[i]}
  {
  }

  /** Every woken task has lost one entry of the list for each time it was woken, everything else none. */
  ghost predicate Counted(before: seq<Task?>, after: seq<Task?>, woken: seq<Task?>) {
    multiset(after) + multiset(woken) == multiset(before)
  }

  lemma CountedStep(before: seq<Task?>, q: seq<Task?>, r: seq<Task?>, woken: seq<Task?>, i: nat)
    requires Counted(before, q, woken) && i < |q|
    requires multiset(r) == multiset(q) - multiset{q[i]}
    ensures Counted(before, r, woken + [q[i]])
  {
    assert q[i] in multiset(q);
    assert multiset(woken + [q[i]]) == multiset(woken) + multiset{q[i]};
  }

  lemma StillListed(before: seq<Task?>, after: seq<Task?>, woken: seq<Task?>, t: Task?)
    requires Counted(before, after, woken) && t in before && t !in woken
    ensures t in after
  {
    assert t in multiset(before);
    assert t !in multiset(woken);
    assert t in multiset(after);
  }

  lemma WasListed(before: seq<Task?>, after: seq<Task?>, woken: seq<Task?>, t: Task?)
    requires Counted(before, after, woken) && t in after
    ensures t in before
  {
    assert t in multiset(after);
    assert t in multiset(before);
  }

  lemma NothingWoken(q: seq<Task?>)
    ensures Distinct<Task>([]) && Counted(q, q, [])
  {
  }

  lemma OneMoreDistinct<T>(q: seq<T>, t: T)
    requires Distinct(q) && t !in q
    ensures Distinct(q + [t])
  {
  }

  lemma SwapRemovedMembers<T>(q: seq<T>, i: nat)
    requires i < |q|
    ensures |SwapRemoved(q, i)| == |q| - 1 && forall x :: x in SwapRemoved(q, i) ==> x in q
  {
  }

  // ---------------------------------------------------------------- the scheduler

  /** A switch that happened, one that left the guard up, one that stored through a null link. */
  datatype Outcome = Done | GuardLeft | NullLink

  class Scheduler {
    var head: Task?
    var current: Task
    const idle: Task
    var inSched: bool
    var tickCount: nat
    var sleepList: seq<Task?>

    ghost var ring: seq<Task> // the tasks of the ring from the head on
    ghost var tasks: set<Task> // all tasks there are

    ghost predicate Linked()
      reads this, ring
    {
      && head == (if ring == [] then null else ring[0])
      && Distinct(ring)
      && (forall i {:trigger ring[i].next} :: 0 <= i < |ring| ==> ring[i].next == ring[Next(i, |ring|)])
      && (forall i {:trigger ring[i].prev} :: 0 <= i < |ring| ==> ring[i].prev == ring[Prev(i, |ring|)])
    }

    ghost predicate Known()
      reads this
    {
      && (forall t :: t in ring ==> t in tasks)
      && current in tasks && idle in tasks
      && (forall t :: t in sleepList && t != null ==> t in tasks)
    }

    /** Off the ring the idle task has no neighbours. */
    ghost predicate IdleLinks()
      reads this, idle
    {
      idle !in ring ==> idle.next == null && idle.prev == null
    }

    /** Between calls: a duplicate-free ring of ready tasks without the running one, and the guard down. */
    ghost predicate Valid()
      reads this, tasks, ring, idle
    {
      && Known() && Linked() && IdleLinks()
      && (forall t :: t in ring ==> t.state == Ready)
      && current !in ring && current.state == Running
      && 1 <= current.timeSlice <= TIMESLICE
      && !inSched
    }

    ghost function View(): (s: Sched<Task>)
      reads this, current
    {
      Sched(ring, current, current.timeSlice)
    }

    /** sched_init: the boot task runs with a slice of 1, the idle task waits. */
    constructor (boot: Task, idleTask: Task)
      requires boot != idleTask
      modifies boot, idleTask
      ensures Valid() && ring == [idleTask] && current == boot && idle == idleTask && sleepList == []
      ensures boot.timeSlice == 1 && tasks == {boot, idleTask}
    {
      head, current, idle, inSched, tickCount, sleepList := idleTask, boot, idleTask, false, 0, [];
      ring, tasks := [idleTask], {boot, idleTask};
      new;
      boot.state, boot.timeSlice := Running, 1;
      idleTask.next, idleTask.prev, idleTask.state := idleTask, idleTask, Ready;
    }

    /** run_queue_add. */
    method Add(t: Task)
      requires Linked() && t !in ring
      modifies this`head, this`ring, ring, t
      ensures Linked() && ring == old(ring) + [t] && t.state == Ready
      ensures forall x: Task :: old(allocated(x)) && x != t ==> x.state == old(x.state)
      ensures forall x: Task :: old(allocated(x)) ==>
                x.timeSlice == old(x.timeSlice) && x.wakeTick == old(x.wakeTick) && x.totalTicks == old(x.totalTicks)
    {
      if head == null {
        t.next, t.prev := t, t;
        head := t;
      } else {
        var tail := head.prev;
        assert tail == ring[|ring| - 1];
        tail.next := t;
        t.prev := tail;
        t.next := head;
        head.prev := t;
      }
      t.state := Ready;
      ring := ring + [t];
    }

    /** The link updates of run_queue_remove: the neighbours of entry k now point past it. */
    method Unlink(t: Task, ghost k: nat)
      requires Linked() && k < |ring| && ring[k] == t
      modifies this`head, ring
      ensures head == if |ring| == 1 then null else if k == 0 then ring[Next(k, |ring|)] else old(head)
      ensures t.next == null && t.prev == null
      ensures forall a :: 0 <= a < |ring| && a != k ==> ring[a].next == ring[Skip(a, k, |ring|)]
      ensures forall a :: 0 <= a < |ring| && a != k ==> ring[a].prev == ring[SkipBack(a, k, |ring|)]
      ensures forall x: Task :: old(allocated(x)) ==>
                && x.state == old(x.state) && x.timeSlice == old(x.timeSlice)
                && x.wakeTick == old(x.wakeTick) && x.totalTicks == old(x.totalTicks)
    {
      ghost var n := |ring|;
      NeighbourIndices(k, n);
      assert forall a :: 0 <= a < n ==> (ring[a] == t.prev <==> a == Prev(k, n));
      assert forall a :: 0 <= a < n ==> (ring[a] == t.next <==> a == Next(k, n));
      if t.next == t {
        assert Next(k, n) == k;
        head := null;
      } else {
        t.prev.next := t.next;
        t.next.prev := t.prev;
        if head == t {
          head := t.next;
        }
      }
      t.next, t.prev := null, null;
    }

    /** run_queue_remove of the task at position k of the ring. */
    method Remove(t: Task, ghost k: nat)
      requires Linked() && k < |ring| && ring[k] == t
      modifies this`head, this`ring, ring
      ensures Linked() && ring == Without(old(ring), k) && t.next == null && t.prev == null
      ensures forall x: Task :: old(allocated(x)) ==>
                && x.state == old(x.state) && x.timeSlice == old(x.timeSlice)
                && x.wakeTick == old(x.wakeTick) && x.totalTicks == old(x.totalTicks)
    {
      Unlink(t, k);
      ghost var r := ring;
      ring := Without(ring, k);
      WithoutEntries(r, k);
      forall i | 0 <= i < |ring|
        ensures ring[i].next == ring[Next(i, |ring|)] && ring[i].prev == ring[Prev(i, |ring|)]
      {
        NeighboursWithout(i, k, |r|);
        assert ring[i] == r[Source(i, k)];
      }
    }

    /** sched_pick_next: the first ready task from the head on, or idle. */
    method PickNext() returns (next: Task, ghost k: nat)
      requires Linked()
      ensures k <= |ring| && forall i :: 0 <= i < k ==> ring[i].state != Ready
      ensures k < |ring| ==> next == ring[k] && next.state == Ready
      ensures k == |ring| ==> next == idle
      ensures (forall t :: t in ring ==> t.state != Ready) ==> next == idle
      ensures next != idle ==> next in ring && next.state == Ready
    {
      k := 0;
      if head == null {
        return idle, k;
      }
      var t: Task := head;
      while true
        invariant k < |ring| && t == ring[k]
        invariant forall i :: 0 <= i < k ==> ring[i].state != Ready
        decreases |ring| - k
      {
        if t.state == Ready {
          return t, k;
        }
        t := t.next;
        k := k + 1;
        if t == head {
          assert k == |ring|;
          return idle, k;
        }
      }
    }

    /** The first half of sched_do_switch: the running task becomes ready and, unless idle, joins the tail. */
    method Requeue()
      requires Known() && Linked() && IdleLinks() && (forall t :: t in ring ==> t.state == Ready)
      requires current !in ring
      modifies this`head, this`ring, tasks
      ensures Known() && Linked() && IdleLinks() && (forall t :: t in ring ==> t.state == Ready)
      ensures ring == old(ring) + (if current == idle then [] else [current])
      ensures forall x :: x in tasks && x != current ==> x.state == old(x.state)
      ensures forall x :: x in tasks ==> x.wakeTick == old(x.wakeTick)
    {
      current.state := Ready;
      if current != idle {
        Add(current);
        assert forall t :: t in ring ==> t in old(ring) || t == current;
      }
    }

    /** The second half: the head of the ring leaves it and runs with a full slice; the guard comes down. */
    method RunHead(next: Task)
      requires Known() && Linked() && IdleLinks() && (forall t :: t in ring ==> t.state == Ready)
      requires ring != [] && next == ring[0]
      modifies this`head, this`ring, this`current, this`inSched, ring
      ensures Valid()
      ensures ring == old(ring)[1..] && current == next && next.timeSlice == TIMESLICE
      ensures forall x: Task :: old(allocated(x)) && x != next ==> x.state == old(x.state)
      ensures forall x: Task :: old(allocated(x)) ==> x.wakeTick == old(x.wakeTick)
    {
      HeadGone(ring);
      hide Without;
      hide Distinct;
      Remove(next, 0);
      assert Linked() && next !in ring;
      next.state := Running;
      next.timeSlice := TIMESLICE;
      current := next;
      inSched := false;
    }

    /**
     sched_do_switch to what sched_pick_next chose: the head of the ring, or idle when the ring is empty. With an
     empty ring the switch does not happen: idle is its own successor and the guard stays up, or idle is unlinked
     through its null links after the running task was queued.
     */
    method DoSwitch(next: Task) returns (o: Outcome)
      requires Known() && Linked() && IdleLinks() && (forall t :: t in ring ==> t.state == Ready)
      requires current !in ring && current.state == Running && inSched
      requires next == if ring == [] then idle else ring[0]
      modifies this`head, this`ring, this`current, this`inSched, tasks
      ensures o == OutcomeOf(old(ring), old(current))
      ensures o.Done? ==> Valid() && View() == Switch(old(View()), idle)
      ensures o.GuardLeft? ==> inSched && View() == old(View())
      ensures o.NullLink? ==> inSched && current == old(current) && ring == [current] && idle.prev == null
      ensures forall x :: x in tasks && x != old(current) && x != next ==> x.state == old(x.state)
      ensures forall x :: x in tasks ==> x.wakeTick == old(x.wakeTick)
    {
      hide Distinct;
      if next == current {
        return GuardLeft;
      }
      ghost var q := ring;
      if current.state == Running {
        Requeue();
      }
      if next.next != next && (next.next == null || next.prev == null) {
        return NullLink;
      }
      RunHead(next);
      assert ring == q[1..] + (if old(current) == idle then [] else [old(current)]);
      o := Done;
    }

    /** sched_yield. */
    method YieldNow() returns (o: Outcome)
      requires Valid()
      modifies this, tasks
      ensures tasks == old(tasks) && o == OutcomeOf(old(ring), old(current))
      ensures old(ring) != [] ==>
                && o.Done? && current == old(ring)[0] && current.state == Running && current.timeSlice == 20
                && ring == old(ring)[1..] + (if old(current) == idle then [] else [old(current)])
      ensures old(ring) == [] ==> o == if old(current) == idle then GuardLeft else NullLink
      ensures o.Done? ==> Valid() && View() == Step(old(View()), idle, Event.Yield)
      ensures o.GuardLeft? ==> inSched && View() == old(View())
      ensures o.NullLink? ==> inSched && current == old(current) && ring == [current] && idle.prev == null
    {
      inSched := true;
      var next, k := PickNext();
      assert ring != [] ==> ring[0] in ring;
      o := DoSwitch(next);
    }

    /** sched_enqueue of a task that is not queued yet. */
    method EnqueueTask(t: Task)
      requires Valid() && t !in ring && t != current
      modifies this, tasks, t
      ensures Valid() && tasks == old(tasks) + {t}
      ensures View() == Step(old(View()), idle, Event.Enqueue(t))
    {
      Add(t);
      tasks := tasks + {t};
      assert forall x :: x in ring ==> x in old(ring) || x == t;
    }

    ghost predicate IsDue(t: Task?, tick: nat)
      reads t
    {
      t != null && t.state == Blocked && tick >= t.wakeTick
    }

    /**
     sched_check_sleepers. Each blocked and due task of the list, however often it is listed, joins the
     ring exactly once and loses exactly one entry; nothing due stays; nothing else changes.
     */
    method CheckSleepers(tick: nat) returns (ghost woken: seq<Task>)
      requires Valid()
      modifies this`head, this`ring, this`sleepList, tasks
      ensures Valid() && ring == old(ring) + woken && Distinct(woken)
      ensures forall t :: t in woken ==> t in old(sleepList) && old(IsDue(t, tick))
      ensures forall t :: t in old(sleepList) && t != null && old(IsDue(t, tick)) ==> t in woken
      ensures forall t :: t in sleepList ==> !IsDue(t, tick)
      ensures Counted(old(sleepList), sleepList, woken)
      ensures forall t :: t in tasks && t !in woken ==> t.state == old(t.state)
      ensures forall t :: t in tasks ==> t.timeSlice == old(t.timeSlice) && t.wakeTick == old(t.wakeTick)
    {
      hide Counted;
      hide SwapRemoved;
      hide Linked;
      hide Distinct;
      woken := [];
      var i := 0;
      assert Distinct<Task>([]) && Counted(sleepList, sleepList, []) by { NothingWoken(sleepList); }
      while i < |sleepList|
        invariant i <= |sleepList| && Valid() && ring == old(ring) + woken && Distinct(woken)
        invariant forall t :: t in woken ==> t in old(sleepList) && old(IsDue(t, tick))
        invariant forall j :: 0 <= j < i ==> !IsDue(sleepList[j], tick)
        invariant Counted(old(sleepList), sleepList, woken)
        invariant forall t :: t in tasks && t !in woken ==> t.state == old(t.state)
        invariant forall t :: t in tasks ==> t.timeSlice == old(t.timeSlice) && t.wakeTick == old(t.wakeTick)
        decreases |sleepList| - i
      {
        var t := sleepList[i];
        if t != null && t.state == Blocked && tick >= t.wakeTick {
          assert t !in ring;
          OneMoreDistinct<Task>(woken, t);
          WasListed(old(sleepList), sleepList, woken, t);
          ghost var q := sleepList;
          Wake(t, i);
          CountedStep(old(sleepList), q, sleepList, woken, i);
          woken := woken + [t];
        } else {
          i := i + 1;
        }
      }
      forall t | t in old(sleepList) && t != null && old(IsDue(t, tick))
        ensures t in woken
      {
        if t !in woken {
          StillListed(old(sleepList), sleepList, woken, t);
        }
      }
    }

    /** One wake-up: task t of slot i is unblocked and its entry replaced by the last one. */
    method Wake(t: Task, i: nat)
      requires Valid() && i < |sleepList| && sleepList[i] == t && t.state == Blocked
      modifies this`head, this`ring, this`sleepList, tasks
      ensures Valid() && ring == old(ring) + [t] && t.state == Ready
      ensures |sleepList| == |old(sleepList)| - 1
      ensures multiset(sleepList) == multiset(old(sleepList)) - multiset{t as Task?}
      ensures forall j :: 0 <= j < i && j < |sleepList| ==> sleepList[j] == old(sleepList)[j]
      ensures forall x :: x in tasks && x != t ==> x.state == old(x.state)
      ensures forall x :: x in tasks ==> x.timeSlice == old(x.timeSlice) && x.wakeTick == old(x.wakeTick)
    {
      hide Distinct;
      Unblock(t);
      SwapRemoveCounts(sleepList, i);
      SwapRemovedMembers(sleepList, i);
      sleepList := SwapRemoved(sleepList, i);
    }

    /** sched_unblock. */
    method Unblock(t: Task)
      requires Valid() && t in tasks && (t.state == Blocked ==> t !in ring)
      modifies this`head, this`ring, tasks
      ensures Valid()
      ensures ring == old(ring) + (if old(t.state) == Blocked then [t] else [])
      ensures old(t.state) == Blocked ==> t.state == Ready
      ensures forall x :: x in tasks && x != t ==> x.state == old(x.state)
      ensures forall x :: x in tasks ==> x.timeSlice == old(x.timeSlice) && x.wakeTick == old(x.wakeTick)
    {
      if t.state == Blocked {
        Add(t);
        assert forall x :: x in ring ==> x in old(ring) || x == t;
      }
    }

    /** The slice accounting of sched_tick. */
    method SpendSlice() returns (o: Outcome)
      requires Valid()
      modifies this`head, this`ring, this`current, this`inSched, tasks
      ensures o == if old(current.timeSlice) > 1 then Done else OutcomeOf(old(ring), old(current))
      ensures o.Done? ==> Valid() && View() == Step(old(View()), idle, Event.Tick([]))
      ensures !o.Done? ==> inSched
    {
      hide Distinct;
      if current.timeSlice > 0 {
        current.timeSlice := current.timeSlice - 1;
        current.totalTicks := current.totalTicks + 1;
      }
      assert ring + [] == ring;
      o := Done;
      if current.timeSlice == 0 {
        inSched := true;
        var next, k := PickNext();
        assert ring != [] ==> ring[0] in ring;
        o := DoSwitch(next);
      }
    }

    /** sched_tick. */
    method TimerTick() returns (o: Outcome, ghost woken: seq<Task>)
      requires Valid()
      modifies this, tasks
      ensures tasks == old(tasks) && tickCount == old(tickCount) + 1
      ensures forall t :: t in woken <==> t in old(sleepList) && old(IsDue(t, tickCount + 1))
      ensures forall t :: t in woken ==> old(t.state) == Blocked && old(t.wakeTick) <= tickCount
      ensures forall t: Task ::
                t in old(sleepList) && old(t.state) == Blocked && old(t.wakeTick) <= tickCount ==> t in woken
      ensures o == if old(current.timeSlice) > 1 then Done else OutcomeOf(old(ring) + woken, old(current))
      ensures o.Done? ==> Valid() && View() == Step(old(View()), idle, Event.Tick(woken))
      ensures !o.Done? ==> inSched
    {
      hide Distinct;
      tickCount := tickCount + 1;
      woken := CheckSleepers(tickCount);
      o := Done;
      if inSched {
        return;
      }
      assert ring + [] == ring;
      o := SpendSlice();
    }

    /** What becomes of a switch: it happens exactly when some task is queued. */
    ghost function OutcomeOf(queue: seq<Task>, running: Task): (o: Outcome) {
      if queue != [] then Done else if running == idle then GuardLeft else NullLink
    }
  }

  /**
   The state sched_init leaves reaches the null link in three yields: boot gives way to idle, idle to boot, and
   then the ring is empty.
   */
  method ThirdYieldFaults() returns (first: Outcome, second: Outcome, third: Outcome)
    ensures first == Done && second == Done && third == NullLink
  {
    var boot := new Task();
    var idle := new Task();
    var s := new Scheduler(boot, idle);
    first := s.YieldNow();
    assert s.ring == [boot];
    second := s.YieldNow();
    assert s.ring == [];
    third := s.YieldNow();
  }
}
