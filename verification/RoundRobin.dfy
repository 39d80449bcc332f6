/**
 The scheduler on values: a first-in first-out queue, the running task and its remaining time slice.
 Whatever enqueues, wake-ups, ticks and yields come, a queued task runs within a bounded number of
 ticks, and no task is lost or duplicated.
 */
module RoundRobin {
  import opened Lists

  const TIMESLICE: nat := 20

  datatype Sched<T> = Sched(queue: seq<T>, current: T, slice: nat)

  /** A tick carries the sleepers it wakes. */
  datatype Event<T> = Tick(woken: seq<T>) | Yield | Enqueue(task: T)

  /** sched_pick_next and sched_do_switch on a queue of ready tasks: idle is never queued again. */
  function Switch<T(==)>(s: Sched<T>, idle: T): (n: Sched<T>)
    requires s.queue != []
  {
    Sched(s.queue[1..] + (if s.current == idle then [] else [s.current]), s.queue[0], TIMESLICE)
  }

  /** sched_tick, sched_yield, sched_enqueue. With nothing queued the switch is left out. */
  function Step<T(==)>(s: Sched<T>, idle: T, e: Event<T>): (n: Sched<T>) {
    match e
    case Tick(woken) =>
      var q := s.(queue := s.queue + woken);
      if s.slice > 1 then q.(slice := s.slice - 1) else if q.queue == [] then q else Switch(q, idle)
    case Yield => if s.queue == [] then s else Switch(s, idle)
    case Enqueue(t) => s.(queue := s.queue + [t])
  }

  function Run<T(==)>(s: Sched<T>, idle: T, es: seq<Event<T>>): (n: Sched<T>)
    decreases |es|
  {
    if es == [] then s else Run(Step(s, idle, es[0]), idle, es[1..])
  }

  function Ticks<T>(es: seq<Event<T>>): (n: nat) {
    if es == [] then 0 else (if es[0].Tick? then 1 else 0) + Ticks(es[1..])
  }

  function Yields<T>(es: seq<Event<T>>): (n: nat) {
    if es == [] then 0 else (if es[0].Yield? then 1 else 0) + Yields(es[1..])
  }

  // ---------------------------------------------------------------- the bound

  /** Task t is queued where it will run within `budget` ticks. */
  predicate Due<T(==)>(s: Sched<T>, t: T, j: nat, budget: int) {
    j < |s.queue| && s.queue[j] == t && s.slice + TIMESLICE * j <= budget
  }

  /** The ticks left for the task at position k once event e is past: a yield gives up what is left of the slice. */
  function Budget<T>(s: Sched<T>, k: nat, e: Event<T>): (b: int) {
    match e
    case Tick(_) => s.slice + TIMESLICE * k - 1
    case Yield => TIMESLICE * k
    case Enqueue(_) => s.slice + TIMESLICE * k
  }

  /** One event either runs the task at position k, or brings it closer by the ticks that passed or were given up. */
  lemma StepAdvances<T>(s: Sched<T>, idle: T, e: Event<T>, k: nat)
    requires k < |s.queue| && 1 <= s.slice <= TIMESLICE
    ensures var n := Step(s, idle, e);
            && 1 <= n.slice <= TIMESLICE
            && (n.current == s.queue[k] || exists j :: Due(n, s.queue[k], j, Budget(s, k, e)))
  {
    var n := Step(s, idle, e);
    var switched := e.Yield? || (e.Tick? && s.slice == 1);
    if !switched {
      assert Due(n, s.queue[k], k, Budget(s, k, e));
    } else if k > 0 {
      assert Due(n, s.queue[k], k - 1, Budget(s, k, e));
    }
  }

  /** A task at queue position k is running after some prefix of any run with enough ticks and yields. */
  lemma {:induction false} RunsWithin<T>(s: Sched<T>, idle: T, es: seq<Event<T>>, k: nat) returns (j: nat)
    requires k < |s.queue| && 1 <= s.slice <= TIMESLICE
    requires Ticks(es) + Yields(es) >= s.slice + TIMESLICE * k
    ensures j <= |es| && Run(s, idle, es[..j]).current == s.queue[k]
    decreases |es|
  {
    var n := Step(s, idle, es[0]);
    StepAdvances(s, idle, es[0], k);
    if n.current == s.queue[k] {
      j := 1;
      assert es[..1] == [es[0]] && es[..1][1..] == [];
    } else {
      var i :| Due(n, s.queue[k], i, Budget(s, k, es[0]));
      j := RunsWithin(n, idle, es[1..], i);
      j := j + 1;
      assert es[..j][1..] == es[1..][..j - 1];
    }
  }

  /** In particular within 20 * (k + 1) ticks, however the run goes on; each yield saves at least one of them. */
  lemma RoundRobinBound<T>(s: Sched<T>, idle: T, es: seq<Event<T>>, k: nat)
    requires k < |s.queue| && 1 <= s.slice <= TIMESLICE && Ticks(es) + Yields(es) >= TIMESLICE * (k + 1)
    ensures exists j :: 0 <= j <= |es| && Run(s, idle, es[..j]).current == s.queue[k]
  {
    var j := RunsWithin(s, idle, es, k);
  }

  /** And within k + 1 yields, whatever else happens between them. */
  lemma {:induction false} YieldsReach<T>(s: Sched<T>, idle: T, es: seq<Event<T>>, k: nat) returns (j: nat)
    requires k < |s.queue| && Yields(es) > k
    ensures j <= |es| && Run(s, idle, es[..j]).current == s.queue[k]
    decreases |es|
  {
    var n := Step(s, idle, es[0]);
    if n.current == s.queue[k] {
      j := 1;
      assert es[..1] == [es[0]] && es[..1][1..] == [];
    } else {
      var i := if Switches(s, es[0]) then k - 1 else k;
      MovesUp(s, idle, es[0], k);
      j := YieldsReach(n, idle, es[1..], i);
      j := j + 1;
      assert es[..j][1..] == es[1..][..j - 1];
    }
  }

  // ---------------------------------------------------------------- exactly when

  /** The event gives the processor to the head of the queue. */
  predicate Switches<T>(s: Sched<T>, e: Event<T>) {
    match e
    case Tick(woken) => s.slice <= 1 && s.queue + woken != []
    case Yield => s.queue != []
    case Enqueue(_) => false
  }

  function SwitchCount<T(==)>(s: Sched<T>, idle: T, es: seq<Event<T>>): (n: nat)
    decreases |es|
  {
    if es == [] then 0 else (if Switches(s, es[0]) then 1 else 0) + SwitchCount(Step(s, idle, es[0]), idle, es[1..])
  }

  /** A switch runs the head of the queue and moves everyone else up by one; no other event moves anyone. */
  lemma MovesUp<T>(s: Sched<T>, idle: T, e: Event<T>, k: nat)
    requires k < |s.queue|
    ensures var n := Step(s, idle, e);
            if !Switches(s, e) then n.current == s.current && k < |n.queue| && n.queue[k] == s.queue[k]
            else n.current == s.queue[0] && (k > 0 ==> k - 1 < |n.queue| && n.queue[k - 1] == s.queue[k])
  {
  }

  /** Task t runs at some point of the run. */
  ghost predicate HasRun<T>(s: Sched<T>, idle: T, es: seq<Event<T>>, t: T) {
    exists j :: 0 <= j <= |es| && Run(s, idle, es[..j]).current == t
  }

  lemma HasRunStep<T>(s: Sched<T>, idle: T, es: seq<Event<T>>, t: T)
    requires es != [] && s.current != t
    ensures HasRun(s, idle, es, t) <==> HasRun(Step(s, idle, es[0]), idle, es[1..], t)
  {
    hide Step;
    var n := Step(s, idle, es[0]);
    if HasRun(s, idle, es, t) {
      var j :| 0 <= j <= |es| && Run(s, idle, es[..j]).current == t;
      assert es[..j][1..] == es[1..][..j - 1];
      assert Run(n, idle, es[1..][..j - 1]).current == t;
    }
    if HasRun(n, idle, es[1..], t) {
      var j :| 0 <= j <= |es| - 1 && Run(n, idle, es[1..][..j]).current == t;
      assert es[..j + 1][1..] == es[1..][..j];
      assert Run(s, idle, es[..j + 1]).current == t;
    }
  }

  lemma RunsAtOnce<T>(s: Sched<T>, idle: T, es: seq<Event<T>>)
    ensures HasRun(s, idle, es, s.current)
  {
    assert es[..0] == [];
    assert Run(s, idle, es[..0]).current == s.current;
  }

  /** The task at queue position k gets to run in a run exactly if there are more than k switches in it. */
  lemma {:induction false} RunsIffSwitched<T>(s: Sched<T>, idle: T, es: seq<Event<T>>, k: nat)
    requires Proper(s) && AllFresh(s, idle, es) && k < |s.queue|
    ensures HasRun(s, idle, es, s.queue[k]) <==> SwitchCount(s, idle, es) > k
    decreases |es|
  {
    hide Distinct;
    hide Fresh;
    hide Runnable;
    hide HasRun;
    hide Step;
    hide Switches;
    var t := s.queue[k];
    if es == [] {
      NeverRuns(s, idle, t);
    } else {
      var n := Step(s, idle, es[0]);
      StepKeepsTasks(s, idle, es[0]);
      MovesUp(s, idle, es[0], k);
      HasRunStep(s, idle, es, t);
      if !Switches(s, es[0]) {
        RunsIffSwitched(n, idle, es[1..], k);
      } else if k == 0 {
        RunsAtOnce(n, idle, es[1..]);
      } else {
        RunsIffSwitched(n, idle, es[1..], k - 1);
      }
    }
  }

  lemma NeverRuns<T>(s: Sched<T>, idle: T, t: T)
    requires s.current != t
    ensures !HasRun(s, idle, [], t)
  {
    var none: seq<Event<T>> := [];
    assert none[..0] == none;
  }

  /** Quiet ticks. */
  function Quiet<T>(n: nat): (es: seq<Event<T>>)
    ensures |es| == n && Ticks(es) == n && Yields(es) == 0
  {
    if n == 0 then [] else [Tick([])] + Quiet(n - 1)
  }

  lemma {:induction false} QuietSwitches<T>(s: Sched<T>, idle: T, n: nat, es: seq<Event<T>>)
    requires n < s.slice
    ensures SwitchCount(s, idle, Quiet(n) + es) == SwitchCount(s.(slice := s.slice - n), idle, es)
    decreases n
  {
    if n == 0 {
      assert Quiet<T>(0) + es == es;
    } else {
      var q := Quiet<T>(n) + es;
      assert q[1..] == Quiet<T>(n - 1) + es && q[0] == Tick([]);
      assert s.queue + [] == s.queue;
      QuietSwitches(s.(slice := s.slice - 1), idle, n - 1, es);
    }
  }

  /**
   A yield near the end of a slice saves no more than that one tick: 19 ticks, a yield and 19 more ticks are one event
   short of the bound for the second in the queue, and it has not run.
   */
  lemma YieldMaySaveOneTick()
    ensures var s, es := Sched([1, 2], 0, 20), Quiet<int>(19) + ([Yield] + Quiet<int>(19));
            Ticks(es) + Yields(es) == 2 * TIMESLICE - 1 && !HasRun(s, 9, es, s.queue[1])
  {
    hide Quiet;
    hide HasRun;
    hide AllFresh;
    hide SwitchCount;
    var s: Sched<int>, quiet := Sched([1, 2], 0, 20), Quiet<int>(19);
    var rest := [Yield] + quiet;
    CountsAdd(quiet, rest);
    CountsAdd([Yield], quiet);
    QuietSwitches(s, 9, 19, rest);
    QuietlyFresh(s, 9, 19, rest);
    AfterYield(quiet);
    RunsIffSwitched(s, 9, quiet + rest, 1);
  }

  lemma AfterYield(quiet: seq<Event<int>>)
    requires quiet == Quiet<int>(19)
    ensures var s: Sched<int> := Sched([1, 2], 0, 1);
            AllFresh(s, 9, [Yield] + quiet) && SwitchCount(s, 9, [Yield] + quiet) == 1
  {
    hide Quiet;
    var s: Sched<int>, n: Sched<int> := Sched([1, 2], 0, 1), Sched([2, 0], 1, 20);
    var rest := [Yield] + quiet;
    assert rest[1..] == quiet && rest[0] == Yield;
    assert Step(s, 9, Yield) == n;
    assert quiet + [] == quiet;
    QuietSwitches(n, 9, 19, []);
    QuietlyFresh(n, 9, 19, []);
  }

  lemma {:induction false} CountsAdd<T>(es: seq<Event<T>>, fs: seq<Event<T>>)
    ensures Ticks(es + fs) == Ticks(es) + Ticks(fs) && Yields(es + fs) == Yields(es) + Yields(fs)
    decreases |es|
  {
    if es == [] {
      assert es + fs == fs;
    } else {
      assert (es + fs)[1..] == es[1..] + fs;
      CountsAdd(es[1..], fs);
    }
  }

  lemma {:induction false} QuietlyFresh<T>(s: Sched<T>, idle: T, n: nat, es: seq<Event<T>>)
    requires n < s.slice
    ensures AllFresh(s, idle, Quiet(n) + es) <==> AllFresh(s.(slice := s.slice - n), idle, es)
    decreases n
  {
    hide Fresh;
    if n == 0 {
      assert Quiet<T>(0) + es == es;
    } else {
      var q := Quiet<T>(n) + es;
      assert q[1..] == Quiet<T>(n - 1) + es && q[0] == Tick([]);
      assert s.queue + [] == s.queue;
      NobodyNew(s, idle);
      QuietlyFresh(s.(slice := s.slice - 1), idle, n - 1, es);
    }
  }

  lemma NobodyNew<T>(s: Sched<T>, idle: T)
    ensures Fresh(s, idle, Tick([]))
  {
  }

  /** Conversely nobody is preempted early: without a yield a task runs until its slice is spent. */
  lemma {:induction false} RunsItsSlice<T>(s: Sched<T>, idle: T, es: seq<Event<T>>)
    requires Ticks(es) < s.slice && forall i :: 0 <= i < |es| ==> !es[i].Yield?
    ensures var n := Run(s, idle, es);
            n.current == s.current && n.slice == s.slice - Ticks(es) && s.queue <= n.queue
    decreases |es|
  {
    if es != [] {
      RunsItsSlice(Step(s, idle, es[0]), idle, es[1..]);
    }
  }

  // ---------------------------------------------------------------- nothing lost, nothing doubled

  ghost function Members<T>(q: seq<T>): (s: set<T>) {
    set t | t in q
  }

  /** The runnable tasks: queued or running, idle aside. */
  ghost function Runnable<T>(s: Sched<T>, idle: T): (r: set<T>) {
    Members(s.queue) + {s.current} - {idle}
  }

  ghost predicate Proper<T>(s: Sched<T>) {
    Distinct(s.queue) && s.current !in s.queue && 1 <= s.slice <= TIMESLICE
  }

  function Arrivals<T>(e: Event<T>): (a: seq<T>) {
    match e
    case Tick(woken) => woken
    case Yield => []
    case Enqueue(t) => [t]
  }

  /** New tasks are different from each other, from those already there, and from idle. */
  ghost predicate Fresh<T>(s: Sched<T>, idle: T, e: Event<T>) {
    Distinct(Arrivals(e)) && forall t :: t in Arrivals(e) ==> t !in s.queue && t != s.current && t != idle
  }

  lemma ArrivalsKeepProper<T>(s: Sched<T>, idle: T, e: Event<T>)
    requires Proper(s) && Fresh(s, idle, e)
    ensures var q := s.(queue := s.queue + Arrivals(e));
            && Proper(q) && Runnable(q, idle) == Runnable(s, idle) + Members(Arrivals(e))
  {
    var a := Arrivals(e);
    forall i, j | 0 <= i < j < |s.queue + a|
      ensures (s.queue + a)[i] != (s.queue + a)[j]
    {
      if i < |s.queue| && |s.queue| <= j {
        assert a[j - |s.queue|] in a;
      }
    }
    assert forall t :: t in s.queue + a <==> t in s.queue || t in a;
  }

  lemma SwitchKeepsProper<T>(s: Sched<T>, idle: T)
    requires Proper(s) && s.queue != []
    ensures Proper(Switch(s, idle)) && Runnable(Switch(s, idle), idle) == Runnable(s, idle)
  {
    var n := Switch(s, idle);
    assert s.queue == [s.queue[0]] + s.queue[1..];
    forall i, j | 0 <= i < j < |n.queue|
      ensures n.queue[i] != n.queue[j]
    {
      assert s.queue[i + 1] in s.queue;
    }
    assert n.current !in n.queue;
    forall t
      ensures t in Runnable(n, idle) <==> t in Runnable(s, idle)
    {
    }
  }

  lemma StepKeepsTasks<T>(s: Sched<T>, idle: T, e: Event<T>)
    requires Proper(s) && Fresh(s, idle, e)
    requires e.Tick? && s.slice <= 1 ==> s.queue + Arrivals(e) != []
    ensures var n := Step(s, idle, e);
            Proper(n) && Runnable(n, idle) == Runnable(s, idle) + Members(Arrivals(e))
  {
    hide Distinct;
    hide Runnable;
    ArrivalsKeepProper(s, idle, e);
    var q := s.(queue := s.queue + Arrivals(e));
    if q.queue != [] {
      SwitchKeepsProper(q, idle);
    }
    if e.Yield? {
      assert q == s;
    }
    assert Members<T>([]) == {};
    SliceAlone(q, idle);
  }

  lemma SliceAlone<T>(s: Sched<T>, idle: T)
    ensures forall k :: Runnable(s.(slice := k), idle) == Runnable(s, idle)
  {
  }

  ghost function AllArrivals<T>(es: seq<Event<T>>): (a: set<T>) {
    if es == [] then {} else Members(Arrivals(es[0])) + AllArrivals(es[1..])
  }

  ghost predicate AllFresh<T>(s: Sched<T>, idle: T, es: seq<Event<T>>)
    decreases |es|
  {
    es == [] || (Fresh(s, idle, es[0]) && AllFresh(Step(s, idle, es[0]), idle, es[1..]))
  }

  lemma AloneWithoutQueue<T>(s: Sched<T>, idle: T)
    requires s.queue == []
    ensures |Runnable(s, idle)| <= 1
  {
    var one, all := {s.current}, Runnable(s, idle);
    assert one == all + (one - all);
    assert |one| == |all| + |one - all|;
  }

  /** With two runnable tasks to begin with, every run keeps all tasks, each exactly once, and always has a next one. */
  lemma {:induction false} RunKeepsTasks<T>(s: Sched<T>, idle: T, es: seq<Event<T>>)
    requires Proper(s) && AllFresh(s, idle, es) && |Runnable(s, idle)| >= 2
    ensures var n := Run(s, idle, es);
            Proper(n) && n.queue != [] && Runnable(n, idle) == Runnable(s, idle) + AllArrivals(es)
    decreases |es|
  {
    hide Distinct;
    hide Runnable;
    hide Fresh;
    hide Step;
    if s.queue == [] {
      AloneWithoutQueue(s, idle);
    }
    if es != [] {
      StepKeepsTasks(s, idle, es[0]);
      var n := Step(s, idle, es[0]);
      MoreIsStillTwo(Runnable(s, idle), Runnable(n, idle));
      RunKeepsTasks(n, idle, es[1..]);
    }
  }

  lemma MoreIsStillTwo<T>(a: set<T>, b: set<T>)
    requires a <= b && |a| >= 2
    ensures |b| >= 2
  {
    assert b == a + (b - a);
  }
}
