/**
 The NVMe completion ring with its phase tag, and the submit-and-poll loop over it. The device is the
 environment: it posts completions at any moment, never overwriting one that was not consumed yet.
 */
module NvmeQueue {

  const POLLS: nat := 2000000

  /** The completion of the cmd-th command submitted to the queue, with the status field above the phase bit. */
  datatype Completion = Completion(cmd: nat, code: nat)

  /** A ring entry as it lies in memory. The driver looks at `status` only. */
  datatype Entry = Entry(cmd: nat, status: nat)

  /** The ring, the driver's position in it, everything posted so far and everything the driver has taken. */
  datatype Queue = Queue(ring: seq<Entry>, head: nat, phase: nat, posted: seq<Completion>, taken: seq<Completion>)

  /** The phase tag of the k-th completion: 1 on the first pass over the ring, then inverted on each pass. */
  function PhaseOf(k: nat): (p: nat) {
    1 - k / 64 % 2
  }

  function Stamped(c: Completion, k: nat): (e: Entry) {
    Entry(c.cmd, 2 * c.code + PhaseOf(k))
  }

  function Blanks(): (r: seq<Entry>)
    ensures |r| == 64 && forall s :: 0 <= s < 64 ==> r[s] == Entry(0, 0)
  {
    seq(64, s => Entry(0, 0))
  }

  function Start(): (q: Queue) {
    Queue(Blanks(), 0, 1, [], [])
  }

  /** The device posts its next completion. */
  function Post(q: Queue, c: Completion): (r: Queue)
    requires |q.ring| == 64
  {
    var k := |q.posted|;
    q.(ring := q.ring[k % 64 := Stamped(c, k)], posted := q.posted + [c])
  }

  predicate Room(q: Queue) {
    |q.posted| < |q.taken| + 64
  }

  /** The driver's test: the entry at the head carries the expected phase. */
  predicate Hit(q: Queue) {
    q.head < |q.ring| && q.ring[q.head].status % 2 == q.phase
  }

  function Content(e: Entry): (c: Completion) {
    Completion(e.cmd, e.status / 2)
  }

  /** One poll. */
  function Poll(q: Queue): (r: Queue) {
    if !Hit(q) then q else
      var head := (q.head + 1) % 64;
      q.(head := head,
         phase := if head == 0 then 1 - q.phase else q.phase,
         taken := q.taken + [Content(q.ring[q.head])])
  }

  predicate RingHolds(ring: seq<Entry>, posted: seq<Completion>)
    requires |ring| == 64
  {
    && (forall k :: 0 <= k < |posted| <= k + 64 ==> ring[k % 64] == Stamped(posted[k], k))
    && (forall s :: |posted| <= s < 64 ==> ring[s] == Entry(0, 0))
  }

  predicate Valid(q: Queue): (v: bool)
    ensures v ==> |q.ring| == 64
  {
    && |q.ring| == 64 && q.phase <= 1
    && q.taken <= q.posted && |q.posted| <= |q.taken| + 64
    && q.head == |q.taken| % 64 && q.phase == PhaseOf(|q.taken|)
    && RingHolds(q.ring, q.posted)
  }

  lemma StartIsValid()
    ensures Valid(Start())
  {
  }

  lemma SlotsDiffer(k: nat, n: nat)
    requires k < n < k + 64
    ensures k % 64 != n % 64
  {
  }

  lemma PostKeepsRing(q: Queue, c: Completion)
    requires Valid(q)
    ensures RingHolds(Post(q, c).ring, Post(q, c).posted)
  {
    hide Stamped;
    var n, r := |q.posted|, Post(q, c);
    forall k | 0 <= k < |r.posted| <= k + 64
      ensures r.ring[k % 64] == Stamped(r.posted[k], k)
    {
      if k < n {
        SlotsDiffer(k, n);
        assert r.posted[k] == q.posted[k];
      }
    }
  }

  lemma NextTurn(k: nat)
    ensures (k + 1) % 64 == (k % 64 + 1) % 64
    ensures PhaseOf(k + 1) == if (k + 1) % 64 == 0 then 1 - PhaseOf(k) else PhaseOf(k)
    ensures PhaseOf(k + 64) == 1 - PhaseOf(k)
  {
    assert (k + 64) / 64 == k / 64 + 1;
  }

  /**
   A poll hits exactly when a completion is waiting, and what it reads is the oldest one waiting:
   never an entry left over from an earlier pass, never one that was read before.
   */
  lemma PollFindsOldest(q: Queue)
    requires Valid(q)
    ensures Hit(q) <==> |q.taken| < |q.posted|
    ensures Hit(q) ==> Content(q.ring[q.head]) == q.posted[|q.taken|]
  {
    var n := |q.taken|;
    if n < |q.posted| {
      assert q.ring[n % 64] == Stamped(q.posted[n], n);
    } else if n >= 64 {
      var k := n - 64;
      NextTurn(k);
      assert q.ring[k % 64] == Stamped(q.posted[k], k);
      assert k % 64 == n % 64;
    } else {
      assert n % 64 == n && q.ring[n] == Entry(0, 0);
    }
  }

  lemma PollKeepsValid(q: Queue)
    requires Valid(q)
    ensures Valid(Poll(q)) && Poll(q).posted == q.posted
    ensures |Poll(q).taken| == |q.taken| + (if |q.taken| < |q.posted| then 1 else 0)
  {
    hide RingHolds;
    hide PhaseOf;
    PollFindsOldest(q);
    NextTurn(|q.taken|);
  }

  // ---------------------------------------------------------------- every interleaving

  datatype Event = Posts(c: Completion) | Polls

  function Step(q: Queue, e: Event): (r: Queue)
    requires |q.ring| == 64
    ensures |r.ring| == 64
  {
    match e
    case Posts(c) => Post(q, c)
    case Polls => Poll(q)
  }

  lemma StepKeepsValid(q: Queue, e: Event)
    requires Valid(q) && (e.Posts? ==> Room(q))
    ensures Valid(Step(q, e)) && Step(q, e).taken <= Step(q, e).posted
    ensures Step(q, e).posted == q.posted + Sent([e])
  {
    hide RingHolds;
    match e {
      case Posts(c) => PostKeepsRing(q, c);
      case Polls => PollKeepsValid(q);
    }
  }

  predicate Allowed(q: Queue, events: seq<Event>)
    requires |q.ring| == 64
    decreases |events|
  {
    events == [] || ((events[0].Posts? ==> Room(q)) && Allowed(Step(q, events[0]), events[1..]))
  }

  function Run(q: Queue, events: seq<Event>): (r: Queue)
    requires |q.ring| == 64
    decreases |events|
  {
    if events == [] then q else Run(Step(q, events[0]), events[1..])
  }

  function Sent(events: seq<Event>): (cs: seq<Completion>)
    decreases |events|
  {
    if events == [] then []
    else (if events[0].Posts? then [events[0].c] else []) + Sent(events[1..])
  }

  /**
   In every interleaving of device and driver, over any number of wraps, the driver has taken a prefix of
   exactly what the device sent: in order, each once, none lost and none stale.
   */
  lemma TakenInOrder(q: Queue, events: seq<Event>)
    requires Valid(q) && Allowed(q, events)
    ensures Run(q, events).taken <= Run(q, events).posted == q.posted + Sent(events)
  {
    RunKeepsValid(q, events);
  }

  lemma {:induction false} RunKeepsValid(q: Queue, events: seq<Event>)
    requires Valid(q) && Allowed(q, events)
    ensures Valid(Run(q, events))
    ensures Run(q, events).posted == q.posted + Sent(events)
    decreases |events|
  {
    hide Valid;
    hide Step;
    if events != [] {
      StepKeepsValid(q, events[0]);
      RunKeepsValid(Step(q, events[0]), events[1..]);
      assert Sent(events) == Sent([events[0]]) + Sent(events[1..]);
    }
  }

  // ---------------------------------------------------------------- submit and wait

  /** What the device posts before each poll of one wait, poll by poll. */
  type Arrivals = seq<seq<Completion>>

  function PostAll(q: Queue, cs: seq<Completion>): (r: Queue)
    requires |q.ring| == 64
    ensures |r.ring| == 64 && r.posted == q.posted + cs && r.taken == q.taken
    ensures r.head == q.head && r.phase == q.phase
    decreases |cs|
  {
    if cs == [] then q else PostAll(Post(q, cs[0]), cs[1..])
  }

  /** The wait loop: at most one poll per element of `arrivals`, ending with the first that hits. */
  function Wait(q: Queue, arrivals: Arrivals): (r: Queue)
    requires |q.ring| == 64
    decreases |arrivals|
  {
    if arrivals == [] then q
    else
      var p := PostAll(q, arrivals[0]);
      if Hit(p) then Poll(p) else Wait(p, arrivals[1..])
  }

  /** The device never overruns the ring during the wait. */
  predicate NoOverrun(q: Queue, arrivals: Arrivals)
    requires |q.ring| == 64
    decreases |arrivals|
  {
    arrivals != [] ==>
      var p := PostAll(q, arrivals[0]);
      |p.posted| <= |p.taken| + 64 && (Hit(p) || NoOverrun(p, arrivals[1..]))
  }

  lemma {:induction false} PostAllKeepsValid(q: Queue, cs: seq<Completion>)
    requires Valid(q) && |q.posted| + |cs| <= |q.taken| + 64
    ensures Valid(PostAll(q, cs))
    decreases |cs|
  {
    hide RingHolds;
    if cs != [] {
      PostKeepsRing(q, cs[0]);
      PostAllKeepsValid(Post(q, cs[0]), cs[1..]);
    }
  }

  /** A wait takes the oldest completion waiting and only that one; it times out exactly when there is none at all. */
  lemma {:induction false} WaitTakesOldest(q: Queue, arrivals: Arrivals)
    requires Valid(q) && NoOverrun(q, arrivals)
    ensures var r := Wait(q, arrivals);
            && Valid(r) && q.posted <= r.posted
            && (r.taken == q.taken || |r.taken| == |q.taken| + 1)
            && q.taken <= r.taken
            && (arrivals != [] && r.taken == q.taken ==> r.posted == r.taken)
    decreases |arrivals|
  {
    hide RingHolds;
    if arrivals != [] {
      var p := PostAll(q, arrivals[0]);
      PostAllKeepsValid(q, arrivals[0]);
      PollFindsOldest(p);
      if Hit(p) {
        PollKeepsValid(p);
      } else {
        WaitTakesOldest(p, arrivals[1..]);
        assert arrivals[1..] == [] ==> Wait(p, arrivals[1..]) == p;
      }
    }
  }

  // ---------------------------------------------------------------- whose status is returned

  datatype Driver = Driver(q: Queue, submitted: nat)

  /** One call of the submit function. */
  function Submit(d: Driver, arrivals: Arrivals): (r: Driver)
    requires |d.q.ring| == 64
  {
    Driver(Wait(d.q, arrivals), d.submitted + 1)
  }

  /** Commands submitted whose completion the driver has not taken. */
  function Backlog(d: Driver): (n: int) {
    d.submitted - |d.q.taken|
  }

  /** The device completes only commands it was given, each at most once. */
  predicate Honest(posted: seq<Completion>, submitted: nat) {
    && (forall k :: 0 <= k < |posted| ==> posted[k].cmd < submitted)
    && (forall i, j :: 0 <= i < j < |posted| ==> posted[i].cmd != posted[j].cmd)
  }

  predicate InOrder(posted: seq<Completion>) {
    forall k :: 0 <= k < |posted| ==> posted[k].cmd == k
  }

  function Commands(cs: seq<Completion>): (ids: set<nat>) {
    set k | 0 <= k < |cs| :: cs[k].cmd
  }

  function Below(n: nat): (ids: set<nat>)
    ensures |ids| == n && forall k: nat :: k in ids <==> k < n
  {
    if n == 0 then {} else Below(n - 1) + {n - 1}
  }

  lemma {:induction false} DistinctSize(cs: seq<Completion>, n: nat)
    requires Honest(cs, n)
    ensures |Commands(cs)| == |cs|
    decreases |cs|
  {
    if cs != [] {
      var last := |cs| - 1;
      var init := cs[..last];
      DistinctSize(init, n);
      assert Commands(cs) == Commands(init) + {cs[last].cmd};
      assert cs[last].cmd !in Commands(init);
    }
  }

  lemma EqualIfSameSize(a: set<nat>, b: set<nat>)
    requires a <= b && |a| == |b|
    ensures a == b
  {
    assert |b - a| == |b| - |a|;
  }

  /** n distinct commands below n are all of them, so a further one must be n itself. */
  lemma NextCommandIs(posted: seq<Completion>, n: nat)
    requires Honest(posted, n + 1) && n < |posted| && Honest(posted[..n], n)
    ensures posted[n].cmd == n
  {
    var cs := posted[..n];
    DistinctSize(cs, n);
    assert Commands(cs) <= Below(n);
    EqualIfSameSize(Commands(cs), Below(n));
    assert posted[n].cmd !in Commands(cs);
  }

  /** With no backlog before the call, a status that is returned is that of the command just submitted. */
  lemma OwnStatusWithoutBacklog(d: Driver, arrivals: Arrivals)
    requires Valid(d.q) && NoOverrun(d.q, arrivals)
    requires Backlog(d) == 0 && Honest(d.q.posted, d.submitted)
    requires Honest(Submit(d, arrivals).q.posted, d.submitted + 1)
    requires |Submit(d, arrivals).q.taken| > |d.q.taken|
    ensures Submit(d, arrivals).q.taken[d.submitted].cmd == d.submitted
  {
    hide RingHolds;
    hide NoOverrun;
    hide Wait;
    var n, r := d.submitted, Submit(d, arrivals).q;
    WaitTakesOldest(d.q, arrivals);
    assert r.posted[..n] == d.q.posted[..n] == d.q.taken;
    assert Honest(d.q.posted[..n], n);
    NextCommandIs(r.posted, n);
    assert r.taken[n] == r.posted[n];
  }

  /** On a device that completes in order the absence of a backlog is exactly what it takes. */
  lemma OwnStatusIffNoBacklog(d: Driver, arrivals: Arrivals)
    requires Valid(d.q) && NoOverrun(d.q, arrivals)
    requires InOrder(Submit(d, arrivals).q.posted)
    requires |Submit(d, arrivals).q.taken| > |d.q.taken|
    ensures Submit(d, arrivals).q.taken[|d.q.taken|].cmd == d.submitted <==> Backlog(d) == 0
  {
    hide RingHolds;
    hide NoOverrun;
    hide Wait;
    var n, r := |d.q.taken|, Submit(d, arrivals).q;
    WaitTakesOldest(d.q, arrivals);
    assert r.taken[n] == r.posted[n];
  }

  function Calls(d: Driver, runs: seq<Arrivals>): (r: Driver)
    requires |d.q.ring| == 64
    decreases |runs|
  {
    if runs == [] then d
    else
      var e := Submit(d, runs[0]);
      if |e.q.ring| != 64 then e else Calls(e, runs[1..])
  }

  predicate CallsFit(d: Driver, runs: seq<Arrivals>)
    requires |d.q.ring| == 64
    decreases |runs|
  {
    runs != [] ==>
      var e := Submit(d, runs[0]);
      NoOverrun(d.q, runs[0]) && |e.q.ring| == 64 && CallsFit(e, runs[1..])
  }

  /** A call submits one command and takes at most one completion, so a backlog once built up stays. */
  lemma {:induction false} BacklogNeverShrinks(d: Driver, runs: seq<Arrivals>)
    requires Valid(d.q) && CallsFit(d, runs)
    ensures Valid(Calls(d, runs).q) && Backlog(Calls(d, runs)) >= Backlog(d)
    decreases |runs|
  {
    hide RingHolds;
    hide NoOverrun;
    hide Wait;
    if runs != [] {
      WaitTakesOldest(d.q, runs[0]);
      BacklogNeverShrinks(Submit(d, runs[0]), runs[1..]);
    }
  }

  /**
   So after one timeout, on a device that completes in order, every status returned by any later call
   belongs to an earlier command.
   */
  lemma StaleForeverAfterTimeout(d: Driver, late: Arrivals, runs: seq<Arrivals>, last: Arrivals)
    requires Valid(d.q) && Backlog(d) >= 0 && NoOverrun(d.q, late)
    requires Submit(d, late).q.taken == d.q.taken && |Submit(d, late).q.ring| == 64
    requires CallsFit(Submit(d, late), runs)
    requires var e := Calls(Submit(d, late), runs);
             && |e.q.ring| == 64 && NoOverrun(e.q, last)
             && InOrder(Submit(e, last).q.posted) && |Submit(e, last).q.taken| > |e.q.taken|
    ensures var e := Calls(Submit(d, late), runs);
            Submit(e, last).q.taken[|e.q.taken|].cmd != e.submitted
  {
    hide RingHolds;
    hide NoOverrun;
    hide Wait;
    hide Calls;
    hide CallsFit;
    WaitTakesOldest(d.q, late);
    var t := Submit(d, late);
    BacklogNeverShrinks(t, runs);
    OwnStatusIffNoBacklog(Calls(t, runs), last);
  }

  /** Every call of the run is answered before its polls run out, by a device that stays honest. */
  predicate Answered(d: Driver, runs: seq<Arrivals>)
    requires |d.q.ring| == 64
    decreases |runs|
  {
    runs != [] ==>
      var e := Submit(d, runs[0]);
      && |e.q.ring| == 64 && |e.q.taken| > |d.q.taken| && Honest(e.q.posted, e.submitted)
      && Answered(e, runs[1..])
  }

  /** The k-th completion taken is that of the k-th command. */
  predicate AllOwn(taken: seq<Completion>) {
    forall k :: 0 <= k < |taken| ==> taken[k].cmd == k
  }

  /**
   While no call has timed out, every call returns the status of its own command: the i-th call takes the i-th
   completion, and that is the i-th command's.
   */
  lemma {:induction false} OwnStatusUntilTimeout(d: Driver, runs: seq<Arrivals>)
    requires Valid(d.q) && Backlog(d) == 0 && Honest(d.q.posted, d.submitted) && AllOwn(d.q.taken)
    requires CallsFit(d, runs) && Answered(d, runs)
    ensures var e := Calls(d, runs);
            e.submitted == d.submitted + |runs| && Backlog(e) == 0 && d.q.taken <= e.q.taken && AllOwn(e.q.taken)
    decreases |runs|
  {
    hide RingHolds;
    hide NoOverrun;
    hide Wait;
    hide Honest;
    if runs != [] {
      var e := Submit(d, runs[0]);
      WaitTakesOldest(d.q, runs[0]);
      OwnStatusWithoutBacklog(d, runs[0]);
      assert forall k :: 0 <= k < |d.q.taken| ==> e.q.taken[k] == d.q.taken[k];
      OwnStatusUntilTimeout(e, runs[1..]);
    }
  }

  /** From the state nvme_init sets up. */
  lemma OwnStatusFromStart(runs: seq<Arrivals>)
    requires CallsFit(Driver(Start(), 0), runs) && Answered(Driver(Start(), 0), runs)
    ensures |Calls(Driver(Start(), 0), runs).q.taken| == |runs| && AllOwn(Calls(Driver(Start(), 0), runs).q.taken)
  {
    hide Calls;
    hide CallsFit;
    hide Answered;
    StartIsValid();
    OwnStatusUntilTimeout(Driver(Start(), 0), runs);
  }

  // ---------------------------------------------------------------- the number returned

  /** What the submit functions return: the low eight status bits decide. */
  function Outcome(before: Queue, after: Queue): (r: int) {
    if |after.taken| > |before.taken| && after.taken[|after.taken| - 1].code % 256 == 0 then 0 else -1
  }

  /** 0 exactly when a completion was waiting in time and the oldest one carries no error. */
  lemma OutcomeIsOldest(q: Queue, arrivals: Arrivals)
    requires Valid(q) && NoOverrun(q, arrivals)
    ensures var n, r := |q.taken|, Wait(q, arrivals);
            && (Outcome(q, r) == 0 || Outcome(q, r) == -1)
            && (arrivals != [] || |r.taken| > n ==>
                  (Outcome(q, r) == 0 <==> n < |r.posted| && r.posted[n].code % 256 == 0))
  {
    hide RingHolds;
    hide NoOverrun;
    hide Wait;
    WaitTakesOldest(q, arrivals);
    var r := Wait(q, arrivals);
    if |r.taken| > |q.taken| {
      assert r.taken[|q.taken|] == r.posted[|q.taken|];
    }
  }

  /** The device has completed command cmd without an error. */
  ghost predicate Succeeded(posted: seq<Completion>, cmd: nat) {
    exists k :: 0 <= k < |posted| && posted[k].cmd == cmd && posted[k].code % 256 == 0
  }

  /** With no backlog an answered call returns 0 exactly when the device completed this very command without error. */
  lemma ReturnsOwnStatus(d: Driver, arrivals: Arrivals)
    requires Valid(d.q) && NoOverrun(d.q, arrivals)
    requires Backlog(d) == 0 && Honest(d.q.posted, d.submitted)
    requires Honest(Submit(d, arrivals).q.posted, d.submitted + 1)
    requires |Submit(d, arrivals).q.taken| > |d.q.taken|
    ensures var r := Submit(d, arrivals).q;
            Outcome(d.q, r) == 0 <==> Succeeded(r.posted, d.submitted)
  {
    hide RingHolds;
    hide NoOverrun;
    hide Wait;
    hide Outcome;
    OwnStatusWithoutBacklog(d, arrivals);
    WaitTakesOldest(d.q, arrivals);
    OutcomeIsOldest(d.q, arrivals);
    var n, r := d.submitted, Submit(d, arrivals).q;
    assert r.taken[n] == r.posted[n];
  }

  /** The numbers a run of calls returns. */
  function Returns(d: Driver, runs: seq<Arrivals>): (rs: seq<int>)
    requires |d.q.ring| == 64
    decreases |runs|
  {
    if runs == [] then []
    else
      var e := Submit(d, runs[0]);
      [Outcome(d.q, e.q)] + (if |e.q.ring| != 64 then [] else Returns(e, runs[1..]))
  }

  lemma SucceededLater(posted: seq<Completion>, later: seq<Completion>, n: nat, cmd: nat)
    requires posted <= later && Honest(later, n) && exists k :: 0 <= k < |posted| && posted[k].cmd == cmd
    ensures Succeeded(posted, cmd) <==> Succeeded(later, cmd)
  {
    var k :| 0 <= k < |posted| && posted[k].cmd == cmd;
    assert later[k] == posted[k];
    if Succeeded(later, cmd) {
      var j :| 0 <= j < |later| && later[j].cmd == cmd && later[j].code % 256 == 0;
      assert j == k;
    }
  }

  lemma {:induction false} CallsGrow(d: Driver, runs: seq<Arrivals>)
    requires Valid(d.q) && CallsFit(d, runs)
    ensures d.q.posted <= Calls(d, runs).q.posted
    decreases |runs|
  {
    hide RingHolds;
    hide NoOverrun;
    hide Wait;
    if runs != [] {
      WaitTakesOldest(d.q, runs[0]);
      CallsGrow(Submit(d, runs[0]), runs[1..]);
    }
  }

  lemma {:induction false} StaysHonest(d: Driver, runs: seq<Arrivals>)
    requires |d.q.ring| == 64 && Honest(d.q.posted, d.submitted) && Answered(d, runs)
    ensures Honest(Calls(d, runs).q.posted, Calls(d, runs).submitted)
    decreases |runs|
  {
    hide Honest;
    hide Wait;
    if runs != [] {
      StaysHonest(Submit(d, runs[0]), runs[1..]);
    }
  }

  /**
   Over every run of calls that are all answered in time, the i-th call returns 0 exactly when the device completed
   the i-th command without error, and -1 otherwise.
   */
  lemma {:induction false} ReturnsUntilTimeout(d: Driver, runs: seq<Arrivals>, i: nat)
    requires Valid(d.q) && Backlog(d) == 0 && Honest(d.q.posted, d.submitted)
    requires CallsFit(d, runs) && Answered(d, runs) && i < |runs|
    ensures |Returns(d, runs)| == |runs|
    ensures Returns(d, runs)[i] == if Succeeded(Calls(d, runs).q.posted, d.submitted + i) then 0 else -1
    decreases |runs|
  {
    hide RingHolds;
    hide NoOverrun;
    hide Wait;
    hide Honest;
    hide Succeeded;
    hide Outcome;
    var e := Submit(d, runs[0]);
    WaitTakesOldest(d.q, runs[0]);
    if |runs| > 1 {
      ReturnsUntilTimeout(e, runs[1..], if i == 0 then 0 else i - 1);
    }
    if i == 0 {
      ReturnsOwnStatus(d, runs[0]);
      OutcomeIsOldest(d.q, runs[0]);
      OwnStatusWithoutBacklog(d, runs[0]);
      CallsGrow(e, runs[1..]);
      StaysHonest(e, runs[1..]);
      var r := Calls(d, runs);
      assert e.q.posted[d.submitted].cmd == d.submitted;
      SucceededLater(e.q.posted, r.q.posted, r.submitted, d.submitted);
    }
  }

  /** A wait in which the device stays silent. */
  function Silence(n: nat): (a: Arrivals)
    ensures |a| == n && forall i :: 0 <= i < n ==> a[i] == []
  {
    seq(n, i => [])
  }

  lemma {:induction false} SilentWait(q: Queue, n: nat)
    requires |q.ring| == 64 && !Hit(q)
    ensures Wait(q, Silence(n)) == q && NoOverrun(q, Silence(n)) == (n == 0 || |q.posted| <= |q.taken| + 64)
    decreases n
  {
    if n > 0 {
      assert Silence(n)[1..] == Silence(n - 1);
      SilentWait(q, n - 1);
    }
  }

  /**
   One silent wait of all its polls, and the next call returns the status of the command before it: the
   completion of command 0 arrives while command 1 waits.
   */
  lemma TimeoutThenStale()
    ensures var late, next := Silence(POLLS), [[Completion(0, 0)]] + Silence(POLLS - 1);
            var e := Submit(Driver(Start(), 0), late);
            && |e.q.ring| == 64 && e.q.taken == [] && e.submitted == 1
            && Submit(e, next).q.taken == [Completion(0, 0)] && |next| == POLLS
  {
    var q, next := Start(), [[Completion(0, 0)]] + Silence(POLLS - 1);
    StartIsValid();
    PollFindsOldest(q);
    SilentWait(q, POLLS);
    var c := Completion(0, 0);
    assert next[0] == [c];
    var p := Post(q, c);
    assert PostAll(q, [c]) == PostAll(p, [c][1..]) == p;
    PostKeepsRing(q, c);
    PollFindsOldest(p);
    PollKeepsValid(p);
    assert Poll(p).taken == [c];
  }

  // ---------------------------------------------------------------- the driver's own state

  /** A submission queue and its completion queue; `posted`, `taken` and `submitted` record the history. */
  class QueuePair {
    var sq: seq<nat>
    var tail: nat
    var ring: seq<Entry>
    var head: nat
    var phase: nat
    var posted: seq<Completion>
    var taken: seq<Completion>
    var submitted: nat

    function View(): (q: Queue)
      reads this
    {
      Queue(ring, head, phase, posted, taken)
    }

    predicate Ready()
      reads this
    {
      |sq| == 64 && tail == submitted % 64 && Valid(View())
    }

    constructor ()
      ensures Ready() && View() == Start() && submitted == 0
    {
      sq := seq(64, i => 0);
      tail, ring, head, phase := 0, Blanks(), 0, 1;
      posted, taken, submitted := [], [], 0;
    }

    /** The device's side: not driver code. */
    method DevicePosts(cs: seq<Completion>)
      requires |ring| == 64
      modifies this`ring, this`posted
      ensures View() == PostAll(old(View()), cs)
    {
      var i := 0;
      while i < |cs|
        invariant i <= |cs| && |ring| == 64
        invariant PostAll(View(), cs[i..]) == PostAll(old(View()), cs)
      {
        var p := Post(View(), cs[i]);
        assert cs[i..][1..] == cs[i + 1..];
        ring, posted := p.ring, p.posted;
        i := i + 1;
      }
    }

    /**
     nvme_submit_admin and nvme_submit_io: write the command, advance the tail, then poll until the entry at the
     head shows the expected phase or the polls run out. `arrivals` is what the device posts before each poll.
     */
    method SubmitAndWait(cmd: nat, arrivals: Arrivals) returns (r: int)
      requires Ready() && |arrivals| == 2000000 && NoOverrun(View(), arrivals)
      modifies this
      ensures Ready() && View() == Wait(old(View()), arrivals) && submitted == old(submitted) + 1
      ensures sq == old(sq)[old(tail) := cmd] && tail == (old(tail) + 1) % 64
      ensures r == Outcome(old(View()), View()) && (r == 0 || r == -1)
      ensures r == 0 <==> |posted| > |old(taken)| && posted[|old(taken)|].code % 256 == 0
    {
      hide Valid;
      hide NoOverrun;
      hide PostAll;
      hide Stamped;
      WaitTakesOldest(View(), arrivals);
      OutcomeIsOldest(View(), arrivals);
      sq := sq[tail := cmd];
      tail, submitted := (tail + 1) % 64, submitted + 1;
      ghost var q := old(View());
      var timeout := 0;
      while timeout < POLLS
        invariant timeout <= POLLS && |ring| == 64
        invariant taken == old(taken) && Wait(View(), arrivals[timeout..]) == Wait(q, arrivals)
        invariant sq == old(sq)[old(tail) := cmd] && submitted == old(submitted) + 1 && tail == submitted % 64
      {
        assert arrivals[timeout..][1..] == arrivals[timeout + 1..];
        DevicePosts(arrivals[timeout]);
        if head < |ring| && ring[head].status % 2 == phase {
          ghost var p := View();
          var cqe := ring[head];
          head := (head + 1) % 64;
          if head == 0 {
            phase := 1 - phase;
          }
          taken := taken + [Content(cqe)];
          assert View() == Poll(p) == Wait(q, arrivals);
          var sc := cqe.status / 2 % 256;
          return if sc != 0 then -1 else 0;
        }
        timeout := timeout + 1;
      }
      assert View() == Wait(q, arrivals) && taken == old(taken);
      return -1;
    }
  }
}
