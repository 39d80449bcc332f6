/**
 The keyboard's character ring and its blocked readers: the interrupt handler on one side, any number of tasks
 inside keyboard_read_char on the other, interleaved at every read and write of shared state.
 */
module Keyboard {
  import opened Lists
  import opened Machine

  const WAIT_MAX: nat := 8

  /** Where a task stands in keyboard_read_char and the keyboard_poll it calls. */
  datatype Pc =
    | Testing            // about to compare head and tail
    | InPoll             // in keyboard_poll, about to compare them again
    | Reading            // about to load the character at the tail
    | Storing(c: Byte)   // holding the character, about to advance the tail
    | Idle               // saw an empty ring, about to disable interrupts
    | Blocked

  /**
   The ring, the registered waiters and the tasks; `accepted` and `delivered` are the characters ever stored by the
   interrupt handler and ever returned to a reader.
   */
  datatype State = State(
    buf: seq<Byte>, head: nat, tail: nat, waiters: seq<nat>, pcs: map<nat, Pc>,
    accepted: seq<Byte>, delivered: seq<Byte>)

  predicate Shape(s: State) {
    |s.buf| == 256 && s.head < 256 && s.tail < 256
  }

  /** No character yet, every task about to read. */
  function Start(buf: seq<Byte>, tasks: set<nat>): (s: State) {
    State(buf, 0, 0, [], map t | t in tasks :: Testing, [], [])
  }

  function Woken(pcs: map<nat, Pc>, waiters: seq<nat>): (r: map<nat, Pc>) {
    map t | t in pcs :: if t in waiters then Testing else pcs[t]
  }

  /** The interrupt handler, for a scancode that yields the character c. */
  function Irq(s: State, c: Byte): (r: State)
    requires Shape(s)
  {
    var next := (s.head + 1) % 256;
    var w := s.(waiters := [], pcs := Woken(s.pcs, s.waiters));
    if next == s.tail then w
    else w.(buf := s.buf[s.head := c], head := next, accepted := s.accepted + [c])
  }

  /** Registering and blocking, which happens with interrupts disabled. */
  function Sleep(s: State, t: nat): (r: State) {
    if s.head != s.tail then s.(pcs := s.pcs[t := Testing])
    else
      var waiters := if |s.waiters| < WAIT_MAX then s.waiters + [t] else s.waiters;
      s.(waiters := waiters, pcs := s.pcs[t := Blocked])
  }

  /** The next step of task t. A blocked task has none. */
  function Advance(s: State, t: nat): (r: State)
    requires Shape(s) && t in s.pcs
  {
    match s.pcs[t]
    case Testing => s.(pcs := s.pcs[t := if s.head != s.tail then InPoll else Idle])
    case InPoll => s.(pcs := s.pcs[t := if s.head != s.tail then Reading else Testing])
    case Reading => s.(pcs := s.pcs[t := Storing(s.buf[s.tail])])
    case Storing(c) => s.(pcs := s.pcs[t := Testing], tail := (s.tail + 1) % 256, delivered := s.delivered + [c])
    case Idle => Sleep(s, t)
    case Blocked => s
  }

  datatype Event = Key(c: Byte) | Task(t: nat)

  function Step(s: State, e: Event): (r: State)
    requires Shape(s)
    ensures Shape(r) && r.pcs.Keys == s.pcs.Keys
  {
    match e
    case Key(c) => Irq(s, c)
    case Task(t) => if t in s.pcs then Advance(s, t) else s
  }

  function Run(s: State, events: seq<Event>): (r: State)
    requires Shape(s)
    ensures Shape(r) && r.pcs.Keys == s.pcs.Keys
    decreases |events|
  {
    if events == [] then s else Run(Step(s, events[0]), events[1..])
  }

  // ---------------------------------------------------------------- the invariant

  predicate Held(s: State) {
    && Shape(s) && s.delivered <= s.accepted && |s.accepted| <= |s.delivered| + 255
    && s.tail == |s.delivered| % 256 && s.head == |s.accepted| % 256
    && forall i :: |s.delivered| <= i < |s.accepted| ==> s.buf[i % 256] == s.accepted[i]
  }

  predicate Polling(pc: Pc) {
    pc.Reading? || pc.Storing?
  }

  /** A task past the test in keyboard_poll has a character to take, and the one it holds is the oldest. */
  predicate PollSound(s: State, t: nat)
    requires t in s.pcs
  {
    && (Polling(s.pcs[t]) ==> |s.delivered| < |s.accepted|)
    && (s.pcs[t].Storing? && |s.delivered| < |s.accepted| ==> s.pcs[t].c == s.accepted[|s.delivered|])
  }

  predicate OnePoller(s: State) {
    forall t, u :: t in s.pcs && u in s.pcs && Polling(s.pcs[t]) && Polling(s.pcs[u]) ==> t == u
  }

  /** Blocked tasks are exactly the registered ones, and while there is one no character waits. */
  ghost predicate WaitersSound(s: State) {
    && |s.waiters| <= WAIT_MAX && Distinct(s.waiters)
    && (forall t :: t in s.waiters ==> t in s.pcs)
    && (forall t :: t in s.pcs ==> (s.pcs[t].Blocked? <==> t in s.waiters))
    && (s.waiters != [] ==> s.accepted == s.delivered)
  }

  ghost predicate Inv(s: State) {
    Shape(s) && Held(s) && OnePoller(s) && WaitersSound(s) && forall t :: t in s.pcs ==> PollSound(s, t)
  }

  /** Nobody else is inside keyboard_poll. */
  predicate Alone(s: State, t: nat) {
    forall u :: u in s.pcs && u != t ==> !Polling(s.pcs[u])
  }

  /** The discipline under which the promises hold: one task at a time takes a character, at most eight wait. */
  predicate Fair(s: State, e: Event) {
    e.Task? && e.t in s.pcs ==>
      && (s.pcs[e.t].InPoll? ==> Alone(s, e.t))
      && (s.pcs[e.t].Idle? ==> |s.waiters| < WAIT_MAX)
  }

  predicate FairRun(s: State, events: seq<Event>)
    requires Shape(s)
    decreases |events|
  {
    events == [] || (Fair(s, events[0]) && FairRun(Step(s, events[0]), events[1..]))
  }

  /** Under Held, head and tail meet exactly when nothing waits, and the ring is full exactly at 255. */
  lemma RingTests(s: State)
    requires Held(s)
    ensures s.head == s.tail <==> |s.accepted| == |s.delivered|
    ensures (s.head + 1) % 256 == s.tail <==> |s.accepted| == |s.delivered| + 255
  {
    RingArithmetic(|s.delivered|, |s.accepted|);
  }

  lemma RingArithmetic(d: nat, a: nat)
    requires d <= a <= d + 255
    ensures a % 256 == d % 256 <==> a == d
    ensures (a % 256 + 1) % 256 == d % 256 <==> a == d + 255
    ensures (a + 1) % 256 == (a % 256 + 1) % 256 && (d + 1) % 256 == (d % 256 + 1) % 256
  {
    RingNext(a);
    RingNext(d);
    if a > d {
      SlotFree(d, a);
    }
    if a < d + 255 {
      SlotFree(d, a + 1);
    } else {
      assert (d + 256) % 256 == d % 256;
    }
  }

  lemma RingNext(a: nat)
    ensures (a + 1) % 256 == (a % 256 + 1) % 256
  {
  }

  lemma SlotFree(i: nat, a: nat)
    requires i < a < i + 256
    ensures i % 256 != a % 256
  {
  }

  // ---------------------------------------------------------------- every step keeps it

  /** A character is dropped exactly when 255 are waiting. */
  lemma KeyDroppedIffFull(s: State, c: Byte)
    requires Held(s)
    ensures Held(Irq(s, c)) && Irq(s, c).delivered == s.delivered
    ensures Irq(s, c).accepted == if |s.accepted| == |s.delivered| + 255 then s.accepted else s.accepted + [c]
  {
    var a, d, r := |s.accepted|, |s.delivered|, Irq(s, c);
    RingTests(s);
    RingArithmetic(d, a);
    if a < d + 255 {
      forall i | d <= i < a + 1
        ensures r.buf[i % 256] == r.accepted[i]
      {
        if i < a {
          SlotFree(i, a);
        }
      }
    }
  }

  lemma KeyKeepsInv(s: State, c: Byte)
    requires Inv(s)
    ensures Inv(Irq(s, c))
  {
    hide Held;
    KeyDroppedIffFull(s, c);
    var r := Irq(s, c);
    assert s.delivered <= s.accepted by {
      Prefix(s);
    }
    forall t | t in r.pcs
      ensures PollSound(r, t)
    {
      assert PollSound(s, t);
    }
  }

  lemma Prefix(s: State)
    requires Held(s)
    ensures s.delivered <= s.accepted
  {
  }

  lemma StoreKeepsHeld(s: State, t: nat)
    requires Held(s) && t in s.pcs && s.pcs[t].Storing? && PollSound(s, t)
    ensures Held(Advance(s, t)) && Advance(s, t).accepted == s.accepted
    ensures Advance(s, t).delivered == s.delivered + [s.accepted[|s.delivered|]]
  {
    RingArithmetic(|s.delivered|, |s.accepted|);
  }

  lemma StoreKeepsInv(s: State, t: nat)
    requires Inv(s) && t in s.pcs && s.pcs[t].Storing?
    ensures Inv(Advance(s, t))
  {
    StoreKeepsHeld(s, t);
    hide Held;
    var r := Advance(s, t);
    forall u | u in r.pcs
      ensures PollSound(r, u)
    {
      assert u != t ==> !Polling(s.pcs[u]);
    }
  }

  lemma OtherStepKeepsInv(s: State, t: nat)
    requires Inv(s) && t in s.pcs && !s.pcs[t].Storing? && Fair(s, Task(t))
    ensures Inv(Advance(s, t))
    ensures Advance(s, t).accepted == s.accepted && Advance(s, t).delivered == s.delivered
  {
    RingTests(s);
    var r := Advance(s, t);
    assert Held(r);
    assert s.pcs[t].Reading? ==> s.buf[s.tail] == s.accepted[|s.delivered|];
    hide Held;
    forall u | u in r.pcs
      ensures PollSound(r, u)
    {
      assert PollSound(s, u);
    }
  }

  lemma StepKeepsInv(s: State, e: Event)
    requires Inv(s) && Fair(s, e)
    ensures Inv(Step(s, e))
  {
    hide Inv;
    match e
    case Key(c) => KeyKeepsInv(s, c);
    case Task(t) =>
      if t in s.pcs {
        if s.pcs[t].Storing? {
          StoreKeepsInv(s, t);
        } else {
          OtherStepKeepsInv(s, t);
        }
      }
  }

  lemma {:induction false} RunKeepsInv(s: State, events: seq<Event>)
    requires Inv(s) && FairRun(s, events)
    ensures Inv(Run(s, events))
    decreases |events|
  {
    hide Held;
    hide Step;
    hide Fair;
    if events != [] {
      StepKeepsInv(s, events[0]);
      RunKeepsInv(Step(s, events[0]), events[1..]);
    }
  }

  /**
   No lost wake-up and no lost or repeated character, over every fair interleaving from the start: a task is blocked
   only while registered and only while no character waits, and readers have received a prefix of what was stored.
   */
  lemma NoLostWakeup(buf: seq<Byte>, tasks: set<nat>, events: seq<Event>, t: nat)
    requires |buf| == 256 && FairRun(Start(buf, tasks), events) && t in tasks
    ensures var r := Run(Start(buf, tasks), events);
            && r.delivered <= r.accepted
            && (r.pcs[t].Blocked? ==> t in r.waiters && r.delivered == r.accepted && r.head == r.tail)
  {
    hide FairRun;
    hide Run;
    RunKeepsInv(Start(buf, tasks), events);
  }

  // ---------------------------------------------------------------- at most eight readers

  /** Only one task at a time is inside keyboard_poll; nothing is asked of the waiters. */
  predicate Exclusive(s: State, events: seq<Event>)
    requires Shape(s)
    decreases |events|
  {
    events == [] ||
    ( && (events[0].Task? && events[0].t in s.pcs && s.pcs[events[0].t].InPoll? ==> Alone(s, events[0].t))
      && Exclusive(Step(s, events[0]), events[1..]))
  }

  lemma {:induction false} DistinctCount(ws: seq<nat>, ids: set<nat>)
    requires Distinct(ws)
    requires forall t :: t in ws ==> t in ids
    ensures |ws| <= |ids|
    decreases |ws|
  {
    if ws != [] {
      DistinctCount(ws[1..], ids - {ws[0]});
    }
  }

  /** With eight tasks in all, one that is about to sleep finds room among the waiters. */
  lemma RoomForEight(s: State, t: nat)
    requires Inv(s) && |s.pcs.Keys| <= WAIT_MAX && t in s.pcs && s.pcs[t].Idle?
    ensures |s.waiters| < WAIT_MAX
  {
    DistinctCount(s.waiters, s.pcs.Keys - {t});
  }

  lemma {:induction false} EightAreFair(s: State, events: seq<Event>)
    requires Inv(s) && |s.pcs.Keys| <= WAIT_MAX && Exclusive(s, events)
    ensures FairRun(s, events)
    decreases |events|
  {
    hide Held;
    hide Step;
    if events != [] {
      var e := events[0];
      if e.Task? && e.t in s.pcs && s.pcs[e.t].Idle? {
        RoomForEight(s, e.t);
      }
      StepKeepsInv(s, e);
      EightAreFair(Step(s, e), events[1..]);
    }
  }

  /** The promise for at most eight readers, over every interleaving with exclusive polls. */
  lemma EightReadersNeverLost(buf: seq<Byte>, tasks: set<nat>, events: seq<Event>, t: nat)
    requires |buf| == 256 && |tasks| <= 8 && Exclusive(Start(buf, tasks), events) && t in tasks
    ensures var r := Run(Start(buf, tasks), events);
            && r.delivered <= r.accepted
            && (r.pcs[t].Blocked? ==> t in r.waiters && r.delivered == r.accepted && r.head == r.tail)
  {
    hide Exclusive;
    hide FairRun;
    hide Run;
    assert Start(buf, tasks).pcs.Keys == tasks;
    EightAreFair(Start(buf, tasks), events);
    NoLostWakeup(buf, tasks, events, t);
  }

  // ---------------------------------------------------------------- where the discipline is needed

  /** A task blocked without being registered stays blocked whatever happens, keys included. */
  lemma {:induction false} UnregisteredSleepsForever(s: State, events: seq<Event>, t: nat)
    requires Shape(s) && t in s.pcs && s.pcs[t].Blocked? && t !in s.waiters
    ensures Run(s, events).pcs[t].Blocked? && t !in Run(s, events).waiters
    decreases |events|
  {
    if events != [] {
      var n := Step(s, events[0]);
      assert n.pcs[t].Blocked? && t !in n.waiters;
      UnregisteredSleepsForever(n, events[1..], t);
    }
  }

  /** The steps by which the two tasks finish, the newcomer t first. */
  function Finish(s: State, t: nat, u: nat): (es: seq<Event>)
    requires u in s.pcs
  {
    if s.pcs[u].Reading? then [Task(t), Task(t), Task(u), Task(t), Task(u)] else [Task(t), Task(t), Task(t), Task(u)]
  }

  /** A second task entering keyboard_poll while u is inside can always make one character be delivered twice. */
  lemma SecondPollerRepeats(s: State, t: nat, u: nat)
    requires Inv(s) && t in s.pcs && u in s.pcs && t != u
    requires s.pcs[t].InPoll? && Polling(s.pcs[u])
    ensures var c := s.accepted[|s.delivered|]; Run(s, Finish(s, t, u)).delivered == s.delivered + [c, c]
    ensures Run(s, Finish(s, t, u)).accepted == s.accepted
  {
    RingTests(s);
    assert PollSound(s, u);
    var c := s.accepted[|s.delivered|];
    assert s.buf[s.tail] == c;
    if s.pcs[u].Reading? {
      ReaderRepeats(s, t, u, c);
    } else {
      HolderRepeats(s, t, u, c);
    }
  }

  lemma ReaderRepeats(s: State, t: nat, u: nat, c: Byte)
    requires Shape(s) && t in s.pcs && u in s.pcs && t != u && s.head != s.tail && s.buf[s.tail] == c
    requires s.pcs[t].InPoll? && s.pcs[u].Reading?
    ensures Run(s, Finish(s, t, u)).delivered == s.delivered + [c, c]
    ensures Run(s, Finish(s, t, u)).accepted == s.accepted
  {
    var s2 := s.(pcs := s.pcs[t := Storing(c)]);
    assert Step(Step(s, Task(t)), Task(t)) == s2;
    var s3 := s2.(pcs := s2.pcs[u := Storing(c)]);
    assert Step(s2, Task(u)) == s3;
    BothStore(s3, t, u, c);
    Five(s, Finish(s, t, u));
  }

  lemma HolderRepeats(s: State, t: nat, u: nat, c: Byte)
    requires Shape(s) && t in s.pcs && u in s.pcs && t != u && s.head != s.tail && s.buf[s.tail] == c
    requires s.pcs[t].InPoll? && s.pcs[u] == Storing(c)
    ensures Run(s, Finish(s, t, u)).delivered == s.delivered + [c, c]
    ensures Run(s, Finish(s, t, u)).accepted == s.accepted
  {
    var s2 := s.(pcs := s.pcs[t := Storing(c)]);
    assert Step(Step(s, Task(t)), Task(t)) == s2;
    BothStore(s2, t, u, c);
    Four(s, Finish(s, t, u));
  }

  lemma BothStore(s: State, t: nat, u: nat, c: Byte)
    requires Shape(s) && t in s.pcs && u in s.pcs && t != u && s.pcs[t] == s.pcs[u] == Storing(c)
    ensures var r := Step(Step(s, Task(t)), Task(u));
            r.delivered == s.delivered + [c, c] && r.accepted == s.accepted
  {
  }

  lemma Four(s: State, es: seq<Event>)
    requires Shape(s) && |es| == 4
    ensures Run(s, es) == Step(Step(Step(Step(s, es[0]), es[1]), es[2]), es[3])
  {
    hide Step;
    var s1 := Step(s, es[0]);
    assert Run(s1, es[1..]) == Run(Step(s1, es[1]), es[2..]) by {
      assert es[1..][1..] == es[2..];
    }
    var s2 := Step(s1, es[1]);
    assert Run(s2, es[2..]) == Run(Step(s2, es[2]), es[3..]) by {
      assert es[2..][1..] == es[3..];
    }
    var s3 := Step(s2, es[2]);
    assert Run(s3, es[3..]) == Step(s3, es[3]) by {
      assert es[3..][1..] == [];
    }
  }

  lemma Five(s: State, es: seq<Event>)
    requires Shape(s) && |es| == 5
    ensures Run(s, es) == Step(Step(Step(Step(Step(s, es[0]), es[1]), es[2]), es[3]), es[4])
  {
    hide Step;
    Four(Step(s, es[0]), es[1..]);
  }

  lemma {:induction false} RunAppend(s: State, es: seq<Event>, fs: seq<Event>)
    requires Shape(s)
    ensures Run(s, es + fs) == Run(Run(s, es), fs)
    decreases |es|
  {
    hide Step;
    if es == [] {
      assert es + fs == fs;
    } else {
      assert (es + fs)[1..] == es[1..] + fs;
      RunAppend(Step(s, es[0]), es[1..], fs);
    }
  }

  /** After one key, with u past the test of keyboard_poll, t before it and nobody else moved. */
  function BothInside(buf: seq<Byte>, tasks: set<nat>, t: nat, u: nat, c: Byte): (s: State)
    requires |buf| == 256
  {
    State(buf[0 := c], 1, 0, [], Start(buf, tasks).pcs[u := Reading][t := InPoll], [c], [])
  }

  lemma BothStepInside(buf: seq<Byte>, tasks: set<nat>, t: nat, u: nat, c: Byte)
    requires |buf| == 256 && t in tasks && u in tasks && t != u
    ensures Run(Start(buf, tasks), [Key(c), Task(u), Task(t), Task(u)]) == BothInside(buf, tasks, t, u, c)
  {
    var s := Start(buf, tasks);
    Four(s, [Key(c), Task(u), Task(t), Task(u)]);
    var s1 := s.(buf := buf[0 := c], head := 1, accepted := [c]);
    assert Woken(s.pcs, []) == s.pcs;
    assert Step(s, Key(c)) == s1;
    var s2 := s1.(pcs := s.pcs[u := InPoll]);
    assert Step(s1, Task(u)) == s2;
    var s3 := s1.(pcs := s.pcs[u := InPoll][t := InPoll]);
    assert Step(s2, Task(t)) == s3;
    assert s3.pcs[u := Reading] == s.pcs[u := Reading][t := InPoll];
    assert Step(s3, Task(u)) == BothInside(buf, tasks, t, u, c);
  }

  lemma BothInsideInv(buf: seq<Byte>, tasks: set<nat>, t: nat, u: nat, c: Byte)
    requires |buf| == 256 && t in tasks && u in tasks && t != u
    ensures Inv(BothInside(buf, tasks, t, u, c))
  {
  }

  /** Two tasks, one key: the first steps into keyboard_poll, the second follows, both get the character. */
  lemma TwoPollersFromStart(buf: seq<Byte>, tasks: set<nat>, t: nat, u: nat, c: Byte) returns (es: seq<Event>)
    requires |buf| == 256 && t in tasks && u in tasks && t != u
    ensures var r := Run(Start(buf, tasks), es); r.accepted == [c] && r.delivered == [c, c]
  {
    hide Run;
    hide Inv;
    hide Finish;
    var s, r := Start(buf, tasks), BothInside(buf, tasks, t, u, c);
    BothInsideInv(buf, tasks, t, u, c);
    SecondPollerRepeats(r, t, u);
    BothStepInside(buf, tasks, t, u, c);
    var fs := [Key(c), Task(u), Task(t), Task(u)];
    RunAppend(s, fs, Finish(r, t, u));
    es := fs + Finish(r, t, u);
    assert Run(s, es).delivered == [] + [c, c];
  }

  /** A lone reader is always alone. */
  lemma {:induction false} LoneReaderExclusive(s: State, events: seq<Event>)
    requires Shape(s) && forall t, u :: t in s.pcs && u in s.pcs ==> t == u
    ensures Exclusive(s, events)
    decreases |events|
  {
    hide Polling;
    if events != [] {
      LoneReaderExclusive(Step(s, events[0]), events[1..]);
    }
  }

  lemma LoneReaderPrefix(buf: seq<Byte>, tasks: set<nat>, es: seq<Event>)
    requires |buf| == 256 && |tasks| <= 1
    ensures var r := Run(Start(buf, tasks), es); r.delivered <= r.accepted
  {
    hide Run;
    hide Exclusive;
    hide FairRun;
    var s := Start(buf, tasks);
    assert s.pcs.Keys == tasks;
    forall t, u | t in tasks && u in tasks
      ensures t == u
    {
      if t != u {
        SubsetSize({t, u}, tasks);
      }
    }
    LoneReaderExclusive(s, es);
    EightAreFair(s, es);
    RunKeepsInv(s, es);
  }

  /** Readers always receive a prefix of what was stored, in every interleaving, exactly if at most one reads. */
  lemma PrefixIffOneReader(buf: seq<Byte>, tasks: set<nat>)
    requires |buf| == 256
    ensures (forall es :: Run(Start(buf, tasks), es).delivered <= Run(Start(buf, tasks), es).accepted)
            <==> |tasks| <= 1
  {
    hide Run;
    if |tasks| <= 1 {
      forall es
        ensures Run(Start(buf, tasks), es).delivered <= Run(Start(buf, tasks), es).accepted
      {
        LoneReaderPrefix(buf, tasks, es);
      }
    } else {
      var t :| t in tasks;
      SubsetSize(tasks, {t} + (tasks - {t}));
      var u :| u in tasks - {t};
      var es := TwoPollersFromStart(buf, tasks, t, u, 0);
      assert !(Run(Start(buf, tasks), es).delivered <= Run(Start(buf, tasks), es).accepted);
    }
  }

  // ---------------------------------------------------------------- the ninth reader

  /** Every task of ts finds the ring empty and goes to sleep. */
  function Lull(ts: seq<nat>): (es: seq<Event>) {
    if ts == [] then [] else [Task(ts[0]), Task(ts[0])] + Lull(ts[1..])
  }

  /** The first eight of the waiters and those after them. */
  function Registered(waiters: seq<nat>, ts: seq<nat>): (r: seq<nat>) {
    var all := waiters + ts;
    if |all| <= WAIT_MAX then all else all[..WAIT_MAX]
  }

  lemma OneSleeps(s: State, t: nat)
    requires Shape(s) && t in s.pcs && s.pcs[t].Testing? && s.head == s.tail && |s.waiters| <= WAIT_MAX
    ensures var n := Step(Step(s, Task(t)), Task(t));
            n == s.(waiters := Registered(s.waiters, [t]), pcs := s.pcs[t := Blocked])
  {
    var m := Step(s, Task(t));
    assert m == s.(pcs := s.pcs[t := Idle]);
    assert m.pcs[t := Blocked] == s.pcs[t := Blocked];
    assert (s.waiters + [t])[..|s.waiters|] == s.waiters;
  }

  lemma {:induction false} AllSleep(s: State, ts: seq<nat>)
    requires Shape(s) && s.head == s.tail && |s.waiters| <= WAIT_MAX
    requires forall i :: 0 <= i < |ts| ==> ts[i] in s.pcs && s.pcs[ts[i]].Testing?
    requires Distinct(ts)
    ensures Exclusive(s, Lull(ts))
    ensures var r := Run(s, Lull(ts));
            && r.waiters == Registered(s.waiters, ts)
            && forall i :: 0 <= i < |ts| ==> r.pcs[ts[i]].Blocked?
    decreases |ts|
  {
    if ts == [] {
      assert s.waiters + ts == s.waiters;
    } else {
      var t, es := ts[0], Lull(ts);
      var m := Step(s, Task(t));
      var n := Step(m, Task(t));
      OneSleeps(s, t);
      assert es[0] == es[1] == Task(t) && es[1..][1..] == Lull(ts[1..]);
      AllSleep(n, ts[1..]);
      assert Run(s, es) == Run(m, es[1..]) == Run(n, Lull(ts[1..]));
      RegisteredTwice(s.waiters, ts);
      StillBlocked(n, Lull(ts[1..]), ts[1..], t);
      forall i | 0 <= i < |ts|
        ensures Run(s, es).pcs[ts[i]].Blocked?
      {
        if i > 0 {
          assert ts[i] == ts[1..][i - 1];
        }
      }
    }
  }

  lemma RegisteredTwice(waiters: seq<nat>, ts: seq<nat>)
    requires ts != [] && |waiters| <= WAIT_MAX
    ensures Registered(Registered(waiters, [ts[0]]), ts[1..]) == Registered(waiters, ts)
  {
    assert waiters + ts == waiters + [ts[0]] + ts[1..];
    if |waiters| == WAIT_MAX {
      assert (waiters + ts)[..WAIT_MAX] == waiters;
      assert (waiters + ts[1..])[..WAIT_MAX] == waiters;
    }
  }

  /** Lulling other tasks does not move one that is blocked. */
  lemma {:induction false} StillBlocked(s: State, es: seq<Event>, ts: seq<nat>, t: nat)
    requires Shape(s) && t in s.pcs && s.pcs[t].Blocked? && es == Lull(ts)
    ensures Run(s, es).pcs[t].Blocked?
    decreases |ts|
  {
    if ts != [] {
      var m := Step(s, Task(ts[0]));
      var n := Step(m, Task(ts[0]));
      assert es[1..][1..] == Lull(ts[1..]);
      assert n.pcs[t].Blocked?;
      StillBlocked(n, Lull(ts[1..]), ts[1..], t);
      assert Run(s, es) == Run(m, es[1..]) == Run(n, Lull(ts[1..]));
    }
  }

  /** The elements of a set in some order. */
  lemma {:induction false} Enumerate(ids: set<nat>) returns (ts: seq<nat>)
    ensures |ts| == |ids| && (forall i :: 0 <= i < |ts| ==> ts[i] in ids)
    ensures Distinct(ts)
    decreases |ids|
  {
    if ids == {} {
      ts := [];
    } else {
      var t :| t in ids;
      ts := Enumerate(ids - {t});
      ts := [t] + ts;
    }
  }

  /** After an exclusive run from the start and one more key, task t is still asleep. */
  predicate SleepsThroughKey(buf: seq<Byte>, tasks: set<nat>, es: seq<Event>, c: Byte, t: nat)
    requires |buf| == 256
  {
    var s := Start(buf, tasks);
    Exclusive(s, es) && t in tasks && Irq(Run(s, es), c).pcs[t].Blocked?
  }

  /** With more than eight readers, one can be left asleep by every key there will ever be. */
  lemma NinthReaderStranded(buf: seq<Byte>, tasks: set<nat>) returns (es: seq<Event>, t: nat)
    requires |buf| == 256 && |tasks| > 8
    ensures t in tasks && Exclusive(Start(buf, tasks), es)
    ensures Run(Start(buf, tasks), es).pcs[t].Blocked? && t !in Run(Start(buf, tasks), es).waiters
    ensures forall fs :: Run(Run(Start(buf, tasks), es), fs).pcs[t].Blocked?
  {
    var s := Start(buf, tasks);
    var ts := Enumerate(tasks);
    AllSleep(s, ts);
    es, t := Lull(ts), ts[WAIT_MAX];
    var r := Run(s, es);
    assert [] + ts == ts;
    assert r.waiters == ts[..WAIT_MAX];
    forall fs
      ensures Run(r, fs).pcs[t].Blocked?
    {
      UnregisteredSleepsForever(r, fs, t);
    }
  }

  /** Every key wakes every blocked reader, in every exclusive run, if and only if there are at most eight readers. */
  lemma KeysWakeEveryoneIff(buf: seq<Byte>, tasks: set<nat>)
    requires |buf| == 256
    ensures (forall es, c, t :: !SleepsThroughKey(buf, tasks, es, c, t)) <==> |tasks| <= 8
  {
    var s := Start(buf, tasks);
    if |tasks| <= WAIT_MAX {
      forall es, c, t
        ensures !SleepsThroughKey(buf, tasks, es, c, t)
      {
        if SleepsThroughKey(buf, tasks, es, c, t) {
          EightReadersNeverLost(buf, tasks, es, t);
          assert false;
        }
      }
    } else {
      var es, t := NinthReaderStranded(buf, tasks);
      var r := Run(s, es);
      assert Run(r, [Key(0)]) == Run(Step(r, Key(0)), [Key(0)][1..]) == Irq(r, 0);
      assert SleepsThroughKey(buf, tasks, es, 0, t);
    }
  }

  // ---------------------------------------------------------------- the driver's code

  /** The driver's variables, with the tasks' positions as the scheduler sees them. */
  class Device {
    const buf: array<Byte>
    var head: nat
    var tail: nat
    const slots: array<nat>
    var count: nat
    var pcs: map<nat, Pc>
    ghost var accepted: seq<Byte>
    ghost var delivered: seq<Byte>

    ghost predicate Ready()
      reads this, buf, slots
    {
      buf.Length == 256 && slots.Length == 8 && count <= 8 && head < 256 && tail < 256
    }

    ghost function View(): (s: State)
      requires Ready()
      reads this, buf, slots
    {
      State(buf[..], head, tail, slots[..count], pcs, accepted, delivered)
    }

    constructor (tasks: set<nat>)
      ensures Ready() && fresh(buf) && fresh(slots) && View() == Start(View().buf, tasks) && Inv(View())
    {
      buf, slots := new Byte[256](i => 0), new nat[8](i => 0);
      head, tail, count := 0, 0, 0;
      pcs := map t | t in tasks :: Testing;
      accepted, delivered := [], [];
    }

    /** The loop of kb_irq_handler that unblocks every registered waiter. */
    method WakeAll()
      requires Ready() && (forall i :: 0 <= i < count ==> slots[i] in pcs)
      modifies this`pcs, this`count
      ensures Ready() && count == 0 && pcs == Woken(old(pcs), slots[..old(count)])
    {
      var i := 0;
      while i < count
        invariant 0 <= i <= count && count == old(count)
        invariant pcs == Woken(old(pcs), slots[..i])
      {
        pcs := pcs[slots[i] := Testing];
        assert slots[..i + 1] == slots[..i] + [slots[i]];
        i := i + 1;
      }
      count := 0;
    }

    /** kb_irq_handler once the scancode is decoded: store or drop the character, then unblock every waiter. */
    method HandleKey(c: Byte)
      requires Ready() && (forall i :: 0 <= i < count ==> slots[i] in pcs)
      modifies this, buf
      ensures Ready() && View() == Irq(old(View()), c)
    {
      var next := (head + 1) % 256;
      if next != tail {
        buf[head] := c;
        head := next;
        accepted := accepted + [c];
      }
      WakeAll();
    }

    /** keyboard_poll, run without interruption. */
    method Poll() returns (c: Option<Byte>)
      requires Ready() && Held(View())
      modifies this
      ensures Ready() && Held(View()) && accepted == old(accepted)
      ensures c.None? <==> old(accepted) == old(delivered)
      ensures delivered == old(delivered) + (if c.Some? then [c.value] else [])
      ensures count == old(count) && pcs == old(pcs)
    {
      RingTests(View());
      if head == tail {
        return None;
      }
      RingArithmetic(|delivered|, |accepted|);
      var x := buf[tail];
      tail := (tail + 1) % 256;
      delivered := delivered + [x];
      c := Some(x);
    }
  }
}
