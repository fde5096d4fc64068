/** Failover: the backup server counts ARP heartbeats, a detached timer per heartbeat checks whether another
    one followed, and the main loop takes over.  Times are microseconds. */
module Failover {
  import opened Outcomes

  /** A timer thread has a starting time once it has begun to run. */
  type Timers = map<nat, Option<nat>>

  datatype Snapshot = Snapshot(
    macFlag: int,
    threadCount: nat,
    macCloned: bool,
    backup: bool,
    hwaddress: nat,
    cloneFlag: int,
    programs: nat,
    timers: Timers,
    clock: nat)

  /** The atomic steps: an ARP packet arrives, a timer thread starts to run, a timer thread finds its time
      over and compares the counts, the main loop comes round, time passes. */
  datatype Event =
    | Arp(fromMain: bool, hwaddress: nat)
    | TimerStarts(id: nat)
    | TimerEnds(id: nat)
    | MainLoop
    | Tick(duration: nat)

  const TIMEOUT: nat := 1_500_000

  function Initial(clock: nat): Snapshot {
    Snapshot(0, 0, false, true, 0, 0, 0, map[], clock)
  }

  predicate Enabled(s: Snapshot, e: Event) {
    match e
    case TimerStarts(id) => id in s.timers && s.timers[id].None?
    case TimerEnds(id) => id in s.timers && s.timers[id].Some? && s.clock - s.timers[id].value > TIMEOUT
    case _ => true
  }

  function ArpStep(s: Snapshot, fromMain: bool, hwaddress: nat): Snapshot {
    var s1 := if s.macFlag == 1 && !s.macCloned then s.(backup := false, macCloned := true) else s;
    if fromMain && s1.macFlag != 1 then
      s1.(threadCount := s1.threadCount + 1, timers := s1.timers[s1.threadCount + 1 := None], hwaddress := hwaddress)
    else s1
  }

  function Step(s: Snapshot, e: Event): Snapshot {
    match e
    case Arp(fromMain, hwaddress) => ArpStep(s, fromMain, hwaddress)
    case TimerStarts(id) => s.(timers := s.timers[id := Some(s.clock)])
    case TimerEnds(id) => s.(timers := s.timers - {id}, macFlag := if s.threadCount == id then 1 else s.macFlag)
    case MainLoop =>
      if !s.backup && s.cloneFlag == 0 then s.(backup := false, programs := s.programs + 1, cloneFlag := 1) else s
    case Tick(duration) => s.(clock := s.clock + duration)
  }

  /** The backup server.  Each method is one atomic step; data races between the threads are not modelled. */
  class BackupServer {
    var macFlag: int
    var threadCount: nat
    var macCloned: bool
    var backup: bool
    var hwaddress: nat
    var cloneFlag: int
    var programs: nat
    var timers: Timers
    var clock: nat

    constructor (clock: nat)
      ensures State() == Initial(clock)
    {
      macFlag, threadCount, macCloned := 0, 0, false;
      backup, hwaddress := true, 0;
      cloneFlag, programs := 0, 0;
      timers := map[];
      this.clock := clock;
    }

    ghost function State(): Snapshot
      reads this
    {
      Snapshot(macFlag, threadCount, macCloned, backup, hwaddress, cloneFlag, programs, timers, clock)
    }

    /** `callback`: the sniffer has seen an ARP packet. */
    method Callback(fromMain: bool, sender: nat)
      modifies this
      ensures State() == Step(old(State()), Arp(fromMain, sender))
    {
      if macFlag == 1 && !macCloned {
        backup := false;
        macCloned := true;
      }
      if fromMain && macFlag != 1 {
        threadCount := threadCount + 1;
        timers := timers[threadCount := None];
        hwaddress := sender;
      }
    }

    /** The first line of `threadTimer`. */
    method StartTimer(id: nat)
      requires Enabled(State(), TimerStarts(id))
      modifies this
      ensures State() == Step(old(State()), TimerStarts(id))
    {
      timers := timers[id := Some(clock)];
    }

    /** What `threadTimer` does when its loop has ended. */
    method EndTimer(id: nat)
      requires Enabled(State(), TimerEnds(id))
      modifies this
      ensures State() == Step(old(State()), TimerEnds(id))
    {
      timers := timers - {id};
      if threadCount == id {
        macFlag := 1;
      }
    }

    /** One round of the main loop of the backup server. */
    method Loop()
      modifies this
      ensures State() == Step(old(State()), MainLoop)
    {
      if !backup && cloneFlag == 0 {
        backup := false;
        programs := programs + 1;
        cloneFlag := 1;
      }
    }

    method Pass(duration: nat)
      modifies this
      ensures State() == Step(old(State()), Tick(duration))
    {
      clock := clock + duration;
    }
  }

  // ----- runs -----

  function Run(clock: nat, es: seq<Event>): Snapshot {
    if es == [] then Initial(clock) else Step(Run(clock, es[..|es| - 1]), es[|es| - 1])
  }

  /** Every step was possible when it was taken. */
  predicate Possible(clock: nat, es: seq<Event>) {
    forall i | 0 <= i < |es| :: Enabled(Run(clock, es[..i]), es[i])
  }

  /** The number of heartbeats. */
  function Heartbeats(es: seq<Event>): nat {
    if es == [] then 0
    else
      var e := es[|es| - 1];
      Heartbeats(es[..|es| - 1]) + if e.Arp? && e.fromMain then 1 else 0
  }

  /** The time of the last heartbeat. */
  function LastHeartbeat(clock: nat, es: seq<Event>): Option<nat> {
    if es == [] then None
    else
      var e := es[|es| - 1];
      if e.Arp? && e.fromMain then Some(Run(clock, es[..|es| - 1]).clock) else LastHeartbeat(clock, es[..|es| - 1])
  }

  /** The hardware address in the last heartbeat. */
  function LastAddress(es: seq<Event>): nat {
    if es == [] then 0
    else
      var e := es[|es| - 1];
      if e.Arp? && e.fromMain then e.hwaddress else LastAddress(es[..|es| - 1])
  }

  /** At `i` the timer of the last heartbeat ends. */
  predicate TimeOutAt(es: seq<Event>, i: nat) {
    i < |es| && es[i].TimerEnds? && es[i].id == Heartbeats(es[..i])
  }

  /** The state while no timeout has happened. */
  predicate Waiting(clock: nat, es: seq<Event>, s: Snapshot) {
    && s.macFlag == 0 && !s.macCloned && s.backup && s.cloneFlag == 0 && s.programs == 0
    && s.threadCount == Heartbeats(es) && s.hwaddress == LastAddress(es)
    && (forall id | id in s.timers :: 1 <= id <= s.threadCount)
    && (s.threadCount > 0 ==>
          s.threadCount in s.timers
          && var last := LastHeartbeat(clock, es);
          last.Some? && last.value <= s.clock
          && (s.timers[s.threadCount].Some? ==> last.value <= s.timers[s.threadCount].value <= s.clock))
  }

  /** The state after the timeout at `i`. */
  ghost predicate TakenOver(es: seq<Event>, i: nat, s: Snapshot) {
    && TimeOutAt(es, i) && (forall k: nat :: TimeOutAt(es, k) ==> k == i)
    && s.macFlag == 1
    && s.threadCount == Heartbeats(es[..i]) && s.hwaddress == LastAddress(es[..i])
    && (forall id | id in s.timers :: 1 <= id < s.threadCount)
    && s.macCloned == ArpAfter(es, i)
    && s.backup == !ArpAfter(es, i)
    && s.programs == (if LoopAfterArp(es, i) then 1 else 0)
    && s.cloneFlag == s.programs
  }

  /** An ARP packet, a heartbeat or not, arrives after `i`. */
  predicate ArpAfter(es: seq<Event>, i: nat) {
    exists j :: i < j < |es| && es[j].Arp?
  }

  /** After such a packet the main loop comes round. */
  predicate LoopAfterArp(es: seq<Event>, i: nat) {
    exists k :: i < k < |es| && es[k].MainLoop? && ArpAfter(es[..k], i)
  }

  ghost predicate Invariant(clock: nat, es: seq<Event>, s: Snapshot) {
    if exists i: nat :: TimeOutAt(es, i) then exists i: nat :: TakenOver(es, i, s) else Waiting(clock, es, s)
  }

  lemma {:induction false} HeartbeatsGrow(es: seq<Event>, i: nat)
    requires i <= |es|
    ensures Heartbeats(es[..i]) <= Heartbeats(es)
    decreases |es|
  {
    if i == |es| {
      assert es[..i] == es;
    } else {
      var g := es[..|es| - 1];
      assert g[..i] == es[..i];
      HeartbeatsGrow(g, i);
    }
  }

  /** What one more event adds to the timeouts and to what follows them. */
  lemma OneMore(es: seq<Event>, i: nat)
    requires es != []
    ensures var n := |es| - 1; var g, e := es[..n], es[n];
      && (TimeOutAt(es, i) <==> TimeOutAt(g, i) || (i == n && e.TimerEnds? && e.id == Heartbeats(g)))
      && (i < n ==> g[..i] == es[..i])
      && (ArpAfter(es, i) <==> ArpAfter(g, i) || (i < n && e.Arp?))
      && (LoopAfterArp(es, i) <==> LoopAfterArp(g, i) || (i < n && e.MainLoop? && ArpAfter(g, i)))
  {
    var n := |es| - 1;
    var g, e := es[..n], es[n];
    assert forall k | 0 <= k < n :: g[k] == es[k] && g[..k] == es[..k];
    if j :| i < j < |es| && es[j].Arp? {
      if j < n { assert g[j].Arp?; }
    }
    if j :| i < j < |g| && g[j].Arp? { assert es[j].Arp?; }
    if k :| i < k < |es| && es[k].MainLoop? && ArpAfter(es[..k], i) {
      if k < n { assert g[k].MainLoop? && ArpAfter(g[..k], i); }
    }
    if k :| i < k < |g| && g[k].MainLoop? && ArpAfter(g[..k], i) {
      assert es[k].MainLoop? && ArpAfter(es[..k], i);
    }
  }

  lemma WaitingStep(clock: nat, es: seq<Event>)
    requires es != []
    requires var g := es[..|es| - 1];
      Waiting(clock, g, Run(clock, g)) && Enabled(Run(clock, g), es[|es| - 1]) && forall i: nat :: !TimeOutAt(g, i)
    ensures Invariant(clock, es, Run(clock, es))
  {
    var n := |es| - 1;
    var g, e := es[..n], es[n];
    forall i: nat ensures TimeOutAt(es, i) <==> i == n && e.TimerEnds? && e.id == Heartbeats(g) { OneMore(es, i); }
    if TimeOutAt(es, n) {
      assert !ArpAfter(es, n) && !LoopAfterArp(es, n);
      assert TakenOver(es, n, Run(clock, es));
    } else {
      hide TimeOutAt, LastHeartbeat;
      LastHeartbeatStep(clock, es);
      assert Waiting(clock, es, Run(clock, es));
    }
  }

  lemma LastHeartbeatStep(clock: nat, es: seq<Event>)
    requires es != []
    ensures var e, g := es[|es| - 1], es[..|es| - 1];
      LastHeartbeat(clock, es) == if e.Arp? && e.fromMain then Some(Run(clock, g).clock) else LastHeartbeat(clock, g)
  {
  }

  lemma TakenOverStep(clock: nat, es: seq<Event>, i: nat)
    requires es != []
    requires var g := es[..|es| - 1]; TakenOver(g, i, Run(clock, g)) && Enabled(Run(clock, g), es[|es| - 1])
    ensures TakenOver(es, i, Run(clock, es))
  {
    var n := |es| - 1;
    var g, e := es[..n], es[n];
    assert i < n by { assert TimeOutAt(g, i); }
    HeartbeatsGrow(g, i);
    OneMore(es, i);
    forall k: nat ensures TimeOutAt(es, k) <==> TimeOutAt(g, k) { OneMore(es, k); }
    hide TimeOutAt, ArpAfter, LoopAfterArp, Heartbeats;
  }

  /** The invariant of every possible run. */
  lemma {:induction false} EveryRun(clock: nat, es: seq<Event>)
    requires Possible(clock, es)
    ensures Invariant(clock, es, Run(clock, es))
    decreases |es|
  {
    hide TakenOver, Waiting, TimeOutAt, Step, Enabled;
    if es == [] {
      NothingYet(clock);
    } else {
      var n := |es| - 1;
      var g := es[..n];
      PossiblePrefix(clock, es, n);
      EveryRun(clock, g);
      assert Enabled(Run(clock, g), es[n]);
      if i: nat :| TimeOutAt(g, i) {
        var k: nat :| TakenOver(g, k, Run(clock, g));
        TakenOverStep(clock, es, k);
        TakenOverHasTimeOut(es, k, Run(clock, es));
      } else {
        WaitingStep(clock, es);
      }
    }
  }

  lemma TakenOverHasTimeOut(es: seq<Event>, i: nat, s: Snapshot)
    requires TakenOver(es, i, s)
    ensures TimeOutAt(es, i)
  {
  }

  lemma NothingYet(clock: nat)
    ensures Waiting(clock, [], Initial(clock)) && forall i: nat :: !TimeOutAt([], i)
  {
  }

  lemma PossiblePrefix(clock: nat, es: seq<Event>, n: nat)
    requires Possible(clock, es) && n <= |es|
    ensures Possible(clock, es[..n])
  {
    hide Enabled, Run;
    forall i | 0 <= i < n ensures Enabled(Run(clock, es[..n][..i]), es[..n][i]) {
      assert es[..n][..i] == es[..i];
    }
  }

  lemma TimeOutOfPrefix(es: seq<Event>, i: nat, k: nat)
    requires i <= |es|
    ensures TimeOutAt(es[..i], k) ==> k < i && TimeOutAt(es, k)
  {
    assert k < i ==> es[..i][..k] == es[..k];
  }

  /** A timeout happens at most once, and only after a heartbeat that more than 1.5 seconds have passed since.
      Without any heartbeat it never happens. */
  lemma TimeOutIsLate(clock: nat, es: seq<Event>, i: nat)
    requires Possible(clock, es) && TimeOutAt(es, i)
    ensures forall k: nat :: TimeOutAt(es, k) ==> k == i
    ensures var last := LastHeartbeat(clock, es[..i]);
      last.Some? && Run(clock, es[..i]).clock - last.value > 1_500_000
  {
    EveryRun(clock, es);
    PossiblePrefix(clock, es, i);
    EveryRun(clock, es[..i]);
    var g := es[..i];
    forall k: nat ensures !TimeOutAt(g, k) { TimeOutOfPrefix(es, i, k); }
    hide LastHeartbeat;
    assert Enabled(Run(clock, g), es[i]);
  }

  /** What a run has led to, exactly: the flag is set if and only if a timeout has happened; from then on the
      count and the main server's address are frozen; the server stops being a backup with the first ARP packet
      after it; and the program is started, once, when the main loop comes round after that. */
  lemma TakeOverExactly(clock: nat, es: seq<Event>)
    requires Possible(clock, es)
    ensures var s := Run(clock, es);
      && (forall i: nat :: TimeOutAt(es, i) ==>
            && s.macFlag == 1
            && s.threadCount == Heartbeats(es[..i]) && s.hwaddress == LastAddress(es[..i])
            && (s.backup <==> !ArpAfter(es, i))
            && s.programs == if LoopAfterArp(es, i) then 1 else 0)
      && ((forall i: nat :: !TimeOutAt(es, i)) ==>
            s.macFlag == 0 && s.threadCount == Heartbeats(es) && s.hwaddress == LastAddress(es) && s.backup
            && s.programs == 0)
  {
    hide TimeOutAt, ArpAfter, LoopAfterArp, Run, Heartbeats, LastHeartbeat;
    EveryRun(clock, es);
  }

  lemma PossibleNext(clock: nat, es: seq<Event>, e: Event)
    requires Possible(clock, es) && Enabled(Run(clock, es), e)
    ensures Possible(clock, es + [e]) && Run(clock, es + [e]) == Step(Run(clock, es), e)
  {
    hide Enabled, Step;
    var fs := es + [e];
    assert fs[..|es|] == es;
    forall i | 0 <= i < |fs| ensures Enabled(Run(clock, fs[..i]), fs[i]) {
      if i < |es| { assert fs[..i] == es[..i]; }
    }
  }

  /** Silence: the pending timer starts unless it has, a microsecond more than its 1.5 seconds passes, it ends; then
      an ARP packet of somebody else arrives and the main loop comes round. */
  function Silence(s: Snapshot): (more: seq<Event>)
    requires s.threadCount in s.timers
    ensures |more| == 5
  {
    [if s.timers[s.threadCount].None? then TimerStarts(s.threadCount) else Tick(0), Tick(1_500_001),
     TimerEnds(s.threadCount), Arp(false, 0), MainLoop]
  }

  /** The state after further steps, and whether they are possible one after the other. */
  function After(s: Snapshot, more: seq<Event>): Snapshot
    decreases |more|
  {
    if more == [] then s else After(Step(s, more[0]), more[1..])
  }

  predicate AllEnabled(s: Snapshot, more: seq<Event>)
    decreases |more|
  {
    more == [] || (Enabled(s, more[0]) && AllEnabled(Step(s, more[0]), more[1..]))
  }

  lemma {:induction false} RunGoesOn(clock: nat, es: seq<Event>, more: seq<Event>)
    requires Possible(clock, es) && AllEnabled(Run(clock, es), more)
    ensures Possible(clock, es + more) && Run(clock, es + more) == After(Run(clock, es), more)
    decreases |more|
  {
    hide Possible, Enabled, Step, Run;
    if more == [] {
      assert es + more == es;
    } else {
      PossibleNext(clock, es, more[0]);
      RunGoesOn(clock, es + [more[0]], more[1..]);
      assert es + [more[0]] + more[1..] == es + more;
    }
  }

  lemma OneStep(s: Snapshot, e: Event, more: seq<Event>)
    ensures After(s, [e] + more) == After(Step(s, e), more)
    ensures AllEnabled(s, [e] + more) <==> Enabled(s, e) && AllEnabled(Step(s, e), more)
  {
    hide Enabled, Step;
    assert ([e] + more)[1..] == more;
  }

  lemma SilenceWorks(s: Snapshot)
    requires s.macFlag == 0 && !s.macCloned && s.cloneFlag == 0 && s.programs == 0 && s.threadCount in s.timers
    requires var timer := s.timers[s.threadCount]; timer.Some? ==> timer.value <= s.clock
    ensures AllEnabled(s, Silence(s)) && After(s, Silence(s)).programs == 1
  {
    hide After, AllEnabled;
    var more := Silence(s);
    var s1 := Step(s, more[0]);
    var s2 := Step(s1, more[1]);
    var s3 := Step(s2, more[2]);
    var s4 := Step(s3, more[3]);
    assert Enabled(s, more[0]) && Enabled(s1, more[1]) && Enabled(s2, more[2]);
    assert Step(s4, more[4]).programs == 1;
    assert more == [more[0]] + ([more[1]] + ([more[2]] + ([more[3]] + ([more[4]] + []))));
    NoStep(Step(s4, more[4]));
    OneStep(s4, more[4], []);
    OneStep(s3, more[3], [more[4]] + []);
    OneStep(s2, more[2], [more[3]] + ([more[4]] + []));
    OneStep(s1, more[1], [more[2]] + ([more[3]] + ([more[4]] + [])));
    OneStep(s, more[0], [more[1]] + ([more[2]] + ([more[3]] + ([more[4]] + []))));
  }

  lemma NoStep(s: Snapshot)
    ensures After(s, []) == s && AllEnabled(s, [])
  {
  }

  /** The timer of the last heartbeat is never lost: after at least one heartbeat and before a timeout, silence
      of the main server always allows the backup to take over. */
  lemma TakeOverIsReachable(clock: nat, es: seq<Event>)
    requires Possible(clock, es) && Heartbeats(es) > 0 && forall i: nat :: !TimeOutAt(es, i)
    ensures var s := Run(clock, es);
      && s.threadCount in s.timers
      && Possible(clock, es + Silence(s)) && Run(clock, es + Silence(s)).programs == 1
  {
    hide Run, Possible, Step, Enabled, Heartbeats, TimeOutAt, LastHeartbeat, Silence, After, AllEnabled;
    EveryRun(clock, es);
    var s := Run(clock, es);
    SilenceWorks(s);
    RunGoesOn(clock, es, Silence(s));
  }
}
