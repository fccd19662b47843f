/** What holds over whole runs of the scheduler. */
module SchedulerRuns {
  import opened SchedulerSpec
  import opened Sequences

  // ---- waiting for all of several events ----

  /** The references a command makes happen as events. */
  function Happens(s: State, c: Command): set<Ref> {
    match c
    case DoSignal(r) => {r}
    case DoStop(a) => if a in s.registered then {a} else {}
    case DoYield(YieldTerminated) => if s.current.Running? then {s.current.action} else {}
    case _ => {}
  }

  function HappenIn(s: State, cs: seq<Command>): set<Ref>
    requires LegalRun(s, cs)
  {
    if cs == [] then {} else HappenIn(s, cs[..|cs| - 1]) + Happens(Run(s, cs[..|cs| - 1]), cs[|cs| - 1])
  }

  function Outstanding(q: seq<Wait>, a: Ref): set<Ref> {
    set w | w in q && w.action == a :: w.event
  }

  lemma OutstandingAfterEvent(q: seq<Wait>, a: Ref, r: Ref)
    ensures Outstanding(WithoutEvent(q, r), a) == Outstanding(q, a) - {r}
    ensures HasWait(q, a) <==> Outstanding(q, a) != {}
  {
    WithoutEventMembers(q, r);
    if HasWait(q, a) {
      var w :| w in q && w.action == a;
      assert w.event in Outstanding(q, a);
    }
  }

  /** The two tables of waits. */
  predicate IsTable(p: Place) {
    p.InWaitEvents? || p.InSleepEvents?
  }

  function Table(s: State, p: Place): seq<Wait>
    requires IsTable(p)
  {
    if p.InWaitEvents? then s.waitEvents else s.sleepEvents
  }

  /** An event reaches a waiting action: it loses that event, and is active once none is left. */
  lemma SignalStep(s: State, r: Ref, a: Ref, p: Place)
    requires Located(s) && IsTable(p) && At(s, a, p)
    ensures var t := Signal(s, r);
      Outstanding(Table(t, p), a) == Outstanding(Table(s, p), a) - {r} &&
      (At(t, a, p) <==> Outstanding(Table(t, p), a) != {}) &&
      (At(t, a, Active) <==> Outstanding(Table(t, p), a) == {})
  {
    var t := Signal(s, r);
    OutstandingAfterEvent(Table(s, p), a, r);
    OutstandingAfterEvent(Table(t, p), a, r);
    SignalPlaces(s, r);
    assert !At(s, a, Active) && (p.InWaitEvents? ==> !At(s, a, InSleepEvents)) &&
      (p.InSleepEvents? ==> !At(s, a, InWaitEvents));
  }

  lemma OutstandingKept(q: seq<Wait>, p: seq<Wait>, a: Ref)
    requires forall w: Wait :: w.action == a ==> (w in q <==> w in p)
    ensures Outstanding(q, a) == Outstanding(p, a)
  {
  }

  /** Another action leaves: this one's waits stay. */
  lemma WithdrawStep(s: State, b: Ref, a: Ref, p: Place)
    requires IsTable(p) && a != b
    ensures Outstanding(Table(Withdraw(s, b), p), a) == Outstanding(Table(s, p), a)
    ensures forall q :: At(Withdraw(s, b), a, q) <==> At(s, a, q)
  {
    WithdrawPlaces(s, b);
    WithoutActionMembers(s.waitEvents, b);
    OutstandingKept(Table(Withdraw(s, b), p), Table(s, p), a);
  }

  /** What the action still waits for is all it waits for, and when there is nothing left it is active. */
  predicate WaitsFor(s: State, a: Ref, p: Place, left: set<Ref>)
    requires IsTable(p)
  {
    Outstanding(Table(s, p), a) == left && (At(s, a, p) <==> left != {}) && (At(s, a, Active) <==> left == {})
  }

  lemma SignalWaits(s: State, r: Ref, a: Ref, p: Place)
    requires Located(s) && IsTable(p) && At(s, a, p)
    ensures WaitsFor(Signal(s, r), a, p, Outstanding(Table(s, p), a) - {r})
  {
    SignalStep(s, r, a, p);
  }

  lemma StopStep(s: State, b: Ref, a: Ref, p: Place)
    requires Located(s) && IsTable(p) && At(s, a, p) && a != b && b in s.registered
    ensures WaitsFor(Stop(s, b), a, p, Outstanding(Table(s, p), a) - {b})
  {
    SignalStep(s, b, a, p);
    WithdrawStep(Signal(s, b), b, a, p);
  }

  lemma EndStep(s: State, a: Ref, p: Place)
    requires Located(s) && IsTable(p) && At(s, a, p) && s.current.Running?
    ensures WaitsFor(Yield(s, YieldTerminated), a, p, Outstanding(Table(s, p), a) - {s.current.action})
  {
    var b := s.current.action;
    var t := s.(current := Nothing, registered := s.registered - {b});
    assert !At(s, a, IsRunning);
    Leave(s, b);
    assert At(t, a, p);
    SignalStep(t, b, a, p);
  }

  lemma PauseStep(s: State, b: Ref, a: Ref, p: Place)
    requires Located(s) && IsTable(p) && At(s, a, p) && a != b
    ensures WaitsFor(Pause(s, b), a, p, Outstanding(Table(s, p), a))
  {
    assert !At(s, a, Active);
    OutstandingAfterEvent(Table(s, p), a, 0);
    if b in s.registered { WithdrawStep(s, b, a, p); }
  }

  lemma Unmoved(s: State, t: State, a: Ref, p: Place)
    requires IsTable(p) && At(s, a, p) && Table(t, p) == Table(s, p) && a !in t.active
    ensures WaitsFor(t, a, p, Outstanding(Table(s, p), a))
  {
    OutstandingAfterEvent(Table(s, p), a, 0);
  }

  /** One command, as a waiting action sees it. */
  lemma WaitStep(s: State, c: Command, a: Ref, p: Place)
    requires Located(s) && Legal(s, c) && IsTable(p) && At(s, a, p)
    requires p.InWaitEvents? ==> c != DoStop(a) && c != DoPause(a)
    ensures WaitsFor(Apply(s, c), a, p, Outstanding(Table(s, p), a) - Happens(s, c))
  {
    hide Signal, WaitsFor, Outstanding, Withdraw;
    assert !At(s, a, Active) && !At(s, a, Waiting) && !At(s, a, Sleeping) && !At(s, a, Paused);
    assert !At(s, a, IsRunning) && !At(s, a, InTimeouts);
    var t, all := Apply(s, c), Outstanding(Table(s, p), a);
    assert all - {} == all;
    match c
    case DoSignal(r) => SignalWaits(s, r, a, p);
    case DoStop(b) => if b in s.registered { StopStep(s, b, a, p); } else { Unmoved(s, t, a, p); }
    case DoPause(b) => PauseStep(s, b, a, p);
    case DoYield(YieldTerminated) => if s.current.Running? { EndStep(s, a, p); } else { Unmoved(s, t, a, p); }
    case DoYield(YieldWaitAll(events)) => NewWaits(s, c.reason, events, a, p);
    case DoYield(YieldSleepAll(events)) => NewWaits(s, c.reason, events, a, p);
    case DoTimeOut =>
      assert s.timeouts[0].action != a;
      Unmoved(s, t, a, p);
    case _ => Unmoved(s, t, a, p);
  }

  lemma NewWaits(s: State, reason: Reason, events: seq<Ref>, a: Ref, p: Place)
    requires Located(s) && IsTable(p) && At(s, a, p) && events != []
    requires reason == YieldWaitAll(events) || reason == YieldSleepAll(events)
    ensures WaitsFor(Yield(s, reason), a, p, Outstanding(Table(s, p), a))
  {
    assert !At(s, a, IsRunning) && !At(s, a, Active);
    OutstandingAfterEvent(Table(s, p), a, 0);
    if s.current.Running? {
      WaitsAdded(s.waitEvents, s.current.action, events);
      WaitsAdded(s.sleepEvents, s.current.action, events);
      OutstandingKept(Table(Yield(s, reason), p), Table(s, p), a);
    }
  }

  /** An action that waits, or sleeps, for all of a collection of events stays in its table, and out
      of the active list, as long as one of them has not happened, and becomes active, once,
      with the very command that makes the last of them happen: whatever their order, and
      whatever the other commands do. A sleeping one cannot be stopped or paused meanwhile. */
  lemma {:induction false} WaitAllTheorem(s: State, cs: seq<Command>, a: Ref, p: Place)
    requires Located(s) && LegalRun(s, cs) && IsTable(p) && At(s, a, p)
    requires p.InWaitEvents? ==> DoStop(a) !in cs && DoPause(a) !in cs
    ensures var t, left := Run(s, cs), Outstanding(Table(s, p), a) - HappenIn(s, cs);
      (left != {} ==> Outstanding(Table(t, p), a) == left && At(t, a, p) && !At(t, a, Active)) &&
      (left == {} && cs != [] && Outstanding(Table(s, p), a) - HappenIn(s, cs[..|cs| - 1]) != {} ==>
        At(t, a, Active) && NoDuplicates(t.active) && !At(t, a, p))
  {
    OutstandingAfterEvent(Table(s, p), a, 0);
    if cs == [] {
      assert !At(s, a, Active);
    } else {
      var n := |cs| - 1;
      WaitAllTheorem(s, cs[..n], a, p);
      RunLocated(s, cs[..n]);
      if Outstanding(Table(s, p), a) - HappenIn(s, cs[..n]) != {} {
        WaitStep(Run(s, cs[..n]), cs[n], a, p);
        RunLocated(s, cs);
        assert Outstanding(Table(s, p), a) - HappenIn(s, cs)
            == Outstanding(Table(s, p), a) - HappenIn(s, cs[..n]) - Happens(Run(s, cs[..n]), cs[n]);
      }
    }
  }

  // ---- round robin ----

  /** The actions a command takes out of the active list by name. */
  function Takes(s: State, c: Command): set<Ref>
    requires Legal(s, c)
  {
    match c
    case DoResume => {Front(s).active[0]}
    case DoStop(a) => {a}
    case DoPause(a) => {a}
    case _ => {}
  }

  function TakenIn(s: State, cs: seq<Command>): set<Ref>
    requires LegalRun(s, cs)
  {
    if cs == [] then {} else TakenIn(s, cs[..|cs| - 1]) + Takes(Run(s, cs[..|cs| - 1]), cs[|cs| - 1])
  }

  /** The first `k` active actions include all of `pending`, and `a` is not among them. */
  predicate Ahead(active: seq<Ref>, a: Ref, pending: set<Ref>, k: nat) {
    k <= |active| && a !in active[..k] && forall p :: p in pending ==> p in active[..k]
  }

  lemma {:induction false} WithoutPrefix(s: seq<Ref>, b: Ref, k: nat)
    requires k <= |s|
    ensures Without(s[..k], b) <= Without(s, b)
  {
    if k == |s| {
      assert s[..k] == s;
    } else {
      assert s[..|s| - 1][..k] == s[..k];
      WithoutPrefix(s[..|s| - 1], b, k);
    }
  }

  lemma NoneAhead(active: seq<Ref>, a: Ref, pending: set<Ref>, k: nat)
    requires Ahead(active, a, pending, k) && (k == 0 || active == [])
    ensures pending == {}
  {
    assert active[..k] == [];
    assert forall p :: p !in pending;
    assert |pending| == 0;
  }

  lemma AheadStep(s: State, c: Command, a: Ref, pending: set<Ref>, k: nat) returns (k': nat)
    requires Legal(s, c) && Ahead(s.active, a, pending, k)
    ensures Ahead(Apply(s, c).active, a, pending - Takes(s, c), k')
    ensures c == DoResume && Front(s).active[0] == a ==> pending == {}
  {
    k' := k;
    var t := Apply(s, c);
    match c
    case DoStop(b) =>
      if b in s.registered {
        var u := Signal(s, b);
        assert u.active[..k] == s.active[..k];
        k' := AheadWithout(u.active, a, b, pending, k);
      }
    case DoPause(b) =>
      if b in s.registered { k' := AheadWithout(s.active, a, b, pending, k); }
    case DoResume =>
      if s.active == [] || k == 0 {
        NoneAhead(s.active, a, pending, k);
        k' := 0;
      } else {
        k' := k - 1;
        assert s.active[..k] == [s.active[0]] + t.active[..k'];
      }
    case DoBeginCycle =>
      if Quiet(s) {
        NoneAhead(s.active, a, pending, k);
        k' := 0;
      }
    case _ => assert t.active[..k] == s.active[..k];
  }

  lemma AheadWithout(active: seq<Ref>, a: Ref, b: Ref, pending: set<Ref>, k: nat) returns (k': nat)
    requires Ahead(active, a, pending, k)
    ensures Ahead(Without(active, b), a, pending - {b}, k')
  {
    k' := |Without(active[..k], b)|;
    WithoutPrefix(active, b, k);
    WithoutMembers(active[..k], b);
  }

  /** An action that is not active now (one that has just yielded `wait`, say) is not resumed
      before every action that is active now has been resumed or taken out of the list. */
  lemma {:induction false} RoundRobinTheorem(s: State, cs: seq<Command>, a: Ref)
    requires a !in s.active && LegalRun(s, cs)
    ensures Legal(Run(s, cs), DoResume) && Resume(Run(s, cs)).current == Running(a) ==>
      forall b :: b in s.active ==> b in TakenIn(s, cs)
  {
    var pending := set b | b in s.active;
    var k := AheadRun(s, cs, a);
    if Legal(Run(s, cs), DoResume) && Resume(Run(s, cs)).current == Running(a) {
      var _ := AheadStep(Run(s, cs), DoResume, a, pending - TakenIn(s, cs), k);
      forall b | b in s.active ensures b in TakenIn(s, cs) {
        assert b in pending;
      }
    }
  }

  lemma {:induction false} AheadRun(s: State, cs: seq<Command>, a: Ref) returns (k: nat)
    requires a !in s.active && LegalRun(s, cs)
    ensures Ahead(Run(s, cs).active, a, (set b | b in s.active) - TakenIn(s, cs), k)
  {
    if cs == [] {
      k := |s.active|;
      assert s.active[..k] == s.active;
    } else {
      var n := |cs| - 1;
      k := AheadRun(s, cs[..n], a);
      var pending := (set b | b in s.active) - TakenIn(s, cs[..n]);
      k := AheadStep(Run(s, cs[..n]), cs[n], a, pending, k);
      assert (set b | b in s.active) - TakenIn(s, cs) == pending - Takes(Run(s, cs[..n]), cs[n]);
    }
  }

  /** An action that sleeps is not resumed before the next cycle begins, unless it is paused or stopped. */
  lemma {:induction false} SleepTheorem(s: State, cs: seq<Command>, a: Ref)
    requires Located(s) && LegalRun(s, cs) && At(s, a, Sleeping)
    requires DoBeginCycle !in cs && DoStop(a) !in cs && DoPause(a) !in cs
    ensures At(Run(s, cs), a, Sleeping)
    ensures Legal(Run(s, cs), DoResume) ==> Resume(Run(s, cs)).current != Running(a)
  {
    hide Located, Resume;
    if cs != [] {
      hide Apply;
      var n := |cs| - 1;
      SleepTheorem(s, cs[..n], a);
      SleepStep(Run(s, cs[..n]), cs[n], a);
    }
    RunLocated(s, cs);
    SleeperStays(Run(s, cs), a);
  }

  lemma SleeperStays(s: State, a: Ref)
    requires Located(s) && At(s, a, Sleeping)
    ensures Legal(s, DoResume) ==> Resume(s).current != Running(a)
  {
    assert !At(s, a, Active) && !At(s, a, Waiting);
  }

  lemma SleepStep(s: State, c: Command, a: Ref)
    requires Legal(s, c) && a in s.sleeping && c != DoBeginCycle && c != DoStop(a) && c != DoPause(a)
    ensures a in Apply(s, c).sleeping
  {
    match c
    case DoStop(b) => WithoutMembers(s.sleeping, b);
    case DoPause(b) => WithoutMembers(s.sleeping, b);
    case _ =>
  }

  // ---- timeouts ----

  predicate InOrder(ts: seq<Timed>) {
    forall i, j :: 0 <= i < j < |ts| ==> ts[i].time <= ts[j].time
  }

  lemma {:induction false} InsertTimedInOrder(ts: seq<Timed>, t: Timed)
    requires InOrder(ts)
    ensures InOrder(InsertTimed(ts, t))
  {
    if ts != [] && ts[|ts| - 1].time > t.time {
      var n := |ts| - 1;
      InsertTimedInOrder(ts[..n], t);
      InsertTimedMembers(ts[..n], t);
      var r := InsertTimed(ts[..n], t);
      forall i | 0 <= i < |r| ensures r[i].time <= ts[n].time {
        assert r[i] in r;
      }
    }
  }

  /** The timeout queue stays in order of time over every legal run, so the head of it is always
      the earliest. */
  lemma {:induction false} TimeoutsInOrder(s: State, cs: seq<Command>)
    requires InOrder(s.timeouts) && LegalRun(s, cs)
    ensures InOrder(Run(s, cs).timeouts)
  {
    if cs != [] {
      var t := Run(s, cs[..|cs| - 1]);
      TimeoutsInOrder(s, cs[..|cs| - 1]);
      match cs[|cs| - 1]
      case DoYield(YieldTimeout(time)) =>
        if t.current.Running? { InsertTimedInOrder(t.timeouts, Timed(time, t.current.action)); }
      case _ =>
    }
  }
}
