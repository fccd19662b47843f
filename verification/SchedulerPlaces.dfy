/** Where every command puts every action, and in which order actions take their turns. */
module SchedulerPlaces {
  import opened Sequences
  import opened SchedulerCycles
  import opened SchedulerRuns
  import opened SchedulerSpec

  // ---- where a command puts an action ----

  /** All actions but `a` are where they were, and `a` is at `p` and nowhere else. */
  ghost predicate OnlyMoves(s: State, t: State, a: Ref, p: Place) {
    t.registered == s.registered && forall b, q :: At(t, b, q) <==> if b == a then q == p else At(s, b, q)
  }

  ghost predicate NobodyMoves(s: State, t: State) {
    t.registered == s.registered && forall b, q :: At(t, b, q) <==> At(s, b, q)
  }

  /** The events an action waits for, or sleeps for. */
  ghost predicate WaitsExactly(q: seq<Wait>, a: Ref, events: seq<Ref>) {
    forall e :: e in Outstanding(q, a) <==> e in events
  }

  /** Why a coroutine handed control back decides where its action goes. */
  lemma YieldPlaces(s: State, reason: Reason, a: Ref)
    requires Located(s) && s.current == Running(a) && Legal(s, DoYield(reason))
    ensures reason.YieldWait? ==> OnlyMoves(s, Yield(s, reason), a, Waiting)
    ensures reason.YieldSleep? ==> OnlyMoves(s, Yield(s, reason), a, Sleeping)
    ensures reason.YieldWaitAll? ==>
      OnlyMoves(s, Yield(s, reason), a, InWaitEvents) && WaitsExactly(Yield(s, reason).waitEvents, a, reason.events)
    ensures reason.YieldSleepAll? ==>
      OnlyMoves(s, Yield(s, reason), a, InSleepEvents) && WaitsExactly(Yield(s, reason).sleepEvents, a, reason.events)
    ensures reason.YieldTimeout? ==>
      OnlyMoves(s, Yield(s, reason), a, InTimeouts) &&
      forall x :: x in Yield(s, reason).timeouts <==> x in s.timeouts || x == Timed(reason.time, a)
    ensures reason.YieldTerminated? ==> a !in Yield(s, reason).registered && forall q :: !At(Yield(s, reason), a, q)
  {
    var t := s.(current := Nothing);
    var u := Yield(s, reason);
    assert At(s, a, IsRunning) && forall p :: At(s, a, p) ==> p == IsRunning;
    assert forall b, p :: p != IsRunning ==> (At(t, b, p) <==> At(s, b, p));
    assert forall b, p :: At(t, b, p) <==> At(s, b, p) && b != a;
    match reason
    case YieldWait => assert forall b, p :: p != Waiting ==> (At(u, b, p) <==> At(t, b, p));
    case YieldSleep => assert forall b, p :: p != Sleeping ==> (At(u, b, p) <==> At(t, b, p));
    case YieldWaitAll(events) =>
      WaitsAdded(s.waitEvents, a, events);
      assert forall b, p :: p != InWaitEvents ==> (At(u, b, p) <==> At(t, b, p));
      assert !At(s, a, InWaitEvents);
      NewWaitsExactly(s.waitEvents, a, events);
    case YieldSleepAll(events) =>
      WaitsAdded(s.sleepEvents, a, events);
      assert forall b, p :: p != InSleepEvents ==> (At(u, b, p) <==> At(t, b, p));
      assert !At(s, a, InSleepEvents);
      NewWaitsExactly(s.sleepEvents, a, events);
    case YieldTimeout(time) =>
      InsertTimedMembers(s.timeouts, Timed(time, a));
      TimesOutIn(s);
      TimesOutIn(u);
      assert forall b, p :: p != InTimeouts ==> (At(u, b, p) <==> At(t, b, p));
    case YieldTerminated =>
      YieldLocated(s, reason);
      assert a !in u.registered;
  }

  lemma NewWaitsExactly(q: seq<Wait>, a: Ref, events: seq<Ref>)
    requires !HasWait(q, a)
    ensures WaitsExactly(q + Waits(a, events), a, events)
  {
    var all := q + Waits(a, events);
    forall e ensures e in Outstanding(all, a) <==> e in events {
      if e in events {
        var i :| 0 <= i < |events| && events[i] == e;
        assert all[|q| + i] == Wait(a, e);
      }
      if w :| w in all && w.action == a && w.event == e { assert w !in q; }
    }
  }

  /** A call activates an action that was not registered, an allocation registers it, and neither does
      anything else. */
  lemma CallPlaces(s: State, a: Ref)
    requires Located(s)
    ensures Allocated(s, a).registered == s.registered + {a} && Call(s, a).registered == s.registered + {a}
    ensures forall b, q :: At(Allocated(s, a), b, q) <==> At(s, b, q)
    ensures a in s.registered ==> NobodyMoves(s, Call(s, a))
    ensures a !in s.registered ==>
      forall b, q :: At(Call(s, a), b, q) <==> if b == a then q == Active else At(s, b, q)
  {
    var t := Call(s, a);
    if a !in s.registered {
      assert forall p :: !At(s, a, p);
      assert forall b, p :: p != Active ==> (At(t, b, p) <==> At(s, b, p));
    }
  }

  /** A legal pause puts the action into the pause list, and ending the pause makes it active. */
  lemma PausePlaces(s: State, a: Ref)
    requires Located(s) && a in s.registered
    ensures Legal(s, DoPause(a)) ==> OnlyMoves(s, Pause(s, a), a, Paused)
    ensures Legal(s, DoUnpause(a)) ==> OnlyMoves(s, Unpause(s, a), a, Active)
  {
    if Legal(s, DoPause(a)) {
      WithdrawPlaces(s, a);
      var t, u := Withdraw(s, a), Pause(s, a);
      assert forall b, p :: p != Paused ==> (At(u, b, p) <==> At(t, b, p));
      assert forall p :: At(t, a, p) ==> p == Paused;
    }
    if Legal(s, DoUnpause(a)) {
      WithoutMembers(s.paused, a);
      var u := Unpause(s, a);
      assert a in s.paused ==> At(s, a, Paused);
      assert !At(s, a, Active) && forall p :: At(s, a, p) ==> p == Paused;
      assert forall b, p :: p != Active && p != Paused ==> (At(u, b, p) <==> At(s, b, p));
    }
  }

  /** A legal stop unregisters the action; all others are where its end, as an event, puts them. */
  lemma StopPlaces(s: State, a: Ref)
    requires Located(s) && Legal(s, DoStop(a)) && a in s.registered
    ensures var t := Stop(s, a);
      t.registered == s.registered - {a} && (forall q :: !At(t, a, q)) &&
      forall b, q :: b != a ==> (At(t, b, q) <==> At(Signal(s, a), b, q))
  {
    var t := Stop(s, a);
    StopLocated(s, a);
    assert a !in t.registered;
    WithdrawPlaces(Signal(s, a), a);
    assert forall b, q :: b != a && q != IsRunning ==> (At(t, b, q) <==> At(Withdraw(Signal(s, a), a), b, q));
  }

  /** A due timeout makes its action active. */
  lemma TimeOutPlaces(s: State)
    requires Located(s) && s.timeouts != []
    ensures OnlyMoves(s, TimeOut(s), s.timeouts[0].action, Active) && TimeOut(s).timeouts == s.timeouts[1..]
  {
    var a, t := s.timeouts[0].action, TimeOut(s);
    TimeOutLocated(s);
    assert At(s, a, InTimeouts) && At(t, a, Active);
    forall b ensures TimesOut(t, b) <==> TimesOut(s, b) && b != a {
      if TimesOut(t, b) {
        var i :| 0 <= i < |t.timeouts| && t.timeouts[i].action == b;
        assert s.timeouts[i + 1].action == b;
      }
      if TimesOut(s, b) && b != a {
        var i :| 0 <= i < |s.timeouts| && s.timeouts[i].action == b;
        assert t.timeouts[i - 1].action == b;
      }
    }
    assert forall b, p :: p != Active && p != InTimeouts ==> (At(t, b, p) <==> At(s, b, p));
  }

  /** Somebody has a turn to come in this cycle. */
  ghost predicate Busy(s: State) {
    exists a :: At(s, a, Active) || At(s, a, Waiting)
  }

  /** A cycle begins by waking who sleeps, if nobody has a turn to come, and else changes nothing. */
  lemma BeginCyclePlaces(s: State)
    requires Located(s)
    ensures Busy(s) ==> NobodyMoves(s, BeginCycle(s))
    ensures BeginCycle(s).registered == s.registered
    ensures !Busy(s) ==>
      forall b, q :: At(BeginCycle(s), b, q) <==>
        if q == Active then At(s, b, Sleeping) else q != Sleeping && At(s, b, q)
  {
    var t := BeginCycle(s);
    if s.active != [] { assert At(s, s.active[0], Active); }
    if s.waiting != [] { assert At(s, s.waiting[0], Waiting); }
    if Quiet(s) {
      assert forall b, q :: q != Active && q != Sleeping ==> (At(t, b, q) <==> At(s, b, q));
    }
  }

  /** A turn: somebody who was active runs, or who waited where nobody was active, and then the others
      who waited are active. */
  lemma ResumePlaces(s: State)
    requires Located(s) && Legal(s, DoResume)
    ensures var t, a := Resume(s), Resume(s).current.action;
      t.registered == s.registered && t.current == Running(a) &&
      if exists b :: At(s, b, Active) then At(s, a, Active) && OnlyMoves(s, t, a, IsRunning)
      else
        At(s, a, Waiting) &&
        forall b, q :: At(t, b, q) <==>
          if b == a then q == IsRunning else if q == Active then At(s, b, Waiting) else q != Waiting && At(s, b, q)
  {
    var f, t := Front(s), Resume(s);
    var a := f.active[0];
    FrontLocated(s);
    if s.active != [] { assert At(s, s.active[0], Active); }
    assert At(f, a, Active) && forall p :: At(f, a, p) ==> p == Active;
    assert forall x :: x in t.active <==> x in f.active && x != a;
    assert forall b, p :: p != Active && p != IsRunning ==> (At(t, b, p) <==> At(f, b, p));
    assert forall b, p :: p != Active && p != Waiting ==> (At(f, b, p) <==> At(s, b, p));
    assert forall b, p :: At(t, b, p) <==> if b == a then p == IsRunning else At(f, b, p);
  }

  // ---- the order of turns ----

  /** All who have a turn to come, in this cycle or the next, in that order. */
  function Queue(s: State): seq<Ref> {
    s.active + s.waiting + s.sleeping
  }

  /** `a` comes before `b`. */
  predicate Before(q: seq<Ref>, a: Ref, b: Ref) {
    exists i, j :: 0 <= i < j < |q| && q[i] == a && q[j] == b
  }

  lemma BeforeConcat(p: seq<Ref>, q: seq<Ref>, a: Ref, b: Ref)
    ensures Before(p + q, a, b) <==> Before(p, a, b) || Before(q, a, b) || (a in p && b in q)
  {
    var r := p + q;
    if i, j :| 0 <= i < j < |r| && r[i] == a && r[j] == b {
      if j >= |p| && i < |p| { assert p[i] == a && q[j - |p|] == b; }
      if i >= |p| { assert q[i - |p|] == a && q[j - |p|] == b; }
      if j < |p| { assert p[i] == a && p[j] == b; }
    }
    if i, j :| 0 <= i < j < |p| && p[i] == a && p[j] == b { assert r[i] == a && r[j] == b; }
    if i, j :| 0 <= i < j < |q| && q[i] == a && q[j] == b { assert r[|p| + i] == a && r[|p| + j] == b; }
    if a in p && b in q {
      var i :| 0 <= i < |p| && p[i] == a;
      var j :| 0 <= j < |q| && q[j] == b;
      assert r[i] == a && r[|p| + j] == b;
    }
  }

  /** In terms of the three lists. */
  lemma QueueBefore(s: State, a: Ref, b: Ref)
    ensures Before(Queue(s), a, b) <==>
      Before(s.active, a, b) || Before(s.waiting, a, b) || Before(s.sleeping, a, b) ||
      (a in s.active && (b in s.waiting || b in s.sleeping)) || (a in s.waiting && b in s.sleeping)
  {
    hide Before;
    BeforeConcat(s.active, s.waiting, a, b);
    BeforeConcat(s.active + s.waiting, s.sleeping, a, b);
  }

  lemma {:induction false} WithoutBefore(q: seq<Ref>, x: Ref, a: Ref, b: Ref)
    requires a != x && b != x
    ensures Before(Without(q, x), a, b) <==> Before(q, a, b)
  {
    hide Before;
    if q == [] {
      assert Before([], a, b) <==> Before([], a, b);
    } else {
      var n := |q| - 1;
      WithoutBefore(q[..n], x, a, b);
      WithoutMembers(q[..n], x);
      BeforeConcat(q[..n], [q[n]], a, b);
      BeforeConcat(Without(q[..n], x), [q[n]], a, b);
      assert q == q[..n] + [q[n]] && Without(q[..n], x) + [] == Without(q[..n], x);
      NotBeforeOne(q[n], a, b);
    }
  }

  lemma NotBeforeOne(x: Ref, a: Ref, b: Ref)
    ensures !Before([x], a, b)
  {
  }

  lemma BeforeAppended(q: seq<Ref>, more: seq<Ref>, a: Ref, b: Ref)
    requires Before(q, a, b)
    ensures Before(q + more, a, b)
  {
    BeforeConcat(q, more, a, b);
  }

  /** Nobody is overtaken: what comes between two turns is put behind all who are active. */
  lemma BeforeStep(s: State, c: Command, a: Ref, b: Ref)
    requires Located(s) && Legal(s, c) && Before(Queue(s), a, b)
    requires c != DoStop(a) && c != DoStop(b) && c != DoPause(a) && c != DoPause(b)
    ensures c.DoResume? ==> Apply(s, c).current != Running(b)
    ensures (c.DoResume? && Apply(s, c).current == Running(a)) || Before(Queue(Apply(s, c)), a, b)
  {
    hide Before, Queue, Located, Without, WithoutAction, Fired;
    QueueBefore(s, a, b);
    QueueBefore(Apply(s, c), a, b);
    match c
    case DoAllocate(x) =>
    case DoCall(x) => AppendedKeeps(s.active, [x], a, b);
    case DoSignal(r) => SignalKeepsOrder(s, r, a, b);
    case DoStop(x) =>
      SignalKeepsOrder(s, x, a, b);
      WithdrawKeepsOrder(Signal(s, x), x, a, b);
      QueueBefore(Withdraw(Signal(s, x), x), a, b);
    case DoPause(x) =>
      WithdrawKeepsOrder(s, x, a, b);
      QueueBefore(Withdraw(s, x), a, b);
    case DoUnpause(x) => AppendedKeeps(s.active, [x], a, b);
    case DoTimeOut => AppendedKeeps(s.active, [s.timeouts[0].action], a, b);
    case DoBeginCycle => EmptyBefore(a, b);
    case DoResume => ResumeKeepsOrder(s, a, b);
    case DoYield(reason) => YieldKeepsOrder(s, reason, a, b);
  }

  lemma AppendedKeeps(q: seq<Ref>, more: seq<Ref>, a: Ref, b: Ref)
    ensures Before(q, a, b) ==> Before(q + more, a, b)
  {
    BeforeConcat(q, more, a, b);
  }

  lemma EmptyBefore(a: Ref, b: Ref)
    ensures !Before([], a, b)
  {
  }

  lemma SignalKeepsOrder(s: State, r: Ref, a: Ref, b: Ref)
    requires Before(Queue(s), a, b)
    ensures Before(Queue(Signal(s, r)), a, b)
  {
    hide Before, Queue, Fired;
    QueueBefore(s, a, b);
    QueueBefore(Signal(s, r), a, b);
    var f, g := Fired(s.waitEvents, r, |s.waitEvents|), Fired(s.sleepEvents, r, |s.sleepEvents|);
    AppendedKeeps(s.active, f, a, b);
    AppendedKeeps(s.active + f, g, a, b);
  }

  lemma WithdrawKeepsOrder(s: State, x: Ref, a: Ref, b: Ref)
    requires Before(Queue(s), a, b) && x != a && x != b
    ensures Before(Queue(Withdraw(s, x)), a, b)
  {
    hide Before, Queue;
    QueueBefore(s, a, b);
    QueueBefore(Withdraw(s, x), a, b);
    WithoutBefore(s.active, x, a, b);
    WithoutBefore(s.waiting, x, a, b);
    WithoutBefore(s.sleeping, x, a, b);
    WithoutMembers(s.active, x);
    WithoutMembers(s.waiting, x);
    WithoutMembers(s.sleeping, x);
  }

  lemma YieldKeepsOrder(s: State, reason: Reason, a: Ref, b: Ref)
    requires Before(Queue(s), a, b)
    ensures Before(Queue(Yield(s, reason)), a, b)
  {
    hide Before, Queue, Signal;
    if s.current.Running? {
      var x := s.current.action;
      QueueBefore(s, a, b);
      QueueBefore(Yield(s, reason), a, b);
      match reason
      case YieldWait => AppendedKeeps(s.waiting, [x], a, b);
      case YieldSleep => AppendedKeeps(s.sleeping, [x], a, b);
      case YieldTerminated =>
        var t := s.(current := Nothing, registered := s.registered - {x});
        QueueBefore(t, a, b);
        SignalKeepsOrder(t, x, a, b);
      case _ =>
    }
  }

  lemma QueueDistinct(s: State)
    requires Located(s)
    ensures NoDuplicates(Queue(s))
  {
    forall x | x in s.active ensures x !in s.waiting && x !in s.sleeping {
      assert At(s, x, Active) && !At(s, x, Waiting) && !At(s, x, Sleeping);
    }
    forall x | x in s.waiting ensures x !in s.sleeping {
      assert At(s, x, Waiting) && !At(s, x, Sleeping);
    }
    NoDuplicatesConcat(s.active, s.waiting);
    NoDuplicatesConcat(s.active + s.waiting, s.sleeping);
  }

  /** A turn goes to the first of the queue. */
  lemma ResumeIsFirst(s: State)
    requires Legal(s, DoResume)
    ensures Queue(s) != [] && Resume(s).current == Running(Queue(s)[0]) && Queue(Resume(s)) == Queue(s)[1..]
  {
  }

  lemma ResumeKeepsOrder(s: State, a: Ref, b: Ref)
    requires Located(s) && Legal(s, DoResume) && Before(Queue(s), a, b)
    ensures Resume(s).current != Running(b)
    ensures Resume(s).current == Running(a) || Before(Queue(Resume(s)), a, b)
  {
    hide Queue, Located;
    QueueDistinct(s);
    ResumeIsFirst(s);
    var q := Queue(s);
    var i, j :| 0 <= i < j < |q| && q[i] == a && q[j] == b;
    if i > 0 { assert q[1..][i - 1] == a && q[1..][j - 1] == b; }
  }

  /** An event first activates who waited for it, and then who slept for it, all behind who was active. */
  lemma SignalBefore(s: State, r: Ref, a: Ref, b: Ref, c: Ref)
    requires Located(s) && At(s, a, Active) && At(s, b, InWaitEvents) && At(s, c, InSleepEvents)
    requires At(Signal(s, r), b, Active) && At(Signal(s, r), c, Active)
    ensures Before(Signal(s, r).active, a, b) && Before(Signal(s, r).active, b, c)
  {
    hide Before;
    var f, g := Fired(s.waitEvents, r, |s.waitEvents|), Fired(s.sleepEvents, r, |s.sleepEvents|);
    FiredExactly(s.waitEvents, r, b);
    FiredExactly(s.waitEvents, r, c);
    FiredExactly(s.sleepEvents, r, c);
    FiredExactly(s.sleepEvents, r, b);
    assert !At(s, b, Active) && !At(s, c, Active) && !At(s, b, InSleepEvents) && !At(s, c, InWaitEvents);
    assert b in f && c in g;
    BeforeConcat(s.active, f, a, b);
    BeforeConcat(s.active + f, g, a, b);
    BeforeConcat(s.active + f, g, b, c);
  }

  /** Of equal times the timeout inserted last is the last: the new one stands right behind all that are
      not later. */
  lemma {:induction false} InsertTimedExact(ts: seq<Timed>, t: Timed) returns (k: nat)
    requires SchedulerRuns.InOrder(ts)
    ensures k <= |ts| && InsertTimed(ts, t) == ts[..k] + [t] + ts[k..]
    ensures forall i :: 0 <= i < |ts| ==> (i < k <==> ts[i].time <= t.time)
  {
    k := |ts|;
    if ts == [] || ts[|ts| - 1].time <= t.time {
      assert ts[..k] + [t] + ts[k..] == ts + [t];
    } else {
      var n := |ts| - 1;
      k := InsertTimedExact(ts[..n], t);
      assert ts[..n][..k] == ts[..k] && ts[..n][k..] + [ts[n]] == ts[k..];
      assert forall i :: 0 <= i < n ==> ts[..n][i] == ts[i];
    }
  }

  // ---- whole runs ----

  /** Who has had a turn. */
  function ResumedIn(s: State, cs: seq<Command>): set<Ref>
    requires LegalRun(s, cs)
  {
    if cs == [] then {}
    else
      var t, c := Run(s, cs[..|cs| - 1]), cs[|cs| - 1];
      ResumedIn(s, cs[..|cs| - 1]) + if c.DoResume? then {Resume(t).current.action} else {}
  }

  /** First in, first out: who is before another in the queue has a turn before it, unless one of them
      is stopped or paused. */
  lemma {:induction false} FirstInFirstOut(s: State, cs: seq<Command>, a: Ref, b: Ref)
    requires Located(s) && LegalRun(s, cs) && Before(Queue(s), a, b)
    requires DoStop(a) !in cs && DoStop(b) !in cs && DoPause(a) !in cs && DoPause(b) !in cs
    ensures a in ResumedIn(s, cs) || (b !in ResumedIn(s, cs) && Before(Queue(Run(s, cs)), a, b))
  {
    hide Before, Queue, Located;
    if cs != [] {
      var n := |cs| - 1;
      FirstInFirstOut(s, cs[..n], a, b);
      RunLocated(s, cs[..n]);
      if a !in ResumedIn(s, cs[..n]) {
        var t := Run(s, cs[..n]);
        BeforeStep(t, cs[n], a, b);
        if cs[n].DoResume? { ResumeIsFirst(t); }
      }
    }
  }

  /** Who yields to wait comes behind all who have a turn to come in this cycle, and before all who
      sleep; who yields to sleep comes last. */
  lemma YieldBefore(s: State, a: Ref, b: Ref)
    requires Located(s) && s.current == Running(a) && b != a
    ensures At(s, b, Active) || At(s, b, Waiting) ==> Before(Queue(Yield(s, YieldWait)), b, a)
    ensures At(s, b, Sleeping) ==> Before(Queue(Yield(s, YieldWait)), a, b)
    ensures At(s, b, Active) || At(s, b, Waiting) || At(s, b, Sleeping) ==> Before(Queue(Yield(s, YieldSleep)), b, a)
  {
    hide Before, Queue;
    QueueBefore(Yield(s, YieldWait), b, a);
    QueueBefore(Yield(s, YieldWait), a, b);
    QueueBefore(Yield(s, YieldSleep), b, a);
    BeforeConcat(s.waiting, [a], b, a);
    BeforeConcat(s.sleeping, [a], b, a);
  }

  /** An action that yields to sleep has no turn before the next cycle begins, unless it is stopped or paused. */
  lemma SleeperRests(s: State, a: Ref, cs: seq<Command>)
    requires Located(s) && s.current == Running(a) && LegalRun(Yield(s, YieldSleep), cs)
    requires DoBeginCycle !in cs && DoStop(a) !in cs && DoPause(a) !in cs
    ensures a !in ResumedIn(Yield(s, YieldSleep), cs) && At(Run(Yield(s, YieldSleep), cs), a, Sleeping)
  {
    YieldPlaces(s, YieldSleep, a);
    YieldLocated(s, YieldSleep);
    NeverResumed(Yield(s, YieldSleep), a, cs);
  }

  lemma {:induction false} NeverResumed(s: State, a: Ref, cs: seq<Command>)
    requires Located(s) && LegalRun(s, cs) && At(s, a, Sleeping)
    requires DoBeginCycle !in cs && DoStop(a) !in cs && DoPause(a) !in cs
    ensures a !in ResumedIn(s, cs) && At(Run(s, cs), a, Sleeping)
  {
    SleepTheorem(s, cs, a);
    if cs != [] {
      var n := |cs| - 1;
      NeverResumed(s, a, cs[..n]);
      SleepTheorem(s, cs[..n], a);
    }
  }

  /** An action that yields to wait has another turn before the cycle ends, unless it is stopped or paused. */
  lemma WaiterRunsAgain(s: State, a: Ref, cs: seq<Command>)
    requires Located(s) && s.current == Running(a) && LegalRun(Yield(s, YieldWait), cs)
    requires DoStop(a) !in cs && DoPause(a) !in cs && !Busy(Run(Yield(s, YieldWait), cs))
    ensures a in ResumedIn(Yield(s, YieldWait), cs)
  {
    YieldPlaces(s, YieldWait, a);
    YieldLocated(s, YieldWait);
    StaysBusy(Yield(s, YieldWait), a, cs);
  }

  lemma {:induction false} StaysBusy(s: State, a: Ref, cs: seq<Command>)
    requires Located(s) && LegalRun(s, cs) && (At(s, a, Active) || At(s, a, Waiting))
    requires DoStop(a) !in cs && DoPause(a) !in cs
    ensures a in ResumedIn(s, cs) || At(Run(s, cs), a, Active) || At(Run(s, cs), a, Waiting)
  {
    if cs != [] {
      var n := |cs| - 1;
      StaysBusy(s, a, cs[..n]);
      RunLocated(s, cs[..n]);
      if a !in ResumedIn(s, cs[..n]) { BusyStep(Run(s, cs[..n]), cs[n], a); }
    }
  }

  lemma BusyStep(s: State, c: Command, a: Ref)
    requires Located(s) && Legal(s, c) && (At(s, a, Active) || At(s, a, Waiting)) && c != DoStop(a) && c != DoPause(a)
    ensures (c.DoResume? && Resume(s).current == Running(a)) || At(Apply(s, c), a, Active) ||
        At(Apply(s, c), a, Waiting)
  {
    match c
    case DoStop(b) =>
      WithoutMembers(Signal(s, b).active, b);
      WithoutMembers(s.waiting, b);
    case DoPause(b) =>
      WithoutMembers(s.active, b);
      WithoutMembers(s.waiting, b);
    case _ =>
  }

  // ---- a cycle ----

  /** While somebody has a turn to come, a turn is: to resume, what the coroutine calls, and what its reason
      for yielding does. When nobody has, the turns are over. */
  lemma TurnExact(s: State, turns: seq<Turn>)
    requires Located(s) && turns != [] && LegalTurns(s, turns)
    ensures !Busy(s) ==> RunTurns(s, turns) == s
    ensures Busy(s) ==> Legal(s, DoResume) && LegalRun(Resume(s), turns[0].calls)
    ensures Busy(s) ==>
      var t := Yield(Run(Resume(s), turns[0].calls), turns[0].reason);
      LegalTurns(t, turns[1..]) && RunTurns(s, turns) == RunTurns(t, turns[1..])
  {
    if s.active != [] { assert At(s, s.active[0], Active); }
    if s.waiting != [] { assert At(s, s.waiting[0], Waiting); }
    if Busy(s) {
      var calls, reason := turns[0].calls, turns[0].reason;
      var cs := TurnCommands(turns[0]);
      var n := |cs| - 1;
      assert cs[..n] == [DoResume] + calls;
      ResumeFirst(s, calls);
    }
  }

  lemma {:induction false} ResumeFirst(s: State, calls: seq<Command>)
    requires LegalRun(s, [DoResume] + calls)
    ensures Legal(s, DoResume) && LegalRun(Resume(s), calls) && Run(s, [DoResume] + calls) == Run(Resume(s), calls)
  {
    var cs := [DoResume] + calls;
    if calls == [] {
      assert cs[..0] == [] && cs[0] == DoResume;
      assert LegalRun(s, cs[..0]) && Run(s, cs[..0]) == s;
    } else {
      var n := |calls| - 1;
      assert cs[..n + 1] == [DoResume] + calls[..n];
      ResumeFirst(s, calls[..n]);
    }
  }

  function FiredTimeouts(ts: seq<Timed>, n: nat): (fired: seq<Ref>)
    requires n <= |ts|
    ensures |fired| == n
  {
    seq(n, i requires 0 <= i < n => ts[i].action)
  }

  /** At the start of a cycle exactly the timeouts at the head of the queue that are due, by the clock as it is
      read for each, make their actions active, in order; the first one left, if any, is not due. */
  lemma {:induction false} TimeOutsExact(s: State, now: nat -> int, m: nat) returns (n: nat)
    ensures n <= |s.timeouts|
    ensures forall i :: 0 <= i < n ==> s.timeouts[i].time <= now(m + i)
    ensures n < |s.timeouts| ==> s.timeouts[n].time > now(m + n)
    ensures TimeOuts(s, now, m) ==
      s.(timeouts := s.timeouts[n..], active := s.active + FiredTimeouts(s.timeouts, n))
    decreases |s.timeouts|
  {
    n := 0;
    if s.timeouts != [] && s.timeouts[0].time <= now(m) {
      var rest := TimeOutsExact(TimeOut(s), now, m + 1);
      n := rest + 1;
      assert FiredTimeouts(s.timeouts, n) == [s.timeouts[0].action] + FiredTimeouts(s.timeouts[1..], rest);
      assert s.timeouts[1..][rest..] == s.timeouts[n..];
      forall i | 0 <= i < n ensures s.timeouts[i].time <= now(m + i) {
        if i > 0 { assert s.timeouts[1..][i - 1].time <= now(m + 1 + (i - 1)); }
      }
      assert TimeOut(s).active + FiredTimeouts(s.timeouts[1..], rest) == s.active + FiredTimeouts(s.timeouts, n);
    } else {
      assert s.active + FiredTimeouts(s.timeouts, 0) == s.active;
    }
  }

  /** Sleepers wake at the start of a cycle exactly if nobody else has a turn to come, and no timeout is due. */
  lemma CycleWakes(s: State, now: nat -> int, a: Ref)
    requires Located(s) && At(s, a, Sleeping)
    ensures At(BeginCycleAt(s, now), a, Active) <==>
      !Busy(s) && (s.timeouts == [] || s.timeouts[0].time > now(0))
  {
    var n := TimeOutsExact(s, now, 0);
    var t := TimeOuts(s, now, 0);
    TimeOutsLocated(s, now, 0);
    BeginCyclePlaces(t);
    assert At(t, a, Sleeping) && !At(t, a, Active) && !At(s, a, Active);
    if n > 0 {
      assert t.active[|s.active|] == FiredTimeouts(s.timeouts, n)[0];
      assert At(t, t.active[|s.active|], Active);
    } else {
      assert t == s;
    }
  }

  lemma {:induction false} TimeOutsLocated(s: State, now: nat -> int, m: nat)
    requires Located(s)
    ensures Located(TimeOuts(s, now, m))
    decreases |s.timeouts|
  {
    if s.timeouts != [] && s.timeouts[0].time <= now(m) {
      TimeOutLocated(s);
      TimeOutsLocated(TimeOut(s), now, m + 1);
    }
  }
}
