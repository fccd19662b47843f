/** The cooperative scheduler as its clients see it: three named first-in first-out lists, a
    pause list, timed waits and two tables of waits for events. */
module SchedulerSpec {
  import opened Sequences

  /** An action or event reference; the order is that of `reference::operator<`. */
  type Ref = int

  /** `action` waits for `event`. */
  datatype Wait = Wait(action: Ref, event: Ref)

  datatype Timed = Timed(time: int, action: Ref)

  datatype Running = Nothing | Running(action: Ref)

  datatype State = State(
    registered: set<Ref>,
    active: seq<Ref>, waiting: seq<Ref>, sleeping: seq<Ref>,
    paused: seq<Ref>,
    timeouts: seq<Timed>,           // in order of time, equal times in order of insertion
    waitEvents: seq<Wait>,          // in order of insertion
    sleepEvents: seq<Wait>,
    current: Running)

  const INITIAL := State({}, [], [], [], [], [], [], [], Nothing)

  // ---- sequences ----

  function Without(s: seq<Ref>, a: Ref): seq<Ref> {
    if s == [] then []
    else Without(s[..|s| - 1], a) + if s[|s| - 1] == a then [] else [s[|s| - 1]]
  }

  function WithoutAction(q: seq<Wait>, a: Ref): seq<Wait> {
    if q == [] then []
    else WithoutAction(q[..|q| - 1], a) + if q[|q| - 1].action == a then [] else [q[|q| - 1]]
  }

  function WithoutEvent(q: seq<Wait>, r: Ref): seq<Wait> {
    if q == [] then []
    else WithoutEvent(q[..|q| - 1], r) + if q[|q| - 1].event == r then [] else [q[|q| - 1]]
  }

  // ---- events ----

  /** The `i`-th entry is the last outstanding wait of its action when `r` happens. */
  predicate Fires(q: seq<Wait>, r: Ref, i: nat)
    requires i < |q|
  {
    q[i].event == r && forall j :: 0 <= j < |q| && j != i && q[j].action == q[i].action ==> q[j].event == r && j < i
  }

  /** The actions whose wait is over when `r` happens, among the first `n` entries. */
  function Fired(q: seq<Wait>, r: Ref, n: nat): seq<Ref>
    requires n <= |q|
  {
    if n == 0 then [] else Fired(q, r, n - 1) + if Fires(q, r, n - 1) then [q[n - 1].action] else []
  }

  /** `signal`: the event happens in the wait table, then in the sleep table. */
  function Signal(s: State, r: Ref): State {
    s.(active := s.active + Fired(s.waitEvents, r, |s.waitEvents|) + Fired(s.sleepEvents, r, |s.sleepEvents|),
       waitEvents := WithoutEvent(s.waitEvents, r),
       sleepEvents := WithoutEvent(s.sleepEvents, r))
  }

  // ---- the interface ----

  function Allocated(s: State, a: Ref): State {
    s.(registered := s.registered + {a})
  }

  function Call(s: State, a: Ref): State {
    if a in s.registered then s else s.(registered := s.registered + {a}, active := s.active + [a])
  }

  /** Takes `a` out of the three lists and of the wait table. */
  function Withdraw(s: State, a: Ref): State {
    s.(active := Without(s.active, a), waiting := Without(s.waiting, a), sleeping := Without(s.sleeping, a),
       waitEvents := WithoutAction(s.waitEvents, a))
  }

  /** `stop` and `stopperStopped`: first the end of `a` is signalled. */
  function Stop(s: State, a: Ref): State {
    if a !in s.registered then s
    else
      var t := Withdraw(Signal(s, a), a);
      t.(registered := t.registered - {a}, current := if t.current == Running(a) then Nothing else t.current)
  }

  function Pause(s: State, a: Ref): State {
    if a !in s.registered then s
    else
      var t := Withdraw(s, a);
      t.(paused := t.paused + [a])
  }

  function Unpause(s: State, a: Ref): State {
    if a !in s.registered then s
    else s.(paused := Without(s.paused, a), active := s.active + [a])
  }

  // ---- a cycle ----

  /** A due timeout makes its action active. */
  function TimeOut(s: State): State
    requires s.timeouts != []
  {
    s.(timeouts := s.timeouts[1..], active := s.active + [s.timeouts[0].action])
  }

  predicate Quiet(s: State) {
    s.active == [] && s.waiting == []
  }

  function BeginCycle(s: State): State {
    if Quiet(s) then s.(active := s.sleeping, sleeping := s.active) else s
  }

  /** The list the next action is taken from. */
  function Front(s: State): State {
    if s.active == [] then s.(active := s.waiting, waiting := s.active) else s
  }

  function Resume(s: State): State
    requires !Quiet(s)
  {
    var t := Front(s);
    t.(active := t.active[1..], current := Running(t.active[0]))
  }

  /** Why a coroutine handed control back. */
  datatype Reason =
    | YieldWait | YieldWaitAll(events: seq<Ref>)
    | YieldSleep | YieldSleepAll(events: seq<Ref>)
    | YieldTimeout(time: int)
    | YieldTerminated

  function Waits(a: Ref, events: seq<Ref>): (q: seq<Wait>)
    ensures |q| == |events|
  {
    seq(|events|, i requires 0 <= i < |events| => Wait(a, events[i]))
  }

  /** A multimap keeps equal keys in order of insertion. */
  function InsertTimed(ts: seq<Timed>, t: Timed): seq<Timed> {
    if ts == [] || ts[|ts| - 1].time <= t.time then ts + [t]
    else InsertTimed(ts[..|ts| - 1], t) + [ts[|ts| - 1]]
  }

  function Yield(s: State, reason: Reason): State {
    match s.current
    case Nothing => s
    case Running(a) =>
      var t := s.(current := Nothing);
      match reason
      case YieldWait => t.(waiting := t.waiting + [a])
      case YieldWaitAll(events) => t.(waitEvents := t.waitEvents + Waits(a, events))
      case YieldSleep => t.(sleeping := t.sleeping + [a])
      case YieldSleepAll(events) => t.(sleepEvents := t.sleepEvents + Waits(a, events))
      case YieldTimeout(time) => t.(timeouts := InsertTimed(t.timeouts, Timed(time, a)))
      case YieldTerminated => Signal(t.(registered := t.registered - {a}), a)
  }

  // ---- commands ----

  datatype Command =
    | DoAllocate(a: Ref) | DoCall(a: Ref) | DoSignal(r: Ref) | DoStop(a: Ref) | DoPause(a: Ref) | DoUnpause(a: Ref)
    | DoTimeOut | DoBeginCycle | DoResume | DoYield(reason: Reason)

  function Apply(s: State, c: Command): State
    requires Legal(s, c)
  {
    match c
    case DoAllocate(a) => Allocated(s, a)
    case DoCall(a) => Call(s, a)
    case DoSignal(r) => Signal(s, r)
    case DoStop(a) => Stop(s, a)
    case DoPause(a) => Pause(s, a)
    case DoUnpause(a) => Unpause(s, a)
    case DoTimeOut => TimeOut(s)
    case DoBeginCycle => BeginCycle(s)
    case DoResume => Resume(s)
    case DoYield(reason) => Yield(s, reason)
  }

  predicate TimesOut(s: State, a: Ref) {
    exists i :: 0 <= i < |s.timeouts| && s.timeouts[i].action == a
  }

  predicate HasWait(q: seq<Wait>, a: Ref) {
    exists i :: 0 <= i < |q| && q[i].action == a
  }

  datatype Place = Active | Waiting | Sleeping | Paused | InTimeouts | InWaitEvents | InSleepEvents | IsRunning

  predicate At(s: State, a: Ref, p: Place) {
    match p
    case Active => a in s.active
    case Waiting => a in s.waiting
    case Sleeping => a in s.sleeping
    case Paused => a in s.paused
    case InTimeouts => TimesOut(s, a)
    case InWaitEvents => HasWait(s.waitEvents, a)
    case InSleepEvents => HasWait(s.sleepEvents, a)
    case IsRunning => s.current == Running(a)
  }

  predicate Placed(s: State, a: Ref) {
    exists p :: At(s, a, p)
  }

  /** The calls the indexes of the scheduler survive. `stop` and `pause` clean neither the
      timeout queue nor the pause list, and hand sleep handles to the wait table; a second
      `pause` loses the first entry. A wait or sleep for events names at least one. */
  predicate Legal(s: State, c: Command) {
    match c
    case DoStop(a) => a in s.registered ==> !TimesOut(s, a) && a !in s.paused && !HasWait(s.sleepEvents, a)
    case DoPause(a) => a in s.registered ==>
      !TimesOut(s, a) && a !in s.paused && !HasWait(s.sleepEvents, a) && s.current != Running(a)
    case DoUnpause(a) => a in s.registered ==> a in s.paused || !Placed(s, a)
    case DoTimeOut => s.timeouts != []
    case DoResume => !Quiet(s) && s.current.Nothing?
    case DoBeginCycle => s.current.Nothing?
    case DoYield(YieldWaitAll(events)) => events != []
    case DoYield(YieldSleepAll(events)) => events != []
    case _ => true
  }

  predicate LegalRun(s: State, cs: seq<Command>)
    decreases |cs|, 0
  {
    cs == [] || (LegalRun(s, cs[..|cs| - 1]) && Legal(Run(s, cs[..|cs| - 1]), cs[|cs| - 1]))
  }

  function Run(s: State, cs: seq<Command>): State
    requires LegalRun(s, cs)
    decreases |cs|, 1
  {
    if cs == [] then s else Apply(Run(s, cs[..|cs| - 1]), cs[|cs| - 1])
  }

  // ---- where an action is ----

  /** From `s` to `t` nobody is dropped and nobody turns up: an action is somewhere exactly if it
      was somewhere and is still registered. */
  ghost predicate Keeps(s: State, t: State) {
    forall a :: Placed(t, a) <==> Placed(s, a) && a in t.registered
  }

  /** Every action found anywhere is registered and found in one place only, once. */
  ghost predicate Located(s: State) {
    (forall a, p :: At(s, a, p) ==> a in s.registered) &&
    (forall a, p, q :: At(s, a, p) && At(s, a, q) ==> p == q) &&
    NoDuplicates(s.active) && NoDuplicates(s.waiting) && NoDuplicates(s.sleeping) && NoDuplicates(s.paused) &&
    (forall i, j :: 0 <= i < j < |s.timeouts| ==> s.timeouts[i].action != s.timeouts[j].action)
  }

  // ---- every legal command keeps every action in one place ----

  /** One action has moved to `p`, all others are where they were. */
  lemma Moved(s: State, t: State, a: Ref, p: Place)
    requires Located(s) && Placed(s, a) && s.registered == t.registered
    requires forall b, q :: At(t, b, q) <==> if b == a then q == p else At(s, b, q)
    ensures Keeps(s, t)
  {
    assert At(t, a, p);
    forall b ensures Placed(t, b) <==> Placed(s, b) {
      if Placed(s, b) && b != a {
        var q :| At(s, b, q);
        assert At(t, b, q);
      }
      if Placed(t, b) && b != a {
        var q :| At(t, b, q);
        assert At(s, b, q);
      }
    }
  }

  /** The lists have been exchanged. */
  lemma Renamed(s: State, t: State, swap: Place -> Place)
    requires Located(s) && s.registered == t.registered && forall p :: swap(swap(p)) == p
    requires forall b, p :: At(t, b, p) <==> At(s, b, swap(p))
    ensures Keeps(s, t)
  {
    forall b ensures Placed(t, b) <==> Placed(s, b) {
      if Placed(s, b) {
        var q :| At(s, b, q);
        assert At(t, b, swap(q));
      }
      if Placed(t, b) {
        var q :| At(t, b, q);
        assert At(s, b, swap(q));
      }
    }
  }

  lemma NoDuplicatesSnoc(s: seq<Ref>, x: Ref)
    requires NoDuplicates(s) && x !in s
    ensures NoDuplicates(s + [x])
  {
  }

  lemma {:induction false} WithoutMembers(s: seq<Ref>, a: Ref)
    ensures forall x :: x in Without(s, a) <==> x in s && x != a
    ensures NoDuplicates(s) ==> NoDuplicates(Without(s, a))
    ensures a !in s ==> Without(s, a) == s
  {
    if s != [] {
      var t := s[..|s| - 1];
      WithoutMembers(t, a);
      assert s == t + [s[|s| - 1]];
      if NoDuplicates(s) {
        assert NoDuplicates(t) && s[|s| - 1] !in t;
        NoDuplicatesSnoc(Without(t, a), s[|s| - 1]);
        assert Without(t, a) + [] == Without(t, a);
      }
    }
  }

  lemma {:induction false} WithoutActionMembers(q: seq<Wait>, a: Ref)
    ensures forall w :: w in WithoutAction(q, a) <==> w in q && w.action != a
    ensures !HasWait(q, a) ==> WithoutAction(q, a) == q
    ensures forall b :: HasWait(WithoutAction(q, a), b) <==> HasWait(q, b) && b != a
  {
    if q != [] {
      var t := q[..|q| - 1];
      WithoutActionMembers(t, a);
      assert q == t + [q[|q| - 1]];
      HasWaitSnoc(t, q[|q| - 1]);
      HasWaitSnoc(WithoutAction(t, a), q[|q| - 1]);
    }
  }

  lemma HasWaitSnoc(q: seq<Wait>, w: Wait)
    ensures forall b :: HasWait(q + [w], b) <==> HasWait(q, b) || b == w.action
  {
    forall b ensures HasWait(q + [w], b) <==> HasWait(q, b) || b == w.action {
      if HasWait(q, b) {
        var i :| 0 <= i < |q| && q[i].action == b;
        assert (q + [w])[i].action == b;
      }
      assert (q + [w])[|q|] == w;
    }
  }

  lemma {:induction false} WithoutEventMembers(q: seq<Wait>, r: Ref)
    ensures forall w :: w in WithoutEvent(q, r) <==> w in q && w.event != r
  {
    if q != [] {
      var t := q[..|q| - 1];
      WithoutEventMembers(t, r);
      assert q == t + [q[|q| - 1]];
    }
  }

  /** Who is made active by an event: each action once, and exactly those that waited for
      this event and for no other. */
  lemma {:induction false} FiredMembers(q: seq<Wait>, r: Ref, n: nat)
    requires n <= |q|
    ensures NoDuplicates(Fired(q, r, n))
    ensures forall a :: a in Fired(q, r, n) <==> exists i :: 0 <= i < n && q[i].action == a && Fires(q, r, i)
  {
    if n > 0 {
      FiredMembers(q, r, n - 1);
      if Fires(q, r, n - 1) {
        assert forall i :: 0 <= i < n - 1 && q[i].action == q[n - 1].action ==> !Fires(q, r, i);
        NoDuplicatesSnoc(Fired(q, r, n - 1), q[n - 1].action);
      }
    }
  }

  /** They are made active in the order of the entries that were their last. */
  lemma {:induction false} FiredInOrder(q: seq<Wait>, r: Ref, n: nat, i: nat, j: nat)
    requires n <= |q| && i < j < |Fired(q, r, n)|
    ensures exists k, l ::
      0 <= k < l < n && q[k].action == Fired(q, r, n)[i] && q[l].action == Fired(q, r, n)[j] &&
      Fires(q, r, k) && Fires(q, r, l)
  {
    var before := Fired(q, r, n - 1);
    if j < |before| {
      FiredInOrder(q, r, n - 1, i, j);
    } else {
      FiredMembers(q, r, n - 1);
      assert before[i] in before;
      var k :| 0 <= k < n - 1 && q[k].action == before[i] && Fires(q, r, k);
      assert q[n - 1].action == Fired(q, r, n)[j] && Fires(q, r, n - 1);
    }
  }

  lemma FiredExactly(q: seq<Wait>, r: Ref, a: Ref)
    ensures a in Fired(q, r, |q|) <==> HasWait(q, a) && !HasWait(WithoutEvent(q, r), a)
    ensures NoDuplicates(Fired(q, r, |q|))
    ensures HasWait(WithoutEvent(q, r), a) ==> HasWait(q, a)
  {
    FiredMembers(q, r, |q|);
    WithoutEventMembers(q, r);
    if HasWait(q, a) && !HasWait(WithoutEvent(q, r), a) {
      var i :| 0 <= i < |q| && q[i].action == a;
      assert forall j :: 0 <= j < |q| && q[j].action == a ==> q[j] in q && q[j].event == r;
      var k := LastOf(q, a, i);
      assert Fires(q, r, k);
    }
    if a in Fired(q, r, |q|) {
      var i :| 0 <= i < |q| && q[i].action == a && Fires(q, r, i);
      assert forall j :: 0 <= j < |q| && q[j].action == a ==> q[j].event == r;
    }
  }

  lemma LastOf(q: seq<Wait>, a: Ref, i: nat) returns (k: nat)
    requires i < |q| && q[i].action == a
    ensures k < |q| && q[k].action == a && forall j :: k < j < |q| ==> q[j].action != a
    decreases |q| - i
  {
    if j :| i < j < |q| && q[j].action == a { k := LastOf(q, a, j); } else { k := i; }
  }

  lemma NoDuplicatesConcat(s: seq<Ref>, t: seq<Ref>)
    requires NoDuplicates(s) && NoDuplicates(t) && forall x :: x in s ==> x !in t
    ensures NoDuplicates(s + t)
  {
    forall i, j | 0 <= i < j < |s + t| ensures (s + t)[i] != (s + t)[j] {
      if i < |s| <= j { assert s[i] in s && t[j - |s|] in t; }
    }
  }

  /** An event moves exactly the actions whose last outstanding wait it was; nothing else moves. */
  lemma SignalPlaces(s: State, r: Ref)
    ensures var t := Signal(s, r);
      forall a :: && (At(t, a, Active) <==> At(s, a, Active) || (At(s, a, InWaitEvents) && !At(t, a, InWaitEvents))
                                                             || (At(s, a, InSleepEvents) && !At(t, a, InSleepEvents)))
                  && (At(t, a, InWaitEvents) ==> At(s, a, InWaitEvents))
                  && (At(t, a, InSleepEvents) ==> At(s, a, InSleepEvents))
  {
    forall a
      ensures a in Fired(s.waitEvents, r, |s.waitEvents|) <==>
          HasWait(s.waitEvents, a) && !HasWait(WithoutEvent(s.waitEvents, r), a)
      ensures a in Fired(s.sleepEvents, r, |s.sleepEvents|) <==>
          HasWait(s.sleepEvents, a) && !HasWait(WithoutEvent(s.sleepEvents, r), a)
      ensures HasWait(WithoutEvent(s.waitEvents, r), a) ==> HasWait(s.waitEvents, a)
      ensures HasWait(WithoutEvent(s.sleepEvents, r), a) ==> HasWait(s.sleepEvents, a)
    {
      FiredExactly(s.waitEvents, r, a);
      FiredExactly(s.sleepEvents, r, a);
    }
  }

  lemma SignalLocated(s: State, r: Ref)
    requires Located(s)
    ensures Located(Signal(s, r)) && Keeps(s, Signal(s, r))
  {
    var t := Signal(s, r);
    SignalPlaces(s, r);
    var f, g := Fired(s.waitEvents, r, |s.waitEvents|), Fired(s.sleepEvents, r, |s.sleepEvents|);
    forall a ensures a in f ==> At(s, a, InWaitEvents) ensures a in g ==> At(s, a, InSleepEvents) {
      FiredExactly(s.waitEvents, r, a);
      FiredExactly(s.sleepEvents, r, a);
    }
    FiredExactly(s.waitEvents, r, 0);
    FiredExactly(s.sleepEvents, r, 0);
    forall x | x in s.active ensures x !in f && x !in g {
      assert At(s, x, Active);
    }
    NoDuplicatesConcat(s.active, f);
    forall x | x in f ensures x !in g {
      assert At(s, x, InWaitEvents);
    }
    NoDuplicatesConcat(s.active + f, g);
    assert forall a, p :: At(t, a, p) && p != Active ==> At(s, a, p);
    assert forall a :: At(t, a, Active) ==> At(s, a, Active) || At(s, a, InWaitEvents) || At(s, a, InSleepEvents);
    forall a, q | q != Active && At(t, a, q) ensures !At(t, a, Active) {
      assert At(s, a, q);
    }
    SignalKeeps(s, r);
  }

  lemma SignalKeeps(s: State, r: Ref)
    requires Located(s)
    ensures Keeps(s, Signal(s, r))
  {
    var t := Signal(s, r);
    SignalPlaces(s, r);
    forall a ensures Placed(t, a) <==> Placed(s, a) {
      if Placed(s, a) {
        var p :| At(s, a, p);
        assert At(t, a, p) || At(t, a, Active);
      }
      if Placed(t, a) {
        var p :| At(t, a, p);
        assert p != Active ==> At(s, a, p);
      }
    }
  }

  /** After `Withdraw` the action is nowhere but in the places `Withdraw` does not look at. */
  lemma WithdrawPlaces(s: State, a: Ref)
    ensures var t := Withdraw(s, a);
      forall b, p :: At(t, b, p) <==>
        At(s, b, p) && (b == a ==> !p.Active? && !p.Waiting? && !p.Sleeping? && !p.InWaitEvents?)
  {
    WithoutMembers(s.active, a);
    WithoutMembers(s.waiting, a);
    WithoutMembers(s.sleeping, a);
    WithoutActionMembers(s.waitEvents, a);
  }

  lemma WithdrawLocated(s: State, a: Ref)
    requires Located(s)
    ensures Located(Withdraw(s, a))
  {
    WithdrawPlaces(s, a);
    WithoutMembers(s.active, a);
    WithoutMembers(s.waiting, a);
    WithoutMembers(s.sleeping, a);
  }

  lemma StopLocated(s: State, a: Ref)
    requires Located(s) && Legal(s, DoStop(a))
    ensures Located(Stop(s, a)) && Keeps(s, Stop(s, a))
  {
    if a in s.registered {
      SignalLocated(s, a);
      SignalPlaces(s, a);
      WithdrawLocated(Signal(s, a), a);
      WithdrawPlaces(Signal(s, a), a);
      var t := Withdraw(Signal(s, a), a);
      assert !At(t, a, Paused) && !At(t, a, InTimeouts) && !At(t, a, InSleepEvents);
      assert forall p :: At(t, a, p) ==> p == IsRunning;
      var u := Stop(s, a);
      forall b, p | At(u, b, p) ensures At(t, b, p) && b != a {
        match p
        case IsRunning => assert u.current == t.current;
        case _ => assert At(t, b, p);
      }
      StopKeeps(s, a);
    } else {
      assert Keeps(s, s);
    }
  }

  lemma StopKeeps(s: State, a: Ref)
    requires Located(s) && a in s.registered && Legal(s, DoStop(a))
    requires Located(Stop(s, a)) && Keeps(s, Signal(s, a))
    ensures Keeps(s, Stop(s, a))
  {
    var t, u := Signal(s, a), Stop(s, a);
    WithdrawPlaces(t, a);
    forall b ensures Placed(u, b) <==> Placed(s, b) && b in u.registered {
      if Placed(s, b) && b != a {
        assert Placed(t, b);
        var p :| At(t, b, p);
        assert At(Withdraw(t, a), b, p);
        assert At(u, b, p);
      }
      if Placed(u, b) {
        var p :| At(u, b, p);
        assert At(t, b, p);
      }
    }
  }

  lemma PauseLocated(s: State, a: Ref)
    requires Located(s) && Legal(s, DoPause(a))
    ensures Located(Pause(s, a))
    ensures forall b :: Placed(Pause(s, a), b) <==> Placed(s, b) || (b == a && a in s.registered)
  {
    if a in s.registered {
      WithdrawLocated(s, a);
      WithdrawPlaces(s, a);
      var t, u := Withdraw(s, a), Pause(s, a);
      assert forall p :: !At(t, a, p);
      NoDuplicatesSnoc(t.paused, a);
      assert forall b, p :: At(u, b, p) <==> At(t, b, p) || (b == a && p == Paused);
      assert At(u, a, Paused);
      forall b | b != a ensures Placed(u, b) <==> Placed(s, b) {
        if Placed(s, b) {
          var p :| At(s, b, p);
          assert At(t, b, p) && At(u, b, p);
        }
        if Placed(u, b) {
          var p :| At(u, b, p);
          assert At(t, b, p);
        }
      }
    }
  }

  lemma UnpauseLocated(s: State, a: Ref)
    requires Located(s) && Legal(s, DoUnpause(a))
    ensures Located(Unpause(s, a))
    ensures forall b :: Placed(Unpause(s, a), b) <==> Placed(s, b) || (b == a && a in s.registered)
  {
    if a in s.registered {
      WithoutMembers(s.paused, a);
      var u := Unpause(s, a);
      assert a in s.paused ==> At(s, a, Paused);
      assert !At(s, a, Active) && forall p :: At(s, a, p) ==> p == Paused;
      assert forall b, p :: p != Active && p != Paused ==> (At(u, b, p) <==> At(s, b, p));
      NoDuplicatesSnoc(s.active, a);
      assert forall b, p :: At(u, b, p) <==> if b == a then p == Active else At(s, b, p);
      assert At(u, a, Active);
      forall b | b != a ensures Placed(u, b) <==> Placed(s, b) {
        if Placed(s, b) {
          var p :| At(s, b, p);
          assert At(u, b, p);
        }
        if Placed(u, b) {
          var p :| At(u, b, p);
          assert At(s, b, p);
        }
      }
    }
  }

  lemma TimeOutLocated(s: State)
    requires Located(s) && s.timeouts != []
    ensures Located(TimeOut(s)) && Keeps(s, TimeOut(s))
  {
    var a, t := s.timeouts[0].action, TimeOut(s);
    assert At(s, a, InTimeouts);
    assert !At(s, a, Active) && forall p :: At(s, a, p) ==> p == InTimeouts;
    NoDuplicatesSnoc(s.active, a);
    forall b ensures TimesOut(t, b) <==> TimesOut(s, b) && b != a {
      if TimesOut(t, b) {
        var i :| 0 <= i < |t.timeouts| && t.timeouts[i].action == b;
        assert s.timeouts[i + 1].action == b;
      }
      if TimesOut(s, b) && b != a {
        var i :| 0 <= i < |s.timeouts| && s.timeouts[i].action == b;
        assert t.timeouts[i - 1].action == b;
      }
    }
    assert forall b, p :: p != Active && p != InTimeouts ==> (At(t, b, p) <==> At(s, b, p));
    assert forall b, p :: At(t, b, p) <==> if b == a then p == Active else At(s, b, p);
  }

  lemma ResumeLocated(s: State)
    requires Located(s) && Legal(s, DoResume)
    ensures Located(Resume(s)) && Keeps(s, Resume(s))
  {
    var t, u := Front(s), Resume(s);
    FrontLocated(s);
    var a := t.active[0];
    assert At(t, a, Active);
    assert forall p :: At(t, a, p) ==> p == Active;
    assert forall x :: x in u.active <==> x in t.active && x != a;
    assert forall b, p :: p != Active && p != IsRunning ==> (At(u, b, p) <==> At(t, b, p));
    assert forall b, p :: At(u, b, p) <==> if b == a then p == IsRunning else At(t, b, p);
    Moved(t, u, a, IsRunning);
  }

  /** A swap renames two empty or full lists: `p` holds afterwards what `Swapped(p)` held before. */
  lemma FrontLocated(s: State)
    requires Located(s)
    ensures Located(Front(s)) && Located(BeginCycle(s)) && Keeps(s, Front(s)) && Keeps(s, BeginCycle(s))
  {
    var t, u := Front(s), BeginCycle(s);
    if s.active == [] {
      var swap := (p: Place) => match p case Active => Waiting case Waiting => Active case _ => p;
      assert forall b, p :: At(t, b, p) <==> At(s, b, swap(p));
      Renamed(s, t, swap);
    }
    if Quiet(s) {
      var swap := (p: Place) => match p case Active => Sleeping case Sleeping => Active case _ => p;
      assert forall b, p :: At(u, b, p) <==> At(s, b, swap(p));
      Renamed(s, u, swap);
    }
  }

  lemma {:induction false} WaitsAdded(q: seq<Wait>, a: Ref, events: seq<Ref>)
    requires events != []
    ensures forall b :: HasWait(q + Waits(a, events), b) <==> HasWait(q, b) || b == a
  {
    var ws := Waits(a, events);
    forall b ensures HasWait(q + ws, b) <==> HasWait(q, b) || b == a {
      if HasWait(q, b) {
        var i :| 0 <= i < |q| && q[i].action == b;
        assert (q + ws)[i].action == b;
      }
      assert (q + ws)[|q|].action == a;
    }
  }

  predicate DistinctTimed(ts: seq<Timed>) {
    forall i, j :: 0 <= i < j < |ts| ==> ts[i].action != ts[j].action
  }

  lemma {:induction false} InsertTimedMembers(ts: seq<Timed>, t: Timed)
    ensures forall x :: x in InsertTimed(ts, t) <==> x in ts || x == t
    ensures DistinctTimed(ts) && (forall x :: x in ts ==> x.action != t.action) ==> DistinctTimed(InsertTimed(ts, t))
  {
    if ts == [] || ts[|ts| - 1].time <= t.time {
    } else {
      var n := |ts| - 1;
      InsertTimedMembers(ts[..n], t);
      assert ts == ts[..n] + [ts[n]];
      if DistinctTimed(ts) && forall x :: x in ts ==> x.action != t.action {
        assert DistinctTimed(ts[..n]) && forall x :: x in InsertTimed(ts[..n], t) ==> x.action != ts[n].action;
        assert forall i :: 0 <= i < |InsertTimed(ts[..n], t)| ==> InsertTimed(ts[..n], t)[i] in InsertTimed(ts[..n], t);
      }
    }
  }

  lemma TimesOutIn(s: State)
    ensures forall a :: TimesOut(s, a) <==> exists x :: x in s.timeouts && x.action == a
  {
    forall a ensures TimesOut(s, a) <==> exists x :: x in s.timeouts && x.action == a {
      if TimesOut(s, a) {
        var i :| 0 <= i < |s.timeouts| && s.timeouts[i].action == a;
        assert s.timeouts[i] in s.timeouts;
      }
    }
  }

  lemma YieldLocated(s: State, reason: Reason)
    requires Located(s) && Legal(s, DoYield(reason))
    ensures Located(Yield(s, reason)) && Keeps(s, Yield(s, reason))
  {
    if s.current.Running? {
      var a, u, t := s.current.action, Yield(s, reason), s.(current := Nothing);
      assert At(s, a, IsRunning) && forall p :: At(s, a, p) ==> p == IsRunning;
      assert forall b, p :: p != IsRunning ==> (At(t, b, p) <==> At(s, b, p));
      assert forall b, p :: At(t, b, p) <==> At(s, b, p) && b != a;
      assert !At(t, a, Waiting) && !At(t, a, Sleeping);
      match reason
      case YieldWait =>
        NoDuplicatesSnoc(s.waiting, a);
        assert forall b, p :: p != Waiting ==> (At(u, b, p) <==> At(t, b, p));
        assert forall b, p :: At(u, b, p) <==> if b == a then p == Waiting else At(t, b, p);
        Moved(s, u, a, Waiting);
      case YieldWaitAll(events) =>
        WaitsAdded(s.waitEvents, a, events);
        assert forall b, p :: p != InWaitEvents ==> (At(u, b, p) <==> At(t, b, p));
        assert forall b, p :: At(u, b, p) <==> if b == a then p == InWaitEvents else At(t, b, p);
        Moved(s, u, a, InWaitEvents);
      case YieldSleep =>
        NoDuplicatesSnoc(s.sleeping, a);
        assert forall b, p :: p != Sleeping ==> (At(u, b, p) <==> At(t, b, p));
        assert forall b, p :: At(u, b, p) <==> if b == a then p == Sleeping else At(t, b, p);
        Moved(s, u, a, Sleeping);
      case YieldSleepAll(events) =>
        WaitsAdded(s.sleepEvents, a, events);
        assert forall b, p :: p != InSleepEvents ==> (At(u, b, p) <==> At(t, b, p));
        assert forall b, p :: At(u, b, p) <==> if b == a then p == InSleepEvents else At(t, b, p);
        Moved(s, u, a, InSleepEvents);
      case YieldTimeout(time) =>
        InsertTimedMembers(s.timeouts, Timed(time, a));
        TimesOutIn(s);
        TimesOutIn(u);
        assert !At(s, a, InTimeouts);
        assert forall b, p :: p != InTimeouts ==> (At(u, b, p) <==> At(t, b, p));
        assert forall b, p :: At(u, b, p) <==> if b == a then p == InTimeouts else At(t, b, p);
        Moved(s, u, a, InTimeouts);
      case YieldTerminated =>
        var v := t.(registered := t.registered - {a});
        assert forall b, p :: At(v, b, p) <==> At(t, b, p);
        SignalLocated(v, a);
        Left(s, v, a);
    }
  }

  lemma Left(s: State, v: State, a: Ref)
    requires Located(s) && v.registered == s.registered - {a} && forall b, p :: At(v, b, p) <==> At(s, b, p) && b != a
    ensures Keeps(s, v)
  {
    forall b ensures Placed(v, b) <==> Placed(s, b) && b != a {
      if Placed(s, b) && b != a {
        var p :| At(s, b, p);
        assert At(v, b, p);
      }
      if Placed(v, b) {
        var p :| At(v, b, p);
        assert At(s, b, p);
      }
    }
  }

  /** The running action is nowhere else, so it can leave. */
  lemma Leave(s: State, a: Ref)
    requires Located(s) && s.current == Running(a)
    ensures a in s.registered && forall p :: At(s, a, p) ==> p == IsRunning
    ensures !HasWait(s.waitEvents, a) && !HasWait(s.sleepEvents, a)
    ensures Located(s.(registered := s.registered - {a}, current := Nothing))
  {
    assert At(s, a, IsRunning);
    assert !At(s, a, InWaitEvents) && !At(s, a, InSleepEvents);
    var t := s.(registered := s.registered - {a}, current := Nothing);
    forall b, p | At(t, b, p) ensures At(s, b, p) && b != a {
      match p
      case IsRunning =>
      case _ => assert At(s, b, p) && p != IsRunning;
    }
  }

  lemma CallLocated(s: State, a: Ref)
    requires Located(s)
    ensures Located(Call(s, a)) && Located(Allocated(s, a)) && Keeps(s, Allocated(s, a))
    ensures forall b :: Placed(Call(s, a), b) <==> Placed(s, b) || (b == a && a !in s.registered)
  {
    if a !in s.registered {
      var t := Call(s, a);
      assert forall p :: !At(s, a, p);
      assert !At(s, a, Active);
      NoDuplicatesSnoc(s.active, a);
      assert forall b, p :: p != Active ==> (At(t, b, p) <==> At(s, b, p));
      assert forall b, p :: At(t, b, p) <==> if b == a then p == Active else At(s, b, p);
      assert At(t, a, Active);
      forall b | b != a ensures Placed(t, b) <==> Placed(s, b) {
        if Placed(s, b) {
          var p :| At(s, b, p);
          assert At(t, b, p);
        }
        if Placed(t, b) {
          var p :| At(t, b, p);
          assert At(s, b, p);
        }
      }
    }
    assert forall b, p :: At(Allocated(s, a), b, p) <==> At(s, b, p);
    assert Keeps(s, Allocated(s, a)) by {
      forall b ensures Placed(Allocated(s, a), b) <==> Placed(s, b) {
        if Placed(s, b) {
          var p :| At(s, b, p);
          assert At(Allocated(s, a), b, p);
        }
      }
    }
  }

  /** One legal command keeps every action in one place: nobody is dropped who stays registered,
      and nobody turns up but who is called, paused or unpaused. */
  lemma ApplyLocated(s: State, c: Command)
    requires Located(s) && Legal(s, c)
    ensures var t := Apply(s, c);
      Located(t) && forall a :: Placed(t, a) <==>
        a in t.registered && (Placed(s, a) || (c == DoCall(a) && a !in s.registered) || c == DoPause(a) ||
        c == DoUnpause(a))
  {
    match c
    case DoAllocate(a) => CallLocated(s, a);
    case DoCall(a) => CallLocated(s, a);
    case DoSignal(r) => SignalLocated(s, r);
    case DoStop(a) => StopLocated(s, a);
    case DoPause(a) => PauseLocated(s, a);
    case DoUnpause(a) => UnpauseLocated(s, a);
    case DoTimeOut => TimeOutLocated(s);
    case DoBeginCycle => FrontLocated(s);
    case DoResume => ResumeLocated(s);
    case DoYield(reason) => YieldLocated(s, reason);
  }

  /** In every state a legal run reaches, every action is in at most one place, once. */
  lemma {:induction false} RunLocated(s: State, cs: seq<Command>)
    requires Located(s) && LegalRun(s, cs)
    ensures Located(Run(s, cs))
  {
    if cs != [] {
      RunLocated(s, cs[..|cs| - 1]);
      ApplyLocated(Run(s, cs[..|cs| - 1]), cs[|cs| - 1]);
    }
  }

  /** And who is registered, and was not merely allocated meanwhile, is in one. */
  lemma {:induction false} RunPlaced(s: State, cs: seq<Command>, a: Ref)
    requires Located(s) && LegalRun(s, cs) && DoAllocate(a) !in cs && (a in s.registered ==> Placed(s, a))
    ensures a in Run(s, cs).registered <==> Placed(Run(s, cs), a)
  {
    RunLocated(s, cs);
    if cs != [] {
      var n := |cs| - 1;
      var before := Run(s, cs[..n]);
      assert cs == cs[..n] + [cs[n]];
      RunLocated(s, cs[..n]);
      RunPlaced(s, cs[..n], a);
      ApplyLocated(before, cs[n]);
      if a !in before.registered && a in Run(s, cs).registered { OnlyCallsRegister(before, cs[n], a); }
    }
  }

  /** From the start of the program on, only actions that were allocated may be idle: every other
      one that is registered is in exactly one place. */
  lemma ExactlyOnePlace(cs: seq<Command>, a: Ref)
    requires LegalRun(INITIAL, cs) && DoAllocate(a) !in cs && a in Run(INITIAL, cs).registered
    ensures exists p :: At(Run(INITIAL, cs), a, p) && forall q :: At(Run(INITIAL, cs), a, q) ==> q == p
  {
    InitialLocated();
    RunLocated(INITIAL, cs);
    RunPlaced(INITIAL, cs, a);
    var p :| At(Run(INITIAL, cs), a, p);
  }

  // ---- the legal calls are exact ----

  /** Of a registered action, pausing keeps every action in one place exactly when it is legal. A
      second pause leaves two entries in the pause list. An action that waits in its sleep keeps its
      entries in the sleep table here; what the program does then is not defined, since it hands
      them to the wait table, so of such an action this is about the specification only. */
  lemma PauseExact(s: State, a: Ref)
    requires Located(s) && a in s.registered
    ensures Located(Pause(s, a)) <==> Legal(s, DoPause(a))
  {
    if Legal(s, DoPause(a)) {
      PauseLocated(s, a);
    } else {
      var t := Pause(s, a);
      WithdrawPlaces(s, a);
      assert At(t, a, Paused) && t.paused[|s.paused|] == a;
      assert At(t, a, InTimeouts) || At(t, a, InSleepEvents) || At(t, a, IsRunning) || a in s.paused;
      if a in s.paused {
        var i :| 0 <= i < |s.paused| && s.paused[i] == a;
        assert t.paused[i] == t.paused[|s.paused|];
      }
    }
  }

  /** And so does stopping, for an action that does not wait in its sleep. */
  lemma StopExact(s: State, a: Ref)
    requires Located(s) && a in s.registered && !HasWait(s.sleepEvents, a)
    ensures Located(Stop(s, a)) <==> Legal(s, DoStop(a))
  {
    if Legal(s, DoStop(a)) {
      StopLocated(s, a);
    } else {
      assert At(Stop(s, a), a, InTimeouts) || At(Stop(s, a), a, Paused);
    }
  }

  lemma UnpauseExact(s: State, a: Ref)
    requires Located(s) && a in s.registered
    ensures Located(Unpause(s, a)) <==> Legal(s, DoUnpause(a))
  {
    if Legal(s, DoUnpause(a)) {
      UnpauseLocated(s, a);
    } else {
      var p :| At(s, a, p);
      var t := Unpause(s, a);
      assert At(t, a, Active) && t.active[|s.active|] == a;
      if p.Active? {
        var i :| 0 <= i < |s.active| && s.active[i] == a;
        assert t.active[i] == t.active[|s.active|];
      } else {
        assert At(t, a, p);
      }
    }
  }

  /** A wait for no event at all loses the action. */
  lemma EmptyWaitLoses(s: State, a: Ref, events: seq<Ref>)
    requires Located(s) && s.current == Running(a)
    ensures Placed(Yield(s, YieldWaitAll(events)), a) <==> Legal(s, DoYield(YieldWaitAll(events)))
    ensures Placed(Yield(s, YieldSleepAll(events)), a) <==> Legal(s, DoYield(YieldSleepAll(events)))
  {
    Leave(s, a);
    if events == [] {
      assert s.waitEvents + Waits(a, events) == s.waitEvents && s.sleepEvents + Waits(a, events) == s.sleepEvents;
      var t := s.(current := Nothing);
      assert Yield(s, YieldWaitAll(events)) == Yield(s, YieldSleepAll(events)) == t;
      forall p ensures !At(t, a, p) {
        assert At(t, a, p) ==> At(s, a, p);
      }
    } else {
      WaitsAdded(s.waitEvents, a, events);
      WaitsAdded(s.sleepEvents, a, events);
      assert At(Yield(s, YieldWaitAll(events)), a, InWaitEvents) &&
        At(Yield(s, YieldSleepAll(events)), a, InSleepEvents);
    }
  }

  lemma InitialLocated()
    ensures Located(INITIAL)
  {
  }

  lemma OnlyCallsRegister(s: State, c: Command, a: Ref)
    requires Legal(s, c) && a !in s.registered && a in Apply(s, c).registered
    ensures c == DoAllocate(a) || c == DoCall(a)
  {
  }
}
