/** Whole cycles: timeouts, the turns of the coroutines, and the clean-up. */
module SchedulerCycles {
  import opened SchedulerSpec

  // ---- timeouts ----

  function TimeOuts(s: State, now: nat -> int, n: nat): State
    decreases |s.timeouts|
  {
    if s.timeouts != [] && s.timeouts[0].time <= now(n) then TimeOuts(TimeOut(s), now, n + 1) else s
  }

  function BeginCycleAt(s: State, now: nat -> int): State {
    BeginCycle(TimeOuts(s, now, 0))
  }

  lemma {:induction false} TimeOutsKeep(s: State, now: nat -> int, n: nat)
    ensures TimeOuts(s, now, n).current == s.current
    decreases |s.timeouts|
  {
    if s.timeouts != [] && s.timeouts[0].time <= now(n) { TimeOutsKeep(TimeOut(s), now, n + 1); }
  }

  // ---- turns ----

  /** What a coroutine does between being resumed and handing control back. */
  datatype Turn = Turn(calls: seq<Command>, reason: Reason)

  predicate IsCall(c: Command) {
    c.DoAllocate? || c.DoCall? || c.DoSignal? || c.DoStop? || c.DoPause? || c.DoUnpause?
  }

  function TurnCommands(turn: Turn): seq<Command> {
    [DoResume] + turn.calls + [DoYield(turn.reason)]
  }

  predicate LegalTurns(s: State, turns: seq<Turn>)
    decreases |turns|
  {
    turns == [] || Quiet(s) ||
    ((forall i :: 0 <= i < |turns[0].calls| ==> IsCall(turns[0].calls[i])) && LegalRun(s, TurnCommands(turns[0])) &&
     LegalTurns(Run(s, TurnCommands(turns[0])), turns[1..]))
  }

  function RunTurns(s: State, turns: seq<Turn>): State
    requires LegalTurns(s, turns)
    decreases |turns|
  {
    if turns == [] || Quiet(s) then s else RunTurns(Run(s, TurnCommands(turns[0])), turns[1..])
  }

  lemma {:induction false} PrefixLegal(s: State, cs: seq<Command>, n: nat)
    requires LegalRun(s, cs) && n <= |cs|
    ensures LegalRun(s, cs[..n])
    decreases |cs|
  {
    if n < |cs| {
      assert cs[..|cs| - 1][..n] == cs[..n];
      PrefixLegal(s, cs[..|cs| - 1], n);
    } else {
      assert cs[..n] == cs;
    }
  }

  // ---- the clean-up ----

  /** The entry `begin()` of the wait table denotes: the first of the least event. */
  predicate IsBegin(q: seq<Wait>, i: nat) {
    i < |q| && forall j :: 0 <= j < |q| ==> q[i].event < q[j].event || (q[i].event == q[j].event && i <= j)
  }

  function Begin(q: seq<Wait>): (k: nat)
    requires q != []
    ensures IsBegin(q, k)
  {
    if |q| == 1 then 0
    else
      var k := Begin(q[..|q| - 1]);
      assert forall j :: 0 <= j < |q| - 1 ==> q[..|q| - 1][j] == q[j];
      if q[|q| - 1].event < q[k].event then |q| - 1 else k
  }

  lemma BeginIs(q: seq<Wait>, i: nat)
    requires IsBegin(q, i)
    ensures Begin(q) == i
  {
    var k := Begin(q);
    assert q[i].event <= q[k].event && q[k].event <= q[i].event;
  }

  lemma {:induction false} WithoutEventLength(q: seq<Wait>, r: Ref)
    ensures |WithoutEvent(q, r)| <= |q|
    ensures |WithoutEvent(q, r)| == |q| ==> WithoutEvent(q, r) == q
  {
    if q != [] {
      WithoutEventLength(q[..|q| - 1], r);
      assert q == q[..|q| - 1] + [q[|q| - 1]];
    }
  }

  lemma {:induction false} WithoutActionLength(q: seq<Wait>, a: Ref)
    ensures |WithoutAction(q, a)| <= |q|
    ensures |WithoutAction(q, a)| == |q| ==> WithoutAction(q, a) == q
  {
    if q != [] {
      WithoutActionLength(q[..|q| - 1], a);
      assert q == q[..|q| - 1] + [q[|q| - 1]];
    }
  }

  /** Stopping a waiting action takes at least one entry out of the wait table. */
  lemma CleanUpShorter(q: seq<Wait>, a: Ref)
    requires HasWait(q, a)
    ensures |WithoutAction(WithoutEvent(q, a), a)| < |q|
  {
    WithoutEventLength(q, a);
    WithoutActionLength(WithoutEvent(q, a), a);
    WithoutActionMembers(WithoutEvent(q, a), a);
    assert !HasWait(WithoutAction(WithoutEvent(q, a), a), a);
  }

  /** The action the clean-up picks may be stopped. */
  lemma CleanUpLegal(s: State)
    requires Located(s) && s.waitEvents != []
    ensures var a := s.waitEvents[Begin(s.waitEvents)].action;
        a in s.registered && Legal(s, DoStop(a)) && At(s, a, InWaitEvents)
  {
    var a := s.waitEvents[Begin(s.waitEvents)].action;
    assert At(s, a, InWaitEvents);
    assert !At(s, a, Paused) && !At(s, a, InTimeouts) && !At(s, a, InSleepEvents);
  }

  /** Actions whose events never came are stopped, in the order of the events, until nobody waits. */
  ghost function CleanUp(s: State): (t: State)
    requires Located(s)
    ensures t.waitEvents == [] && Located(t)
    decreases |s.waitEvents|
  {
    if s.waitEvents == [] then s
    else
      var a := s.waitEvents[Begin(s.waitEvents)].action;
      CleanUpLegal(s);
      CleanUpShorter(s.waitEvents, a);
      StopLocated(s, a);
      CleanUp(Stop(s, a))
  }

  // ---- whole cycles ----

  /** Each stop is of the action that waits for the least event, the one that waited first, and the next one begins
      from what it leaves. */
  predicate StopsInOrder(s: State, cs: seq<Command>)
    decreases |cs|
  {
    if cs == [] then s.waitEvents == []
    else
      cs[0].DoStop? && StopsInOrder(Stop(s, cs[0].a), cs[1..]) &&
      exists i :: 0 <= i < |s.waitEvents| && s.waitEvents[i].action == cs[0].a &&
        forall j :: 0 <= j < |s.waitEvents| ==>
          s.waitEvents[i].event < s.waitEvents[j].event || (s.waitEvents[i].event == s.waitEvents[j].event && i <= j)
  }

  lemma NoStops(s: State)
    requires s.waitEvents == []
    ensures StopsInOrder(s, [])
  {
  }

  lemma StopsCons(s: State, a: Ref, cs: seq<Command>)
    requires s.waitEvents != [] && a == s.waitEvents[Begin(s.waitEvents)].action && StopsInOrder(Stop(s, a), cs)
    ensures StopsInOrder(s, [DoStop(a)] + cs)
  {
    hide Stop;
    assert ([DoStop(a)] + cs)[1..] == cs && IsBegin(s.waitEvents, Begin(s.waitEvents));
  }

  /** The clean-up is a run of legal calls of `stop`. */
  lemma {:induction false} CleanUpRuns(s: State) returns (cs: seq<Command>)
    requires Located(s)
    ensures LegalRun(s, cs) && CleanUp(s) == Run(s, cs) && forall i :: 0 <= i < |cs| ==> cs[i].DoStop?
    ensures StopsInOrder(s, cs)
    decreases |s.waitEvents|
  {
    hide Located, Legal, StopsInOrder;
    if s.waitEvents == [] {
      assert StopsInOrder(s, []) by { NoStops(s); }
      cs := [];
    } else {
      CleanUpLegal(s);
      var a := s.waitEvents[Begin(s.waitEvents)].action;
      CleanUpShorter(s.waitEvents, a);
      ApplyLocated(s, DoStop(a));
      var rest := CleanUpRuns(Stop(s, a));
      RunFirst(s, DoStop(a), rest);
      cs := [DoStop(a)] + rest;
      StopsCons(s, a, rest);
    }
  }

  lemma {:induction false} RunFirst(s: State, c: Command, cs: seq<Command>)
    requires Legal(s, c) && LegalRun(Apply(s, c), cs)
    ensures LegalRun(s, [c] + cs) && Run(s, [c] + cs) == Run(Apply(s, c), cs)
  {
    if cs == [] {
      assert [c] + cs == [c] && [c][..0] == [];
      assert LegalRun(s, []) && Run(s, []) == s;
    } else {
      var n := |cs| - 1;
      RunFirst(s, c, cs[..n]);
      assert ([c] + cs)[..n + 1] == [c] + cs[..n];
    }
  }

  lemma {:induction false} RunConcat(s: State, cs: seq<Command>, ds: seq<Command>)
    requires LegalRun(s, cs) && LegalRun(Run(s, cs), ds)
    ensures LegalRun(s, cs + ds) && Run(s, cs + ds) == Run(Run(s, cs), ds)
  {
    if ds == [] {
      assert cs + ds == cs;
    } else {
      var n := |ds| - 1;
      RunConcat(s, cs, ds[..n]);
      assert (cs + ds)[..|cs| + n] == cs + ds[..n];
    }
  }

  lemma {:induction false} TimeOutsRun(s: State, now: nat -> int, n: nat) returns (cs: seq<Command>)
    ensures LegalRun(s, cs) && TimeOuts(s, now, n) == Run(s, cs)
    decreases |s.timeouts|
  {
    if s.timeouts != [] && s.timeouts[0].time <= now(n) {
      var rest := TimeOutsRun(TimeOut(s), now, n + 1);
      RunFirst(s, DoTimeOut, rest);
      cs := [DoTimeOut] + rest;
    } else {
      cs := [];
    }
  }

  lemma {:induction false} TurnsRun(s: State, turns: seq<Turn>) returns (cs: seq<Command>)
    requires LegalTurns(s, turns)
    decreases |turns|
    ensures LegalRun(s, cs) && RunTurns(s, turns) == Run(s, cs)
  {
    if turns == [] || Quiet(s) {
      cs := [];
    } else {
      var t := Run(s, TurnCommands(turns[0]));
      var rest := TurnsRun(t, turns[1..]);
      RunConcat(s, TurnCommands(turns[0]), rest);
      cs := TurnCommands(turns[0]) + rest;
    }
  }

  lemma {:induction false} StopsKeepQuiet(s: State, cs: seq<Command>)
    requires LegalRun(s, cs) && s.waiting == [] && forall i :: 0 <= i < |cs| ==> cs[i].DoStop?
    ensures Run(s, cs).waiting == []
  {
    if cs != [] { StopsKeepQuiet(s, cs[..|cs| - 1]); }
  }

  /** A completed cycle is a legal run, so all that holds over runs holds over cycles, and it
      leaves nobody waiting, with or without events. */
  lemma CycleTheorem(s: State, now: nat -> int, turns: seq<Turn>) returns (cs: seq<Command>)
    requires Located(s) && s.current.Nothing? && LegalTurns(BeginCycleAt(s, now), turns)
    requires Quiet(RunTurns(BeginCycleAt(s, now), turns))
    ensures Located(RunTurns(BeginCycleAt(s, now), turns))
    ensures var t := CleanUp(RunTurns(BeginCycleAt(s, now), turns));
      LegalRun(s, cs) && t == Run(s, cs) && Located(t) && t.waiting == [] && t.waitEvents == []
  {
    var first := TimeOutsRun(s, now, 0);
    TimeOutsKeep(s, now, 0);
    var r := TimeOuts(s, now, 0);
    assert LegalRun(r, []) && Run(r, []) == r;
    RunFirst(r, DoBeginCycle, []);
    assert [DoBeginCycle] + [] == [DoBeginCycle];
    RunConcat(s, first, [DoBeginCycle]);
    var b := BeginCycleAt(s, now);
    var bs := TurnsRun(b, turns);
    RunConcat(s, first + [DoBeginCycle], bs);
    RunLocated(s, first + [DoBeginCycle] + bs);
    var u := RunTurns(b, turns);
    var ds := CleanUpRuns(u);
    StopsKeepQuiet(u, ds);
    RunConcat(s, first + [DoBeginCycle] + bs, ds);
    cs := first + [DoBeginCycle] + bs + ds;
    RunLocated(s, cs);
  }
}
