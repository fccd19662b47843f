/** The scheduler as it is stored: three physical lists whose roles a state variable permutes,
    iterators kept by every action, and calls that update all of it in place. */
module SchedulerInPlace {
  import opened SchedulerSpec
  import opened Sequences
  import opened SchedulerLists
  import opened SchedulerCycles

  // ---- the permutation ----

  datatype SleepSwapState = A_W_S | A_S_W | W_A_S | W_S_A | S_A_W | S_W_A

  /** The three lists whose roles are permuted, and the two others actions keep an iterator into. */
  datatype Slot = One | Two | Three | Pausing | TimingOut

  function ActiveIter(state: SleepSwapState): Slot {
    match state
    case A_W_S => One
    case A_S_W => One
    case W_A_S => Two
    case W_S_A => Three
    case S_A_W => Two
    case S_W_A => Three
  }

  function WaitIter(state: SleepSwapState): Slot {
    match state
    case A_W_S => Two
    case A_S_W => Three
    case W_A_S => One
    case W_S_A => One
    case S_A_W => Three
    case S_W_A => Two
  }

  function SleepIter(state: SleepSwapState): Slot {
    match state
    case A_W_S => Three
    case A_S_W => Two
    case W_A_S => Three
    case W_S_A => Two
    case S_A_W => One
    case S_W_A => One
  }

  function ActiveList(state: SleepSwapState): Slot {
    match state
    case A_W_S => One
    case A_S_W => One
    case W_A_S => Two
    case W_S_A => Three
    case S_A_W => Two
    case S_W_A => Three
  }

  function WaitingList(state: SleepSwapState): Slot {
    match state
    case A_W_S => Two
    case A_S_W => Three
    case W_A_S => One
    case W_S_A => One
    case S_A_W => Three
    case S_W_A => Two
  }

  function SleepingList(state: SleepSwapState): Slot {
    match state
    case A_W_S => Three
    case A_S_W => Two
    case W_A_S => Three
    case W_S_A => Two
    case S_A_W => One
    case S_W_A => One
  }

  function SwapActiveSleep(state: SleepSwapState): SleepSwapState {
    match state
    case A_W_S => S_W_A
    case A_S_W => S_A_W
    case W_A_S => W_S_A
    case W_S_A => W_A_S
    case S_A_W => A_S_W
    case S_W_A => A_W_S
  }

  function SwapActiveWait(state: SleepSwapState): SleepSwapState {
    match state
    case A_W_S => W_A_S
    case A_S_W => W_S_A
    case W_A_S => A_W_S
    case W_S_A => A_S_W
    case S_A_W => S_W_A
    case S_W_A => S_A_W
  }

  /** The six tables fit together: list and iterator accessors agree, the three roles are
      three different lists, and each swap exchanges two roles, keeps the third, and undoes itself. */
  lemma Permutation(x: SleepSwapState)
    ensures ActiveIter(x) == ActiveList(x) && WaitIter(x) == WaitingList(x) && SleepIter(x) == SleepingList(x)
    ensures ActiveList(x) != WaitingList(x) && ActiveList(x) != SleepingList(x) && WaitingList(x) != SleepingList(x)
    ensures var y := SwapActiveSleep(x);
      ActiveList(y) == SleepingList(x) && SleepingList(y) == ActiveList(x) && WaitingList(y) == WaitingList(x) &&
        SwapActiveSleep(y) == x
    ensures var y := SwapActiveWait(x);
      ActiveList(y) == WaitingList(x) && WaitingList(y) == ActiveList(x) && SleepingList(y) == SleepingList(x) &&
        SwapActiveWait(y) == x
  {
    match x
    case A_W_S =>
    case A_S_W =>
    case W_A_S =>
    case W_S_A =>
    case S_A_W =>
    case S_W_A =>
  }

  // ---- the scheduler object ----

  datatype ActiveAction = ActiveAction(
    iterOne: Iterator, iterTwo: Iterator, iterThree: Iterator, iterPause: Iterator, iterTimeout: Iterator,
    iterEvents: seq<nat>,      // handles into one of the event tables
    events: seq<Ref>)          // the events received so far

  const FRESH := ActiveAction(End, End, End, End, End, [], [])

  type Actions = map<Ref, ActiveAction>

  function IterOf(x: ActiveAction, slot: Slot): Iterator {
    match slot
    case One => x.iterOne
    case Two => x.iterTwo
    case Three => x.iterThree
    case Pausing => x.iterPause
    case TimingOut => x.iterTimeout
  }

  function Iters(actions: Actions, slot: Slot): map<Ref, Iterator> {
    map a | a in actions :: IterOf(actions[a], slot)
  }

  function Arrays(actions: Actions): map<Ref, seq<nat>> {
    map a | a in actions :: actions[a].iterEvents
  }

  function SetIter(x: ActiveAction, slot: Slot, i: Iterator): ActiveAction {
    match slot
    case One => x.(iterOne := i)
    case Two => x.(iterTwo := i)
    case Three => x.(iterThree := i)
    case Pausing => x.(iterPause := i)
    case TimingOut => x.(iterTimeout := i)
  }

  /** The lists an action may have an iterator into. */
  datatype Lists = Lists(one: seq<Node>, two: seq<Node>, three: seq<Node>, paused: seq<Node>, timing: seq<Node>) {
    function Get(slot: Slot): seq<Node> {
      match slot
      case One => one
      case Two => two
      case Three => three
      case Pausing => paused
      case TimingOut => timing
    }

    function Set(slot: Slot, list: seq<Node>): (r: Lists)
      ensures forall s :: r.Get(s) == if s == slot then list else Get(s)
    {
      match slot
      case One => this.(one := list)
      case Two => this.(two := list)
      case Three => this.(three := list)
      case Pausing => this.(paused := list)
      case TimingOut => this.(timing := list)
    }
  }

  lemma ListsFresh(lists: Lists, actions: Actions, next: nat, a: Ref)
    requires ListsIndexed(lists, actions, next) && a !in actions
    ensures ListsIndexed(lists, actions[a := FRESH], next) && Arrays(actions[a := FRESH]) == Arrays(actions)[a := []]
  {
    forall s ensures Indexed(lists.Get(s), Iters(actions[a := FRESH], s), next) {
      IndexedFresh(lists.Get(s), Iters(actions, s), next, a);
      assert Iters(actions[a := FRESH], s) == Iters(actions, s)[a := End];
    }
  }

  lemma ListsGone(lists: Lists, actions: Actions, next: nat, a: Ref)
    requires ListsIndexed(lists, actions, next) && a in actions && forall s :: a !in Refs(lists.Get(s))
    ensures ListsIndexed(lists, actions - {a}, next) && Arrays(actions - {a}) == Arrays(actions) - {a}
  {
    forall s ensures Indexed(lists.Get(s), Iters(actions - {a}, s), next) {
      FindEntry(lists.Get(s), a);
      assert Iters(actions, s)[a] == End;
      IndexedGone(lists.Get(s), Iters(actions, s), next, a);
      assert Iters(actions - {a}, s) == Iters(actions, s) - {a};
    }
  }

  /** The lists without their handles. */
  datatype RefLists = RefLists(one: seq<Ref>, two: seq<Ref>, three: seq<Ref>, paused: seq<Ref>, timing: seq<Ref>) {
    function Get(slot: Slot): seq<Ref> {
      match slot
      case One => one
      case Two => two
      case Three => three
      case Pausing => paused
      case TimingOut => timing
    }

    function Set(slot: Slot, list: seq<Ref>): (r: RefLists)
      ensures r.Get(slot) == list
      ensures forall s :: s != slot ==> r.Get(s) == Get(s)
    {
      match slot
      case One => this.(one := list)
      case Two => this.(two := list)
      case Three => this.(three := list)
      case Pausing => this.(paused := list)
      case TimingOut => this.(timing := list)
    }

    function Append(slot: Slot, more: seq<Ref>): RefLists {
      Set(slot, Get(slot) + more)
    }
  }

  function Forget(lists: Lists): RefLists {
    RefLists(Refs(lists.one), Refs(lists.two), Refs(lists.three), Refs(lists.paused), Refs(lists.timing))
  }

  lemma ForgetSet(lists: Lists, slot: Slot, list: seq<Node>)
    ensures Forget(lists.Set(slot, list)) == Forget(lists).Set(slot, Refs(list))
    ensures Forget(lists).Get(slot) == Refs(lists.Get(slot))
    ensures Forget(lists).Set(slot, Forget(lists).Get(slot)) == Forget(lists)
  {
  }

  lemma AppendTwice(l: RefLists, slot: Slot, a: seq<Ref>, b: seq<Ref>)
    ensures l.Append(slot, a).Append(slot, b) == l.Append(slot, a + b) && l.Append(slot, []) == l
  {
    assert l.Get(slot) + a + b == l.Get(slot) + (a + b) && l.Get(slot) + [] == l.Get(slot);
  }

  lemma ListsPushBack(lists: Lists, actions: Actions, next: nat, slot: Slot, a: Ref)
    requires ListsIndexed(lists, actions, next) && a in actions && a !in Forget(lists).Get(slot)
    ensures var after := lists.Set(slot, lists.Get(slot) + [Node(next, a)]);
      var actions2 := actions[a := SetIter(actions[a], slot, Entry(next))];
      ListsIndexed(after, actions2, next + 1) && Forget(after) == Forget(lists).Append(slot, [a]) &&
      Arrays(actions2) == Arrays(actions) && actions2.Keys == actions.Keys
  {
    ForgetSet(lists, slot, lists.Get(slot) + [Node(next, a)]);
    IndexedInsert(lists.Get(slot), Iters(actions, slot), next, a);
    ListsInsert(lists, actions, next, slot, lists.Get(slot) + [Node(next, a)], a);
    SetIterIters(actions, a, slot, Entry(next));
  }

  lemma ListsEraseEntry(lists: Lists, actions: Actions, next: nat, slot: Slot, a: Ref)
    requires ListsIndexed(lists, actions, next) && a in actions
    ensures Forget(lists).Set(slot, Without(Forget(lists).Get(slot), a)) ==
      match IterOf(actions[a], slot)
      case End => Forget(lists)
      case Entry(h) => Forget(lists.Set(slot, Erase(lists.Get(slot), h)))
    ensures IterOf(actions[a], slot).Entry? ==>
      var actions2 := actions[a := SetIter(actions[a], slot, End)];
      ListsIndexed(lists.Set(slot, Erase(lists.Get(slot), IterOf(actions[a], slot).handle)), actions2, next) &&
      Arrays(actions2) == Arrays(actions) && actions2.Keys == actions.Keys
  {
    ForgetSet(lists, slot, lists.Get(slot));
    if IterOf(actions[a], slot) == End {
      assert Iters(actions, slot)[a] == End;
      FindEntry(lists.Get(slot), a);
      WithoutMembers(Refs(lists.Get(slot)), a);
    } else {
      ListsErase(lists, actions, next, slot, a);
      ForgetSet(lists, slot, Erase(lists.Get(slot), IterOf(actions[a], slot).handle));
      SetIterIters(actions, a, slot, End);
    }
  }

  /** No active action holds handles into the event tables. */
  ghost predicate ActiveIdle(active: seq<Ref>, arrays: map<Ref, seq<nat>>) {
    forall a :: a in active ==> a in arrays && arrays[a] == []
  }

  ghost predicate ListsIndexed(lists: Lists, actions: Actions, next: nat) {
    forall s :: Indexed(lists.Get(s), Iters(actions, s), next)
  }

  lemma SetIterIters(actions: Actions, a: Ref, slot: Slot, i: Iterator)
    requires a in actions
    ensures var after := actions[a := SetIter(actions[a], slot, i)];
      (forall s :: Iters(after, s) == if s == slot then Iters(actions, slot)[a := i] else Iters(actions, s)) &&
      Arrays(after) == Arrays(actions) && after.Keys == actions.Keys
  {
  }

  lemma SetArrayIters(actions: Actions, a: Ref, left: seq<nat>, events: seq<Ref>)
    requires a in actions
    ensures var after := actions[a := actions[a].(iterEvents := left, events := events)];
      (forall s :: Iters(after, s) == Iters(actions, s)) && Arrays(after) == Arrays(actions)[a := left] &&
        after.Keys == actions.Keys
  {
  }

  lemma ListsSetArray(lists: Lists, actions: Actions, next: nat, a: Ref, left: seq<nat>, events: seq<Ref>)
    requires ListsIndexed(lists, actions, next) && a in actions
    ensures var after := actions[a := actions[a].(iterEvents := left, events := events)];
      ListsIndexed(lists, after, next) && Arrays(after) == Arrays(actions)[a := left] && after.Keys == actions.Keys
  {
    SetArrayIters(actions, a, left, events);
  }

  lemma ListsInsert(lists: Lists, actions: Actions, next: nat, slot: Slot, list: seq<Node>, a: Ref)
    requires ListsIndexed(lists, actions, next) && a in actions &&
        Indexed(list, Iters(actions, slot)[a := Entry(next)], next + 1)
    ensures ListsIndexed(lists.Set(slot, list), actions[a := SetIter(actions[a], slot, Entry(next))], next + 1)
  {
    var after := actions[a := SetIter(actions[a], slot, Entry(next))];
    SetIterIters(actions, a, slot, Entry(next));
    forall s ensures Indexed(lists.Set(slot, list).Get(s), Iters(after, s), next + 1) {
    }
  }

  lemma ListsErase(lists: Lists, actions: Actions, next: nat, slot: Slot, a: Ref)
    requires ListsIndexed(lists, actions, next) && a in actions && IterOf(actions[a], slot).Entry?
    ensures var list := Erase(lists.Get(slot), IterOf(actions[a], slot).handle);
      ListsIndexed(lists.Set(slot, list), actions[a := SetIter(actions[a], slot, End)], next) &&
      Refs(list) == Without(Refs(lists.Get(slot)), a)
  {
    IndexedErase(lists.Get(slot), Iters(actions, slot), next, a);
    SetIterIters(actions, a, slot, End);
  }

  /** Lists under their names, iterators forgotten. */
  function View(keys: set<Ref>, names: RefLists, state: SleepSwapState, times: seq<int>, ew: seq<Wait>, es: seq<Wait>,
          current: Running): State
    requires |times| == |names.timing|
  {
    State(keys, names.Get(ActiveList(state)), names.Get(WaitingList(state)), names.Get(SleepingList(state)),
          names.paused, TimedOf(times, names.timing), ew, es, current)
  }

  /** Where nothing is in two places, an active action waits for nothing. */
  lemma ActiveIsIdle(lists: Lists, actions: Actions, next: nat, s: State, q: seq<EventNode>, other: seq<EventNode>)
    requires Located(s) && s.registered == actions.Keys && s.waitEvents == WaitsOf(q) && s.sleepEvents == WaitsOf(other)
    requires EventsLinked(q, other, Arrays(actions), next)
    ensures ActiveIdle(s.active, Arrays(actions))
  {
    hide EventsLinked, HasWait;
    forall a | a in s.active ensures a in Arrays(actions) && Arrays(actions)[a] == [] {
      assert At(s, a, Active);
      assert !At(s, a, InWaitEvents) && !At(s, a, InSleepEvents);
      IdleArray(q, other, Arrays(actions), next, a);
    }
  }

  /** An action in no list of iterators and with no handles can be taken out of the table. */
  lemma NowhereListed(lists: Lists, s: State, state: SleepSwapState, times: seq<int>, a: Ref)
    requires |times| == |lists.timing| && s.active == Forget(lists).Get(ActiveList(state))
    requires s.waiting == Forget(lists).Get(WaitingList(state)) && s.sleeping == Forget(lists).Get(SleepingList(state))
    requires s.paused == Forget(lists).paused && s.timeouts == TimedOf(times, Forget(lists).timing)
    requires !At(s, a, Active) && !At(s, a, Waiting) && !At(s, a, Sleeping) && !At(s, a, Paused) &&
        !At(s, a, InTimeouts)
    ensures forall slot :: a !in Refs(lists.Get(slot))
  {
    Permutation(state);
    forall i | 0 <= i < |lists.timing| ensures Refs(lists.timing)[i] != a {
      assert s.timeouts[i].action == Refs(lists.timing)[i];
    }
    forall slot ensures a !in Refs(lists.Get(slot)) {
      if slot != TimingOut && slot != Pausing {
        assert slot == ActiveList(state) || slot == WaitingList(state) || slot == SleepingList(state);
      }
      ForgetSet(lists, slot, []);
    }
  }

  /** What is left of an action between its withdrawal and its erasure. */
  lemma StopLeaves(s: State, a: Ref)
    requires Located(s) && Legal(s, DoStop(a)) && a in s.registered
    ensures var t := SchedulerSpec.Signal(s, a);
      !At(t, a, InSleepEvents) && forall p :: At(Withdraw(t, a), a, p) ==> p == IsRunning
  {
    SignalPlaces(s, a);
    WithdrawPlaces(SchedulerSpec.Signal(s, a), a);
    assert !At(s, a, InSleepEvents) && !At(s, a, Paused) && !At(s, a, InTimeouts);
  }

  lemma TimedDistinct(times: seq<int>, names: seq<Ref>)
    requires |times| == |names| && DistinctTimed(TimedOf(times, names))
    ensures NoDuplicates(names)
  {
    forall i, j | 0 <= i < j < |names| ensures names[i] != names[j] {
      assert TimedOf(times, names)[i].action != TimedOf(times, names)[j].action;
    }
  }

  lemma ListsLater(lists: Lists, actions: Actions, next: nat)
    requires ListsIndexed(lists, actions, next)
    ensures ListsIndexed(lists, actions, next + 1)
  {
    forall s ensures Indexed(lists.Get(s), Iters(actions, s), next + 1) {
    }
  }

  lemma ListsInsertAt(lists: Lists, actions: Actions, next: nat, k: nat, a: Ref)
    requires ListsIndexed(lists, actions, next) && a in actions && a !in Refs(lists.timing) && k <= |lists.timing|
    ensures var after := lists.Set(TimingOut, lists.timing[..k] + [Node(next, a)] + lists.timing[k..]);
      var actions2 := actions[a := SetIter(actions[a], TimingOut, Entry(next))];
      ListsIndexed(after, actions2, next + 1) && Arrays(actions2) == Arrays(actions) && actions2.Keys == actions.Keys &&
      Forget(after) == Forget(lists).Set(TimingOut, Refs(lists.timing)[..k] + [a] + Refs(lists.timing)[k..])
  {
    var list := lists.timing[..k] + [Node(next, a)] + lists.timing[k..];
    assert lists.Get(TimingOut) == lists.timing;
    IndexedInsertAt(lists.timing, Iters(actions, TimingOut), next, k, a);
    ForgetSet(lists, TimingOut, list);
    ListsInsert(lists, actions, next, TimingOut, list, a);
    SetIterIters(actions, a, TimingOut, Entry(next));
  }

  class BasicScheduler {
    var actions: Actions
    var lists: Lists               // m_listOne, m_listTwo, m_listThree, m_paused and the nodes of m_timeouts
    var times: seq<int>            // the keys of m_timeouts
    var eventsSleep: seq<EventNode>
    var eventsWait: seq<EventNode>
    var current: Running
    var sleepState: SleepSwapState
    var nextHandle: nat            // list nodes are allocated with fresh addresses

    /** The state as clients see it. */
    ghost function Abs(): State
      reads this
      requires |times| == |lists.timing|
    {
      View(actions.Keys, Forget(lists), sleepState, times, WaitsOf(eventsWait), WaitsOf(eventsSleep), current)
    }

    /** Every stored iterator denotes exactly the entry of its action, and back. */
    ghost predicate Linked()
      reads this
    {
      |times| == |lists.timing| && ListsIndexed(lists, actions, nextHandle) &&
      EventsLinked(eventsWait, eventsSleep, Arrays(actions), nextHandle)
    }

    ghost predicate Valid()
      reads this
    {
      Linked() && Located(Abs())
    }

    constructor ()
      ensures Valid() && Abs() == INITIAL
    {
      actions, lists, times, eventsSleep, eventsWait := map[], Lists([], [], [], [], []), [], [], [];
      current, sleepState, nextHandle := Nothing, A_W_S, 0;
      new;
      assert Abs() == INITIAL;
      InitialLocated();
    }

    /** `list.insert( list.end(), action )`, and the iterator it returns stored in the action. */
    method PushBack(list: Slot, iter: Slot, a: Ref)
      requires list == iter && a in actions
      requires ListsIndexed(lists, actions, nextHandle) && a !in Forget(lists).Get(list)
      modifies this`lists, this`actions, this`nextHandle
      ensures ListsIndexed(lists, actions, nextHandle) && nextHandle == old(nextHandle) + 1
      ensures Forget(lists) == old(Forget(lists)).Append(list, [a])
      ensures Arrays(actions) == old(Arrays(actions)) && actions.Keys == old(actions).Keys
    {
      hide ListsIndexed, EventsLinked;
      ListsPushBack(lists, actions, nextHandle, list, a);
      lists := lists.Set(list, lists.Get(list) + [Node(nextHandle, a)]);
      actions := actions[a := SetIter(actions[a], iter, Entry(nextHandle))];
      nextHandle := nextHandle + 1;
    }

    /** `if( i != list.end() ) { list.erase( i ); i = list.end(); }` */
    method EraseEntryOf(list: Slot, iter: Slot, a: Ref)
      requires list == iter && a in actions && ListsIndexed(lists, actions, nextHandle)
      modifies this`lists, this`actions
      ensures ListsIndexed(lists, actions, nextHandle)
      ensures Forget(lists) == old(Forget(lists)).Set(list, Without(old(Forget(lists)).Get(list), a))
      ensures Arrays(actions) == old(Arrays(actions)) && actions.Keys == old(actions).Keys
    {
      hide ListsIndexed, EventsLinked;
      var i := IterOf(actions[a], iter);
      ListsEraseEntry(lists, actions, nextHandle, list, a);
      if i != End {
        lists := lists.Set(list, Erase(lists.Get(list), i.handle));
        actions := actions[a := SetIter(actions[a], iter, End)];
      }
    }

    /** `on_event` for the wait table. */
    method HappenWaiting(r: Ref)
      requires |times| == |lists.timing| && InEvent(lists, actions, nextHandle, sleepState, eventsWait, eventsSleep)
      modifies this`lists, this`actions, this`nextHandle, this`eventsWait
      ensures |times| == |lists.timing| && InEvent(lists, actions, nextHandle, sleepState, eventsWait, eventsSleep)
      ensures var s := old(Abs());
        Abs() == s.(active := s.active +
          Fired(s.waitEvents, r, |s.waitEvents|), waitEvents := WithoutEvent(s.waitEvents, r))
    {
      hide ListsIndexed, EventsLinked;
      Permutation(sleepState);
      eventsWait := OnEvent(eventsWait, eventsSleep, r);
    }

    /** `on_event` for the sleep table. */
    method HappenSleeping(r: Ref)
      requires |times| == |lists.timing| && InEvent(lists, actions, nextHandle, sleepState, eventsSleep, eventsWait)
      modifies this`lists, this`actions, this`nextHandle, this`eventsSleep
      ensures |times| == |lists.timing| && InEvent(lists, actions, nextHandle, sleepState, eventsSleep, eventsWait)
      ensures var s := old(Abs());
        Abs() == s.(active := s.active +
          Fired(s.sleepEvents, r, |s.sleepEvents|), sleepEvents := WithoutEvent(s.sleepEvents, r))
    {
      hide ListsIndexed, EventsLinked;
      Permutation(sleepState);
      eventsSleep := OnEvent(eventsSleep, eventsWait, r);
    }

    /** `on_event` for the wait table, then for the sleep table. */
    method Happen(r: Ref)
      requires Linked() && ActiveIdle(Abs().active, Arrays(actions))
      modifies this`lists, this`actions, this`nextHandle, this`eventsWait, this`eventsSleep
      ensures Linked() && Abs() == SchedulerSpec.Signal(old(Abs()), r)
    {
      hide ListsIndexed, EventsLinked;
      HappenWaiting(r);
      EventsLinkedSwap(eventsWait, eventsSleep, Arrays(actions), nextHandle);
      HappenSleeping(r);
      EventsLinkedSwap(eventsSleep, eventsWait, Arrays(actions), nextHandle);
    }

    /** `event_remove`: every handle the action holds leaves the table. */
    method EventRemove(q: seq<EventNode>, ghost other: seq<EventNode>, a: Ref) returns (rest: seq<EventNode>)
      requires a in actions && ListsIndexed(lists, actions, nextHandle) &&
          EventsLinked(q, other, Arrays(actions), nextHandle)
      requires Handles(other, a) == []
      modifies this`actions
      ensures actions.Keys == old(actions).Keys && ListsIndexed(lists, actions, nextHandle)
      ensures EventsLinked(rest, other, Arrays(actions), nextHandle) && Arrays(actions) == Arrays(old(actions))[a := []]
      ensures WaitsOf(rest) == WithoutAction(WaitsOf(q), a)
    {
      hide ListsIndexed, EventsLinked;
      var held := actions[a].iterEvents;
      ghost var gone;
      rest, gone := EraseHandles(q, held);
      EventsRemoved(q, other, Arrays(actions), nextHandle, a, gone);
      ListsSetArray(lists, actions, nextHandle, a, [], actions[a].events);
      actions := actions[a := actions[a].(iterEvents := [])];
    }

    /** Takes the action out of the three lists. */
    method RemoveFromLists(a: Ref)
      requires Linked() && a in actions
      modifies this`lists, this`actions
      ensures Linked() && a in actions && Arrays(actions) == Arrays(old(actions))
      ensures var s := old(Abs());
        Abs() == s.(active := Without(s.active, a), waiting := Without(s.waiting, a),
          sleeping := Without(s.sleeping, a))
    {
      hide ListsIndexed, EventsLinked;
      Permutation(sleepState);
      EraseEntryOf(ActiveList(sleepState), ActiveIter(sleepState), a);
      EraseEntryOf(WaitingList(sleepState), WaitIter(sleepState), a);
      EraseEntryOf(SleepingList(sleepState), SleepIter(sleepState), a);
    }

    /** Takes the action out of the wait table. */
    method RemoveWaits(a: Ref)
      requires Linked() && a in actions && !HasWait(WaitsOf(eventsSleep), a)
      modifies this`actions, this`eventsWait
      ensures Linked() && a in actions && Arrays(actions)[a] == []
      ensures Abs() == old(Abs()).(waitEvents := WithoutAction(old(Abs()).waitEvents, a))
    {
      hide ListsIndexed, EventsLinked;
      IdleArray(eventsWait, eventsSleep, Arrays(actions), nextHandle, a);
      eventsWait := EventRemove(eventsWait, eventsSleep, a);
    }

    /** Takes the action out of the sleep table, where nothing is left to take. */
    method RemoveSleeps(a: Ref)
      requires Linked() && a in actions && Arrays(actions)[a] == []
      modifies this`actions, this`eventsSleep
      ensures Linked() && a in actions && Arrays(actions)[a] == [] && Abs() == old(Abs())
    {
      hide ListsIndexed, EventsLinked;
      IdleArray(eventsWait, eventsSleep, Arrays(actions), nextHandle, a);
      WithoutActionMembers(WaitsOf(eventsSleep), a);
      IdleTables(eventsWait, eventsSleep, Arrays(actions), nextHandle, a);
      EventsLinkedSwap(eventsWait, eventsSleep, Arrays(actions), nextHandle);
      eventsSleep := EventRemove(eventsSleep, eventsWait, a);
      EventsLinkedSwap(eventsSleep, eventsWait, Arrays(actions), nextHandle);
    }

    method Remove(a: Ref)
      requires Linked() && a in actions && !HasWait(WaitsOf(eventsSleep), a)
      modifies this`lists, this`actions, this`eventsWait, this`eventsSleep
      ensures Linked() && Abs() == Withdraw(old(Abs()), a) && a in actions && Arrays(actions)[a] == []
    {
      hide ListsIndexed, EventsLinked;
      RemoveFromLists(a);
      RemoveWaits(a);
      RemoveSleeps(a);
    }

    /** Takes the action out of everything and erases it. */
    method Discard(a: Ref)
      requires Linked() && a in actions && !At(Abs(), a, InSleepEvents)
      requires forall p :: At(Withdraw(Abs(), a), a, p) ==> p == IsRunning
      modifies this`lists, this`actions, this`eventsWait, this`eventsSleep
      ensures Linked()
      ensures var t := Withdraw(old(Abs()), a); Abs() == t.(registered := t.registered - {a})
    {
      hide ListsIndexed, EventsLinked;
      Remove(a);
      NowhereListed(lists, Abs(), sleepState, times, a);
      EraseAction(a);
    }

    /** `m_actions.insert`: nothing happens to an action already there. */
    method Insert(a: Ref)
      requires Linked() && a !in actions
      modifies this`actions
      ensures Linked() && Abs() == old(Abs()).(registered := old(Abs()).registered + {a})
      ensures a in actions
    {
      hide ListsIndexed, EventsLinked;
      ListsFresh(lists, actions, nextHandle, a);
      EventsLinkedFresh(eventsWait, eventsSleep, Arrays(actions), nextHandle, a);
      actions := actions[a := FRESH];
    }

    /** `m_actions.erase` */
    method EraseAction(a: Ref)
      requires Linked() && a in actions && Arrays(actions)[a] == [] && forall slot :: a !in Refs(lists.Get(slot))
      modifies this`actions
      ensures Linked() && Abs() == old(Abs()).(registered := old(Abs()).registered - {a})
    {
      hide ListsIndexed, EventsLinked;
      ListsGone(lists, actions, nextHandle, a);
      EventsLinkedGone(eventsWait, eventsSleep, Arrays(actions), nextHandle, a);
      actions := actions - {a};
    }

    method Allocated(a: Ref)
      requires Valid()
      modifies this
      ensures Valid() && Abs() == Apply(old(Abs()), DoAllocate(a))
    {
      hide ListsIndexed, EventsLinked;
      ApplyLocated(Abs(), DoAllocate(a));
      if a !in actions {
        Insert(a);
      } else {
        assert Abs().registered + {a} == Abs().registered;
      }
    }

    method Call(a: Ref)
      requires Valid()
      modifies this
      ensures Valid() && Abs() == Apply(old(Abs()), DoCall(a))
    {
      hide ListsIndexed, EventsLinked;
      ApplyLocated(Abs(), DoCall(a));
      if a !in actions {
        assert !At(Abs(), a, Active);
        Insert(a);
        ActiveInsert(a);
      }
    }

    method Signal(r: Ref)
      requires Valid()
      modifies this
      ensures Valid() && Abs() == Apply(old(Abs()), DoSignal(r))
    {
      hide ListsIndexed, EventsLinked;
      ApplyLocated(Abs(), DoSignal(r));
      ActiveIsIdle(lists, actions, nextHandle, Abs(), eventsWait, eventsSleep);
      Happen(r);
    }

    /** `stop` and `stopperStopped`; the stopper itself is not part of this model. */
    method Stop(a: Ref)
      requires Valid() && Legal(Abs(), DoStop(a))
      modifies this
      ensures Valid() && Abs() == Apply(old(Abs()), DoStop(a))
    {
      hide ListsIndexed, EventsLinked;
      ApplyLocated(Abs(), DoStop(a));
      if a in actions {
        StopLeaves(Abs(), a);
        ActiveIsIdle(lists, actions, nextHandle, Abs(), eventsWait, eventsSleep);
        Happen(a);
        Discard(a);
        if current == Running(a) {
          current := Nothing;
        }
      }
    }

    method PauseInsert(a: Ref)
      requires Linked() && a in actions && a !in Abs().paused
      modifies this`lists, this`actions, this`nextHandle
      ensures Linked() && Abs() == old(Abs()).(paused := old(Abs()).paused + [a])
    {
      hide ListsIndexed, EventsLinked;
      Permutation(sleepState);
      EventsLinkedLater(eventsWait, eventsSleep, Arrays(actions), nextHandle);
      PushBack(Pausing, Pausing, a);
    }

    method PauseRemove(a: Ref)
      requires Linked() && a in actions
      modifies this`lists, this`actions
      ensures Linked() && actions.Keys == old(actions).Keys &&
          Abs() == old(Abs()).(paused := Without(old(Abs()).paused, a))
    {
      hide ListsIndexed, EventsLinked;
      Permutation(sleepState);
      EraseEntryOf(Pausing, Pausing, a);
    }

    method Pause(a: Ref)
      requires Valid() && Legal(Abs(), DoPause(a))
      modifies this
      ensures Valid() && Abs() == Apply(old(Abs()), DoPause(a))
    {
      hide ListsIndexed, EventsLinked;
      ApplyLocated(Abs(), DoPause(a));
      if a in actions {
        Remove(a);
        PauseInsert(a);
      }
    }

    method Unpause(a: Ref)
      requires Valid() && Legal(Abs(), DoUnpause(a))
      modifies this
      ensures Valid() && Abs() == Apply(old(Abs()), DoUnpause(a))
    {
      hide ListsIndexed, EventsLinked;
      ApplyLocated(Abs(), DoUnpause(a));
      if a in actions {
        assert a in Abs().paused ==> At(Abs(), a, Paused);
        assert !At(Abs(), a, Active);
        PauseRemove(a);
        ActiveInsert(a);
      }
    }

    // ---- a cycle ----

    /** `timeout_remove` for the first timeout. */
    method TimeoutRemove(a: Ref)
      requires Linked() && a in actions && times != [] && lists.timing[0].action == a && DistinctTimed(Abs().timeouts)
      modifies this`lists, this`actions, this`times
      ensures Linked() && actions.Keys == old(actions).Keys && Arrays(actions) == Arrays(old(actions))
      ensures Abs() == old(Abs()).(timeouts := old(Abs()).timeouts[1..])
    {
      hide ListsIndexed, EventsLinked;
      Permutation(sleepState);
      ghost var names := Refs(lists.timing);
      TimedDistinct(times, names);
      WithoutFirst(names);
      EraseEntryOf(TimingOut, TimingOut, a);
      assert TimedOf(times[1..], names[1..]) == TimedOf(times, names)[1..];
      times := times[1..];
    }

    /** `active_remove` for the front of the active list. */
    method ActiveRemove(a: Ref)
      requires Linked() && a in actions && Abs().active != [] && Abs().active[0] == a && NoDuplicates(Abs().active)
      modifies this`lists, this`actions
      ensures Linked() && actions.Keys == old(actions).Keys
      ensures Abs() == old(Abs()).(active := old(Abs()).active[1..])
    {
      hide ListsIndexed, EventsLinked;
      Permutation(sleepState);
      WithoutFirst(Abs().active);
      EraseEntryOf(ActiveList(sleepState), ActiveIter(sleepState), a);
    }

    method ActiveInsert(a: Ref)
      requires Linked() && a in actions && a !in Abs().active
      modifies this`lists, this`actions, this`nextHandle
      ensures Linked() && Abs() == old(Abs()).(active := old(Abs()).active + [a])
    {
      hide ListsIndexed, EventsLinked;
      Permutation(sleepState);
      EventsLinkedLater(eventsWait, eventsSleep, Arrays(actions), nextHandle);
      PushBack(ActiveList(sleepState), ActiveIter(sleepState), a);
    }

    method TimeOut()
      requires Valid() && Abs().timeouts != []
      modifies this
      ensures Valid() && Abs() == Apply(old(Abs()), DoTimeOut)
    {
      hide ListsIndexed, EventsLinked;
      ghost var s := Abs();
      ApplyLocated(s, DoTimeOut);
      var a := lists.timing[0].action;
      assert s.timeouts[0].action == a && At(s, a, InTimeouts) && !At(s, a, Active);
      TimeoutRemove(a);
      ActiveInsert(a);
    }

    method BeginCycle()
      requires Valid() && current.Nothing?
      modifies this`sleepState
      ensures Valid() && Abs() == Apply(old(Abs()), DoBeginCycle)
    {
      ApplyLocated(Abs(), DoBeginCycle);
      Permutation(sleepState);
      if lists.Get(ActiveList(sleepState)) == [] && lists.Get(WaitingList(sleepState)) == [] {
        sleepState := SwapActiveSleep(sleepState);
      }
    }

    method Bring()
      requires Linked()
      modifies this`sleepState
      ensures Linked() && Abs() == Front(old(Abs()))
    {
      Permutation(sleepState);
      if lists.Get(ActiveList(sleepState)) == [] {
        sleepState := SwapActiveWait(sleepState);
      }
    }

    method FirstActive() returns (a: Ref)
      requires Linked() && Abs().active != []
      ensures a == Abs().active[0]
    {
      ForgetSet(lists, ActiveList(sleepState), []);
      a := lists.Get(ActiveList(sleepState))[0].action;
    }

    /** The head of the main loop: the first active action becomes the current one. */
    method Resume()
      requires Valid() && Legal(Abs(), DoResume)
      modifies this
      ensures Valid() && Abs() == Apply(old(Abs()), DoResume)
    {
      hide ListsIndexed, EventsLinked;
      ghost var s := Abs();
      ApplyLocated(s, DoResume);
      FrontLocated(s);
      Bring();
      var a := FirstActive();
      assert At(Front(s), a, Active);
      ActiveRemove(a);
      current := Running(a);
    }

    method WaitInsert(a: Ref)
      requires Linked() && a in actions && a !in Abs().waiting
      modifies this`lists, this`actions, this`nextHandle
      ensures Linked() && Abs() == old(Abs()).(waiting := old(Abs()).waiting + [a])
    {
      hide ListsIndexed, EventsLinked;
      Permutation(sleepState);
      EventsLinkedLater(eventsWait, eventsSleep, Arrays(actions), nextHandle);
      PushBack(WaitingList(sleepState), WaitIter(sleepState), a);
    }

    method SleepInsert(a: Ref)
      requires Linked() && a in actions && a !in Abs().sleeping
      modifies this`lists, this`actions, this`nextHandle
      ensures Linked() && Abs() == old(Abs()).(sleeping := old(Abs()).sleeping + [a])
    {
      hide ListsIndexed, EventsLinked;
      Permutation(sleepState);
      EventsLinkedLater(eventsWait, eventsSleep, Arrays(actions), nextHandle);
      PushBack(SleepingList(sleepState), SleepIter(sleepState), a);
    }

    /** `m_timeouts.insert`: behind the timeouts that are not later. */
    method TimeoutInsert(a: Ref, time: int)
      requires Linked() && a in actions && a !in Refs(lists.timing)
      modifies this`lists, this`actions, this`times, this`nextHandle
      ensures Linked() && Abs() == old(Abs()).(timeouts := InsertTimed(old(Abs()).timeouts, Timed(time, a)))
    {
      hide ListsIndexed, EventsLinked, InsertTimed, Arrays;
      var k := UpperBound(times, time);
      InsertTimedAt(times, Refs(lists.timing), k, time, a);
      ListsInsertAt(lists, actions, nextHandle, k, a);
      EventsLinkedLater(eventsWait, eventsSleep, Arrays(actions), nextHandle);
      times := times[..k] + [time] + times[k..];
      lists := lists.Set(TimingOut, lists.timing[..k] + [Node(nextHandle, a)] + lists.timing[k..]);
      actions := actions[a := SetIter(actions[a], TimingOut, Entry(nextHandle))];
      nextHandle := nextHandle + 1;
    }

    method EventInsert(q: seq<EventNode>, ghost other: seq<EventNode>, a: Ref, event: Ref)
      returns (more: seq<EventNode>)
      requires Inserting(lists, actions, nextHandle, q, other, a)
      modifies this`actions, this`nextHandle
      ensures actions.Keys == old(actions).Keys && Inserting(lists, actions, nextHandle, more, other, a)
      ensures WaitsOf(more) == WaitsOf(q) + [Wait(a, event)]
    {
      hide ListsIndexed, EventsLinked;
      EventsInserted(q, other, Arrays(actions), nextHandle, a, event);
      ListsSetArray(lists, actions, nextHandle, a, actions[a].iterEvents + [nextHandle], actions[a].events);
      more := q + [EventNode(nextHandle, event, a)];
      actions := actions[a := actions[a].(iterEvents := actions[a].iterEvents + [nextHandle])];
      ListsLater(lists, actions, nextHandle);
      nextHandle := nextHandle + 1;
    }

    /** `event_insert` for every event of a wait. */
    method EventsInsert(q: seq<EventNode>, ghost other: seq<EventNode>, a: Ref, events: seq<Ref>)
      returns (all: seq<EventNode>)
      requires Inserting(lists, actions, nextHandle, q, other, a)
      modifies this`actions, this`nextHandle
      ensures actions.Keys == old(actions).Keys && Inserting(lists, actions, nextHandle, all, other, a)
      ensures WaitsOf(all) == WaitsOf(q) + Waits(a, events)
    {
      hide ListsIndexed, EventsLinked;
      var i := 0;
      all := q;
      WaitsStart(q, a, events);
      while i != |events|
        invariant i <= |events| && actions.Keys == old(actions).Keys &&
            Inserting(lists, actions, nextHandle, all, other, a)
        invariant WaitsOf(all) == WaitsOf(q) + Waits(a, events[..i])
      {
        WaitsNext(q, a, events, i);
        all := EventInsert(all, other, a, events[i]);
        i := i + 1;
      }
      assert events[..i] == events;
    }

    method WaitForAll(a: Ref, events: seq<Ref>)
      requires Linked() && a in actions && !HasWait(WaitsOf(eventsSleep), a)
      modifies this`actions, this`eventsWait, this`nextHandle
      ensures Linked() && Abs() == old(Abs()).(waitEvents := old(Abs()).waitEvents + Waits(a, events))
    {
      hide ListsIndexed, EventsLinked;
      IdleArray(eventsWait, eventsSleep, Arrays(actions), nextHandle, a);
      eventsWait := EventsInsert(eventsWait, eventsSleep, a, events);
    }

    method SleepForAll(a: Ref, events: seq<Ref>)
      requires Linked() && a in actions && !HasWait(WaitsOf(eventsWait), a)
      modifies this`actions, this`eventsSleep, this`nextHandle
      ensures Linked() && Abs() == old(Abs()).(sleepEvents := old(Abs()).sleepEvents + Waits(a, events))
    {
      hide ListsIndexed, EventsLinked;
      EventsLinkedSwap(eventsWait, eventsSleep, Arrays(actions), nextHandle);
      IdleArray(eventsSleep, eventsWait, Arrays(actions), nextHandle, a);
      eventsSleep := EventsInsert(eventsSleep, eventsWait, a, events);
      EventsLinkedSwap(eventsSleep, eventsWait, Arrays(actions), nextHandle);
    }

    /** The current action has terminated: it is erased first, then its end is an event. */
    method Terminated(a: Ref)
      requires Valid() && current == Running(a)
      modifies this
      ensures Linked() && Abs() ==
          SchedulerSpec.Signal(old(Abs()).(registered := old(Abs()).registered - {a}, current := Nothing), a)
    {
      hide ListsIndexed, EventsLinked;
      ghost var s := Abs();
      Leave(s, a);
      IdleArray(eventsWait, eventsSleep, Arrays(actions), nextHandle, a);
      NowhereListed(lists, s, sleepState, times, a);
      EraseAction(a);
      current := Nothing;
      ActiveIsIdle(lists, actions, nextHandle, Abs(), eventsWait, eventsSleep);
      Happen(a);
    }

    /** The tail of the main loop: what becomes of the current action. */
    method Yield(reason: Reason)
      requires Valid() && Legal(Abs(), DoYield(reason))
      modifies this
      ensures Valid() && Abs() == Apply(old(Abs()), DoYield(reason))
    {
      hide ListsIndexed, EventsLinked;
      ApplyLocated(Abs(), DoYield(reason));
      if current.Running? {
        var a := current.action;
        Leave(Abs(), a);
        NowhereListed(lists, Abs(), sleepState, times, a);
        match reason {
          case YieldWait => assert !At(Abs(), a, Waiting); WaitInsert(a);
          case YieldWaitAll(events) => WaitForAll(a, events);
          case YieldSleep => assert !At(Abs(), a, Sleeping); SleepInsert(a);
          case YieldSleepAll(events) => SleepForAll(a, events);
          case YieldTimeout(time) => assert a !in Refs(lists.Get(TimingOut)); TimeoutInsert(a, time);
          case YieldTerminated => Terminated(a);
        }
        current := Nothing;
      }
    }

    /** One call on the scheduler, or one step of a cycle. */
    method Do(c: Command)
      requires Valid() && Legal(Abs(), c)
      modifies this
      ensures Valid() && Abs() == Apply(old(Abs()), c)
    {
      match c {
        case DoAllocate(a) => Allocated(a);
        case DoCall(a) => Call(a);
        case DoSignal(r) => Signal(r);
        case DoStop(a) => Stop(a);
        case DoPause(a) => Pause(a);
        case DoUnpause(a) => Unpause(a);
        case DoTimeOut => TimeOut();
        case DoBeginCycle => BeginCycle();
        case DoResume => Resume();
        case DoYield(reason) => Yield(reason);
      }
    }

    /** Over whole runs, the permuted lists behave as three named lists whose swaps exchange contents. */
    method Execute(cs: seq<Command>)
      requires Valid() && LegalRun(Abs(), cs)
      modifies this
      ensures Valid() && Abs() == Run(old(Abs()), cs)
    {
      hide ListsIndexed, EventsLinked;
      ghost var s := Abs();
      var i := 0;
      while i != |cs|
        invariant i <= |cs| && LegalRun(s, cs[..i]) && Valid() && Abs() == Run(s, cs[..i])
      {
        PrefixLegal(s, cs, i + 1);
        assert cs[..i + 1][..i] == cs[..i];
        Do(cs[i]);
        i := i + 1;
      }
      assert cs[..i] == cs;
    }

    /** The timeouts due; `now(n)` is what the clock says when it is read for the `n`-th time. */
    method FireTimeouts(now: nat -> int)
      requires Valid()
      modifies this
      ensures Valid() && Abs() == TimeOuts(old(Abs()), now, 0)
    {
      var n: nat := 0;
      while times != [] && times[0] <= now(n)
        invariant Valid() && TimeOuts(Abs(), now, n) == TimeOuts(old(Abs()), now, 0)
        decreases |times|
      {
        assert Abs().timeouts[0].time == times[0];
        TimeOut();
        assert |times| == |Abs().timeouts|;
        n := n + 1;
      }
      assert times != [] ==> Abs().timeouts[0].time == times[0];
    }

    /** The loop that ends a cycle: actions whose event never came are stopped. */
    method EndCycle()
      requires Valid()
      modifies this
      ensures Valid() && Abs() == CleanUp(old(Abs()))
    {
      while eventsWait != []
        invariant Valid() && CleanUp(Abs()) == CleanUp(old(Abs()))
        decreases |eventsWait|
      {
        ghost var s := Abs();
        var i := FirstEvent(eventsWait);
        BeginIs(s.waitEvents, i);
        CleanUpLegal(s);
        CleanUpShorter(s.waitEvents, s.waitEvents[i].action);
        Stop(eventsWait[i].action);
        assert |eventsWait| == |Abs().waitEvents|;
      }
    }

    method Empty() returns (b: bool)
      requires Linked()
      ensures b == Quiet(Abs())
    {
      b := lists.Get(ActiveList(sleepState)) == [] && lists.Get(WaitingList(sleepState)) == [];
    }

    /** The main loop, in which the resumed coroutines do what `turns` says. */
    method TakeTurns(turns: seq<Turn>) returns (over: bool)
      requires Valid() && LegalTurns(Abs(), turns)
      modifies this
      ensures Valid() && Abs() == RunTurns(old(Abs()), turns) && over == Quiet(Abs())
    {
      ghost var s := Abs();
      var i := 0;
      over := Empty();
      assert turns[0..] == turns;
      while i != |turns| && !over
        invariant i <= |turns| && Valid() && LegalTurns(Abs(), turns[i..]) &&
            RunTurns(Abs(), turns[i..]) == RunTurns(s, turns)
        invariant over == Quiet(Abs())
        decreases |turns| - i
      {
        Execute(TurnCommands(turns[i]));
        over := Empty();
        i := i + 1;
      }
    }

    /** One cycle; it is over when nothing is active and nothing waits. */
    method Cycle(now: nat -> int, turns: seq<Turn>) returns (over: bool)
      requires Valid() && current.Nothing? && LegalTurns(BeginCycleAt(Abs(), now), turns)
      modifies this
      ensures Valid() && Located(RunTurns(BeginCycleAt(old(Abs()), now), turns))
      ensures var t := RunTurns(BeginCycleAt(old(Abs()), now), turns);
        over == Quiet(t) && Abs() == if over then CleanUp(t) else t
    {
      ghost var s := Abs();
      TimeOutsKeep(s, now, 0);
      FireTimeouts(now);
      BeginCycle();
      assert Abs() == BeginCycleAt(s, now);
      over := TakeTurns(turns);
      ghost var t := Abs();
      assert Located(t) && t == RunTurns(BeginCycleAt(s, now), turns);
      if over {
        EndCycle();
      }
    }

    /** `on_event` for one table: runs over the entries of the event in order. */
    method OnEvent(q: seq<EventNode>, ghost other: seq<EventNode>, r: Ref) returns (rest: seq<EventNode>)
      requires InEvent(lists, actions, nextHandle, sleepState, q, other)
      modifies this`lists, this`actions, this`nextHandle
      ensures InEvent(lists, actions, nextHandle, sleepState, rest, other)
      ensures actions.Keys == old(actions).Keys && WaitsOf(rest) == WithoutEvent(WaitsOf(q), r)
      ensures Forget(lists) == old(Forget(lists)).Append(ActiveList(sleepState), Fired(WaitsOf(q), r, |q|))
    {
      hide InEvent, Live, Fired, FiredAt, WithoutEvent;
      var i := 0;
      FiredStart(q, r);
      LiveEnds(q, r);
      AppendTwice(Forget(lists), ActiveList(sleepState), [], []);
      while i != |q|
        invariant i <= |q| && InEvent(lists, actions, nextHandle, sleepState, Live(q, r, i), other)
        invariant actions.Keys == old(actions).Keys
        invariant Forget(lists) == old(Forget(lists)).Append(ActiveList(sleepState), Fired(WaitsOf(q), r, i))
      {
        OnEntry(q, other, r, i);
        AppendFired(old(Forget(lists)), ActiveList(sleepState), q, r, i);
        i := i + 1;
      }
      rest := DropEvent(q, r);
    }

    method OnEntry(q: seq<EventNode>, ghost other: seq<EventNode>, r: Ref, i: nat)
      requires i < |q| && InEvent(lists, actions, nextHandle, sleepState, Live(q, r, i), other)
      modifies this`lists, this`actions, this`nextHandle
      ensures InEvent(lists, actions, nextHandle, sleepState, Live(q, r, i + 1), other)
      ensures actions.Keys == old(actions).Keys
      ensures Forget(lists) == old(Forget(lists)).Append(ActiveList(sleepState), FiredAt(q, r, i))
    {
      hide ListsIndexed, EventsLinked;
      LiveStep(q, r, i);
      if q[i].event == r {
        ghost var d, e := DropEvent(q[..i], r), q[i + 1..];
        assert d + [] == d;
        FiresByHandles(q, r, i);
        FireEntry(d, q[i], e, other);
      } else {
        AppendTwice(Forget(lists), ActiveList(sleepState), [], []);
      }
    }

    /** The handle of an entry leaves the action's array, and the event is recorded. */
    method TakeHandle(ghost d: seq<EventNode>, n: EventNode, ghost e: seq<EventNode>, ghost other: seq<EventNode>)
      returns (last: bool)
      requires InEvent(lists, actions, nextHandle, sleepState, d + [n] + e, other)
      modifies this`actions
      ensures InEvent(lists, actions, nextHandle, sleepState, d + e, other)
      ensures actions.Keys == old(actions).Keys && n.action in actions &&
          n.action !in Forget(lists).Get(ActiveList(sleepState))
      ensures last <==> Handles(d, n.action) == [] && Handles(e, n.action) == []
      ensures n.action in Arrays(actions) && (last <==> Arrays(actions)[n.action] == [])
    {
      hide ListsIndexed, EventsLinked, ActiveIdle;
      var a := n.action;
      ghost var arrays := Arrays(actions);
      ArrayHolds(d, n, e, other, arrays, nextHandle);
      var held := actions[a].iterEvents;
      assert arrays[a] == held != [];
      var k := FindHandle(held, n.handle);
      EventStep(d, n, e, other, arrays, nextHandle, k);
      var left := held[..k] + held[k + 1..];
      ListsSetArray(lists, actions, nextHandle, a, left, actions[a].events + [n.event]);
      IdleKept(Forget(lists).Get(ActiveList(sleepState)), arrays, a, left);
      actions := actions[a := actions[a].(iterEvents := left, events := actions[a].events + [n.event])];
      last := left == [];
    }

    /** One entry of the event; an action left without handles becomes active. */
    method FireEntry(ghost d: seq<EventNode>, n: EventNode, ghost e: seq<EventNode>, ghost other: seq<EventNode>)
      requires InEvent(lists, actions, nextHandle, sleepState, d + [n] + e, other)
      modifies this`lists, this`actions, this`nextHandle
      ensures InEvent(lists, actions, nextHandle, sleepState, d + e, other)
      ensures actions.Keys == old(actions).Keys
      ensures Forget(lists) == old(Forget(lists)).Append(ActiveList(sleepState),
        if Handles(d, n.action) == [] && Handles(e, n.action) == [] then [n.action] else [])
    {
      hide ListsIndexed, EventsLinked, ActiveIdle, Handles, Arrays;
      var last := TakeHandle(d, n, e, other);
      AppendTwice(Forget(lists), ActiveList(sleepState), [], []);
      if last {
        Permutation(sleepState);
        IdleAdded(Forget(lists).Get(ActiveList(sleepState)), Arrays(actions), n.action);
        EventsLinkedLater(d + e, other, Arrays(actions), nextHandle);
        PushBack(ActiveList(sleepState), ActiveIter(sleepState), n.action);
      }
    }
  }

  lemma IdleKept(active: seq<Ref>, arrays: map<Ref, seq<nat>>, a: Ref, left: seq<nat>)
    requires ActiveIdle(active, arrays) && a in arrays && arrays[a] != []
    ensures ActiveIdle(active, arrays[a := left]) && a !in active
  {
  }

  lemma IdleAdded(active: seq<Ref>, arrays: map<Ref, seq<nat>>, a: Ref)
    requires ActiveIdle(active, arrays) && a in arrays && arrays[a] == []
    ensures ActiveIdle(active + [a], arrays)
  {
  }

  /** What holds between the entries of a wait that is being made. */
  ghost predicate Inserting(lists: Lists, actions: Actions, next: nat, q: seq<EventNode>, other: seq<EventNode>,
          a: Ref) {
    a in actions && ListsIndexed(lists, actions, next) && EventsLinked(q, other, Arrays(actions), next) &&
      Handles(other, a) == []
  }

  lemma WaitsStart(q: seq<EventNode>, a: Ref, events: seq<Ref>)
    ensures WaitsOf(q) == WaitsOf(q) + Waits(a, events[..0])
  {
  }

  lemma WaitsNext(q: seq<EventNode>, a: Ref, events: seq<Ref>, i: nat)
    requires i < |events|
    ensures WaitsOf(q) + Waits(a, events[..i + 1]) == WaitsOf(q) + Waits(a, events[..i]) + [Wait(a, events[i])]
  {
  }

  /** The action the `i`-th entry makes active, if any. */
  function FiredAt(q: seq<EventNode>, r: Ref, i: nat): seq<Ref>
    requires i < |q|
  {
    if Fires(WaitsOf(q), r, i) then [q[i].action] else []
  }

  lemma FiredStart(q: seq<EventNode>, r: Ref)
    ensures Fired(WaitsOf(q), r, 0) == []
  {
  }

  lemma AppendFired(names: RefLists, slot: Slot, q: seq<EventNode>, r: Ref, i: nat)
    requires i < |q|
    ensures names.Append(slot, Fired(WaitsOf(q), r, i)).Append(slot, FiredAt(q, r, i)) ==
        names.Append(slot, Fired(WaitsOf(q), r, i + 1))
  {
    AppendTwice(names, slot, Fired(WaitsOf(q), r, i), FiredAt(q, r, i));
  }

  /** What holds between the entries of an event: iterators and the tables are in step, and no
      active action waits for anything. */
  ghost predicate InEvent(lists: Lists, actions: Actions, next: nat, state: SleepSwapState, q: seq<EventNode>,
          other: seq<EventNode>) {
    ListsIndexed(lists, actions, next) && EventsLinked(q, other, Arrays(actions), next) &&
    ActiveIdle(Forget(lists).Get(ActiveList(state)), Arrays(actions))
  }

  method EraseHandles(q: seq<EventNode>, held: seq<nat>) returns (rest: seq<EventNode>, ghost gone: set<nat>)
    ensures rest == DropHandles(q, gone) && forall h :: h in gone <==> h in held
  {
    var i := 0;
    rest, gone := q, {};
    DropNothing(q);
    while i != |held|
      invariant i <= |held| && rest == DropHandles(q, gone) && forall h :: h in gone <==> h in held[..i]
    {
      DropHandlesTwice(q, gone, held[i]);
      assert held[..i + 1] == held[..i] + [held[i]];
      rest := DropHandles(rest, {held[i]});
      gone := gone + {held[i]};
      i := i + 1;
    }
    assert held[..i] == held;
  }

  method UpperBound(times: seq<int>, time: int) returns (k: nat)
    ensures k <= |times| && (k > 0 ==> times[k - 1] <= time) && forall j :: k <= j < |times| ==> times[j] > time
  {
    k := |times|;
    while k > 0 && times[k - 1] > time
      invariant k <= |times| && forall j :: k <= j < |times| ==> times[j] > time
    {
      k := k - 1;
    }
  }

  /** `m_events_by_ref_wait.begin()` */
  method FirstEvent(q: seq<EventNode>) returns (k: nat)
    requires q != []
    ensures k < |q| && IsBegin(WaitsOf(q), k)
  {
    k := 0;
    var i := 1;
    while i != |q|
      invariant k < i <= |q|
      invariant forall j :: 0 <= j < i ==> q[k].event < q[j].event || (q[k].event == q[j].event && k <= j)
    {
      if q[i].event < q[k].event { k := i; }
      i := i + 1;
    }
  }

  method FindHandle(held: seq<nat>, h: nat) returns (k: nat)
    requires h in held
    ensures k < |held| && held[k] == h && forall j :: 0 <= j < k ==> held[j] != h
  {
    k := 0;
    while held[k] != h
      invariant k < |held| && h in held[k..] && forall j :: 0 <= j < k ==> held[j] != h
      decreases |held| - k
    {
      assert held[k..] == [held[k]] + held[k + 1..];
      k := k + 1;
    }
  }
}
