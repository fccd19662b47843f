/** Linked lists whose entries are denoted by stored iterators, and the event tables. */
module SchedulerLists {
  import opened SchedulerSpec
  import opened Sequences

  /** An entry of a list; `handle` stands for the address of the list node. */
  datatype Node = Node(handle: nat, action: Ref)

  datatype Iterator = End | Entry(handle: nat)

  /** An entry of an event multimap. */
  datatype EventNode = EventNode(handle: nat, event: Ref, action: Ref)

  function Refs(list: seq<Node>): (r: seq<Ref>)
    ensures |r| == |list|
  {
    seq(|list|, i requires 0 <= i < |list| => list[i].action)
  }

  function WaitsOf(q: seq<EventNode>): (r: seq<Wait>)
    ensures |r| == |q|
  {
    seq(|q|, i requires 0 <= i < |q| => Wait(q[i].action, q[i].event))
  }

  /** `list.erase( iterator )` */
  function Erase(list: seq<Node>, h: nat): seq<Node> {
    if list == [] then []
    else Erase(list[..|list| - 1], h) + if list[|list| - 1].handle == h then [] else [list[|list| - 1]]
  }

  /** The iterator that denotes the entry of `a`, or end. */
  function Find(list: seq<Node>, a: Ref): Iterator {
    if list == [] then End
    else if list[|list| - 1].action == a then Entry(list[|list| - 1].handle)
    else Find(list[..|list| - 1], a)
  }

  /** Every action stores exactly the iterator of its own entry, and there is one entry per action. */
  ghost predicate Indexed(list: seq<Node>, its: map<Ref, Iterator>, next: nat) {
    (forall a :: a in its ==> its[a] == Find(list, a)) &&
    (forall i :: 0 <= i < |list| ==> list[i].action in its && list[i].handle < next) &&
    OnePerAction(list)
  }

  lemma {:induction false} FindEntry(list: seq<Node>, a: Ref)
    ensures Find(list, a) == End <==> a !in Refs(list)
    ensures Find(list, a).Entry? ==> Node(Find(list, a).handle, a) in list
  {
    if list != [] {
      var t, n := list[..|list| - 1], list[|list| - 1];
      FindEntry(t, a);
      assert list == t + [n] && Refs(list) == Refs(t) + [n.action];
    }
  }

  lemma IndexedInsert(list: seq<Node>, its: map<Ref, Iterator>, next: nat, a: Ref)
    requires Indexed(list, its, next) && a in its && a !in Refs(list)
    ensures Indexed(list + [Node(next, a)], its[a := Entry(next)], next + 1)
    ensures Refs(list + [Node(next, a)]) == Refs(list) + [a]
  {
    var l := list + [Node(next, a)];
    assert l[..|list|] == list;
    forall i | 0 <= i < |list| ensures list[i].action != a {
      assert Refs(list)[i] == list[i].action;
    }
  }

  lemma {:induction false} EraseEntry(list: seq<Node>, h: nat, a: Ref)
    requires forall i :: 0 <= i < |list| ==> (list[i].handle == h <==> list[i].action == a)
    ensures Refs(Erase(list, h)) == Without(Refs(list), a)
    ensures forall b :: Find(Erase(list, h), b) == if b == a then End else Find(list, b)
  {
    if list != [] {
      var t, n := list[..|list| - 1], list[|list| - 1];
      EraseEntry(t, h, a);
      assert Refs(list)[..|t|] == Refs(t);
      var e := Erase(t, h);
      assert (e + [n])[..|e|] == e && Refs(e + [n]) == Refs(e) + [n.action];
      assert e + [] == e && Refs(e) + [] == Refs(e);
    }
  }

  ghost predicate OnePerAction(list: seq<Node>) {
    forall i, j :: 0 <= i < j < |list| ==> list[i].handle != list[j].handle && list[i].action != list[j].action
  }

  lemma {:induction false} EraseMembers(list: seq<Node>, h: nat)
    ensures forall n :: n in Erase(list, h) ==> n in list
    ensures OnePerAction(list) ==> OnePerAction(Erase(list, h))
  {
    if list != [] {
      var t, n := list[..|list| - 1], list[|list| - 1];
      EraseMembers(t, h);
      assert list == t + [n];
      var e := Erase(t, h);
      if OnePerAction(list) {
        forall i | 0 <= i < |e| ensures e[i].handle != n.handle && e[i].action != n.action {
          assert e[i] in t;
          var k :| 0 <= k < |t| && t[k] == e[i];
          assert list[k] == t[k] && list[|t|] == n;
        }
      }
    }
  }

  lemma IndexedErase(list: seq<Node>, its: map<Ref, Iterator>, next: nat, a: Ref)
    requires Indexed(list, its, next) && a in its && its[a].Entry?
    ensures Indexed(Erase(list, its[a].handle), its[a := End], next)
    ensures Refs(Erase(list, its[a].handle)) == Without(Refs(list), a)
  {
    var h := its[a].handle;
    FindEntry(list, a);
    var k :| 0 <= k < |list| && list[k] == Node(h, a);
    EraseEntry(list, h, a);
    EraseMembers(list, h);
    forall i | 0 <= i < |Erase(list, h)| ensures Erase(list, h)[i] in list {
    }
  }

  // ---- event tables ----

  /** The handles of the entries of `a`, in order. */
  function Handles(q: seq<EventNode>, a: Ref): seq<nat> {
    if q == [] then []
    else Handles(q[..|q| - 1], a) + if q[|q| - 1].action == a then [q[|q| - 1].handle] else []
  }

  /** The table without the entries of an event. */
  function DropEvent(q: seq<EventNode>, r: Ref): seq<EventNode> {
    if q == [] then []
    else DropEvent(q[..|q| - 1], r) + if q[|q| - 1].event == r then [] else [q[|q| - 1]]
  }

  /** The table without the entries whose handles are in `hs`. */
  function DropHandles(q: seq<EventNode>, hs: set<nat>): seq<EventNode> {
    if q == [] then []
    else DropHandles(q[..|q| - 1], hs) + if q[|q| - 1].handle in hs then [] else [q[|q| - 1]]
  }

  ghost predicate DistinctEvents(q: seq<EventNode>) {
    forall i, j :: 0 <= i < j < |q| ==> q[i].handle != q[j].handle
  }

  ghost predicate Tabled(q: seq<EventNode>, arrays: map<Ref, seq<nat>>, next: nat) {
    (forall i :: 0 <= i < |q| ==> q[i].action in arrays && q[i].handle < next) &&
    DistinctEvents(q)
  }

  /** Every action stores exactly the handles of its own entries, all of them in one table. */
  ghost predicate EventsLinked(q: seq<EventNode>, other: seq<EventNode>, arrays: map<Ref, seq<nat>>, next: nat) {
    Tabled(q, arrays, next) && Tabled(other, arrays, next) &&
    forall a :: a in arrays ==>
      arrays[a] == Handles(q, a) + Handles(other, a) && (Handles(q, a) == [] || Handles(other, a) == [])
  }

  lemma EventsLinkedSwap(q: seq<EventNode>, other: seq<EventNode>, arrays: map<Ref, seq<nat>>, next: nat)
    requires EventsLinked(q, other, arrays, next)
    ensures EventsLinked(other, q, arrays, next)
  {
    forall a | a in arrays ensures Handles(q, a) + Handles(other, a) == Handles(other, a) + Handles(q, a) {
    }
  }

  lemma {:induction false} HandlesSplit(p: seq<EventNode>, q: seq<EventNode>, a: Ref)
    ensures Handles(p + q, a) == Handles(p, a) + Handles(q, a)
  {
    if q == [] {
      assert p + q == p;
    } else {
      var n := |q| - 1;
      assert (p + q)[..|p| + n] == p + q[..n];
      HandlesSplit(p, q[..n], a);
    }
  }

  predicate HasHandle(q: seq<EventNode>, a: Ref, h: nat) {
    exists i :: 0 <= i < |q| && q[i].handle == h && q[i].action == a
  }

  lemma HasHandleSnoc(t: seq<EventNode>, n: EventNode, a: Ref, h: nat)
    ensures HasHandle(t + [n], a, h) <==> HasHandle(t, a, h) || (n.handle == h && n.action == a)
  {
    var q := t + [n];
    assert q[|t|] == n;
    if i :| 0 <= i < |t| && t[i].handle == h && t[i].action == a { assert q[i] == t[i]; }
  }

  lemma {:induction false} HandlesIn(q: seq<EventNode>, a: Ref)
    ensures forall h :: h in Handles(q, a) <==> HasHandle(q, a, h)
  {
    if q != [] {
      var t, n := q[..|q| - 1], q[|q| - 1];
      HandlesIn(t, a);
      assert q == t + [n];
      forall h ensures h in Handles(q, a) <==> HasHandle(q, a, h) { HasHandleSnoc(t, n, a, h); }
    }
  }

  lemma {:induction false} HandlesNone(q: seq<EventNode>, a: Ref)
    ensures Handles(q, a) == [] <==> !HasWait(WaitsOf(q), a)
  {
    if q != [] {
      var t, n := q[..|q| - 1], q[|q| - 1];
      HandlesNone(t, a);
      assert q == t + [n] && WaitsOf(q) == WaitsOf(t) + [Wait(n.action, n.event)];
      HasWaitSnoc(WaitsOf(t), Wait(n.action, n.event));
    }
  }

  lemma {:induction false} HandlesDistinct(q: seq<EventNode>, a: Ref)
    requires DistinctEvents(q)
    ensures NoDuplicates(Handles(q, a))
  {
    if q != [] {
      var t, n := q[..|q| - 1], q[|q| - 1];
      assert DistinctEvents(t);
      HandlesDistinct(t, a);
      HandlesIn(t, a);
      if n.action == a {
        assert !HasHandle(t, a, n.handle) by {
          assert forall i :: 0 <= i < |t| ==> t[i].handle == q[i].handle != n.handle;
        }
        NoDuplicatesSnoc(Handles(t, a), n.handle);
      }
    }
  }

  lemma HandlesMembers(q: seq<EventNode>, a: Ref)
    ensures Handles(q, a) == [] <==> !HasWait(WaitsOf(q), a)
    ensures forall h :: h in Handles(q, a) <==> HasHandle(q, a, h)
    ensures DistinctEvents(q) ==> NoDuplicates(Handles(q, a))
  {
    HandlesNone(q, a);
    HandlesIn(q, a);
    if DistinctEvents(q) { HandlesDistinct(q, a); }
  }

  lemma {:induction false} DropEventWaits(q: seq<EventNode>, r: Ref)
    ensures WaitsOf(DropEvent(q, r)) == WithoutEvent(WaitsOf(q), r)
    ensures forall n :: n in DropEvent(q, r) <==> n in q && n.event != r
  {
    if q != [] {
      var t, n := q[..|q| - 1], q[|q| - 1];
      DropEventWaits(t, r);
      assert q == t + [n] && WaitsOf(q)[..|t|] == WaitsOf(t);
      assert WaitsOf(DropEvent(t, r) + [n]) == WaitsOf(DropEvent(t, r)) + [Wait(n.action, n.event)];
    }
  }

  /** Dropping the handles of `a` drops the entries of `a`. */
  lemma {:induction false} DropHandlesWaits(q: seq<EventNode>, hs: set<nat>, a: Ref)
    requires forall i :: 0 <= i < |q| ==> (q[i].handle in hs <==> q[i].action == a)
    ensures WaitsOf(DropHandles(q, hs)) == WithoutAction(WaitsOf(q), a)
    ensures forall b :: Handles(DropHandles(q, hs), b) == if b == a then [] else Handles(q, b)
  {
    if q != [] {
      var t, n := q[..|q| - 1], q[|q| - 1];
      DropHandlesWaits(t, hs, a);
      assert WaitsOf(q)[..|t|] == WaitsOf(t);
      var d := DropHandles(t, hs);
      assert WaitsOf(d + [n]) == WaitsOf(d) + [Wait(n.action, n.event)];
      assert (d + [n])[..|d|] == d;
      forall b ensures Handles(d + [n], b) == Handles(d, b) + if n.action == b then [n.handle] else [] {
      }
      assert d + [] == d && WaitsOf(d) + [] == WaitsOf(d);
    }
  }

  lemma {:induction false} DropHandlesTabled(q: seq<EventNode>, hs: set<nat>)
    ensures forall n :: n in DropHandles(q, hs) <==> n in q && n.handle !in hs
    ensures DistinctEvents(q) ==> DistinctEvents(DropHandles(q, hs))
  {
    if q != [] {
      var t, n := q[..|q| - 1], q[|q| - 1];
      DropHandlesTabled(t, hs);
      assert q == t + [n];
      var e := DropHandles(t, hs);
      if DistinctEvents(q) {
        forall i | 0 <= i < |e| ensures e[i].handle != n.handle {
          assert e[i] in t;
          var k :| 0 <= k < |t| && t[k] == e[i];
          assert q[k] == t[k] && q[|t|] == n;
        }
      }
    }
  }

  lemma {:induction false} DropNothing(q: seq<EventNode>)
    ensures DropHandles(q, {}) == q
  {
    if q != [] {
      DropNothing(q[..|q| - 1]);
      assert q == q[..|q| - 1] + [q[|q| - 1]];
    }
  }

  lemma {:induction false} DropHandlesTwice(q: seq<EventNode>, hs: set<nat>, h: nat)
    ensures DropHandles(DropHandles(q, hs), {h}) == DropHandles(q, hs + {h})
  {
    if q != [] {
      var t, n := q[..|q| - 1], q[|q| - 1];
      DropHandlesTwice(t, hs, h);
      if n.handle in hs {
        assert DropHandles(q, hs) == DropHandles(t, hs) + [] == DropHandles(t, hs);
      } else {
      }
    }
  }

  // ---- one event, entry by entry ----

  /** The table when the first `i` entries have been looked at and those of `r` are gone. */
  function Live(q: seq<EventNode>, r: Ref, i: nat): seq<EventNode>
    requires i <= |q|
  {
    DropEvent(q[..i], r) + q[i..]
  }

  lemma LiveStep(q: seq<EventNode>, r: Ref, i: nat)
    requires i < |q|
    ensures Live(q, r, i) == DropEvent(q[..i], r) + [q[i]] + q[i + 1..]
    ensures Live(q, r, i + 1) == DropEvent(q[..i], r) + (if q[i].event == r then [] else [q[i]]) + q[i + 1..]
  {
    assert q[..i + 1][..i] == q[..i] && q[i..] == [q[i]] + q[i + 1..];
  }

  lemma LiveEnds(q: seq<EventNode>, r: Ref)
    ensures Live(q, r, 0) == q && Live(q, r, |q|) == DropEvent(q, r)
    ensures WaitsOf(DropEvent(q, r)) == WithoutEvent(WaitsOf(q), r)
  {
    assert q[..|q|] == q && q[|q|..] == [];
    DropEventWaits(q, r);
  }

  lemma HandlesAround(d: seq<EventNode>, n: EventNode, e: seq<EventNode>, a: Ref)
    ensures Handles(d + [n] + e, a) == Handles(d, a) + (if n.action == a then [n.handle] else []) + Handles(e, a)
    ensures Handles(d + e, a) == Handles(d, a) + Handles(e, a)
  {
    HandlesSplit(d + [n], e, a);
    assert (d + [n])[..|d|] == d;
    HandlesSplit(d, e, a);
  }

  /** The array of the action of `n`, in a table where `n` stands between `d` and `e`. */
  lemma ArrayAround(d: seq<EventNode>, n: EventNode, e: seq<EventNode>, other: seq<EventNode>,
          arrays: map<Ref, seq<nat>>, next: nat, k: nat)
    requires EventsLinked(d + [n] + e, other, arrays, next) && n.action in arrays
    requires k < |arrays[n.action]| && arrays[n.action][k] == n.handle &&
        forall j :: 0 <= j < k ==> arrays[n.action][j] != n.handle
    ensures arrays[n.action][..k] + arrays[n.action][k + 1..] == Handles(d + e, n.action) &&
        Handles(other, n.action) == []
  {
    var a := n.action;
    hide HasWait, HasHandle;
    HandlesAround(d, n, e, a);
    HandlesDistinct(d + [n] + e, a);
    TakenOut(Handles(d, a), n.handle, Handles(e, a), arrays[a], k);
  }

  /** The only place of a value in a sequence without duplicates. */
  lemma TakenOut(before: seq<nat>, h: nat, after: seq<nat>, all: seq<nat>, k: nat)
    requires all == before + [h] + after && NoDuplicates(all) && k < |all| && all[k] == h
    ensures all[..k] + all[k + 1..] == before + after
  {
    assert all[|before|] == h;
    assert k == |before|;
  }

  lemma TabledAround(d: seq<EventNode>, n: EventNode, e: seq<EventNode>, arrays: map<Ref, seq<nat>>, next: nat)
    requires Tabled(d + [n] + e, arrays, next)
    ensures Tabled(d + e, arrays, next)
  {
    var q, p := d + [n] + e, d + e;
    assert forall j :: 0 <= j < |p| ==> p[j] == q[if j < |d| then j else j + 1];
  }

  /** Only the entries of `a` change, and its array with them. */
  lemma Relinked(q: seq<EventNode>, p: seq<EventNode>, other: seq<EventNode>, arrays: map<Ref, seq<nat>>, next: nat,
          later: nat, a: Ref)
    requires EventsLinked(q, other, arrays, next) && a in arrays && Handles(other, a) == [] && next <= later
    requires Tabled(p, arrays, later) && forall b :: b != a ==> Handles(p, b) == Handles(q, b)
    ensures EventsLinked(p, other, arrays[a := Handles(p, a)], later)
  {
    var after := arrays[a := Handles(p, a)];
    assert Tabled(p, after, later) && Tabled(other, after, later);
    forall b | b in after
      ensures after[b] == Handles(p, b) + Handles(other, b) && (Handles(p, b) == [] || Handles(other, b) == [])
    {
      if b == a { assert Handles(p, a) + [] == Handles(p, a); }
    }
  }

  lemma LinkedAround(d: seq<EventNode>, n: EventNode, e: seq<EventNode>, other: seq<EventNode>,
          arrays: map<Ref, seq<nat>>, next: nat)
    requires EventsLinked(d + [n] + e, other, arrays, next) && n.action in arrays && Handles(other, n.action) == []
    ensures EventsLinked(d + e, other, arrays[n.action := Handles(d + e, n.action)], next)
  {
    TabledAround(d, n, e, arrays, next);
    forall b | b != n.action ensures Handles(d + e, b) == Handles(d + [n] + e, b) {
      HandlesAround(d, n, e, b);
    }
    Relinked(d + [n] + e, d + e, other, arrays, next, next, n.action);
  }

  lemma ArrayHolds(d: seq<EventNode>, n: EventNode, e: seq<EventNode>, other: seq<EventNode>,
          arrays: map<Ref, seq<nat>>, next: nat)
    requires EventsLinked(d + [n] + e, other, arrays, next)
    ensures n.action in arrays && n.handle in arrays[n.action]
  {
    assert (d + [n] + e)[|d|] == n;
    HandlesAround(d, n, e, n.action);
    assert (Handles(d, n.action) + [n.handle])[|Handles(d, n.action)|] == n.handle;
  }

  lemma EventsLinkedLater(q: seq<EventNode>, other: seq<EventNode>, arrays: map<Ref, seq<nat>>, next: nat)
    requires EventsLinked(q, other, arrays, next)
    ensures EventsLinked(q, other, arrays, next + 1)
  {
  }

  /** The action of an entry holds its handle at exactly one place; taking it out keeps arrays
      and tables in step, and leaves nothing exactly when the action has no other entry. */
  lemma EventStep(d: seq<EventNode>, n: EventNode, e: seq<EventNode>, other: seq<EventNode>, arrays: map<Ref, seq<nat>>,
          next: nat, k: nat)
    requires EventsLinked(d + [n] + e, other, arrays, next) && n.action in arrays
    requires k < |arrays[n.action]| && arrays[n.action][k] == n.handle &&
        forall j :: 0 <= j < k ==> arrays[n.action][j] != n.handle
    ensures var left := arrays[n.action][..k] + arrays[n.action][k + 1..];
      EventsLinked(d + e, other, arrays[n.action := left], next) &&
      (left == [] <==> Handles(d, n.action) == [] && Handles(e, n.action) == [])
  {
    ArrayAround(d, n, e, other, arrays, next, k);
    LinkedAround(d, n, e, other, arrays, next);
    HandlesSplit(d, e, n.action);
  }

  lemma NoHandles(q: seq<EventNode>, a: Ref)
    ensures Handles(q, a) == [] <==> forall j :: 0 <= j < |q| ==> q[j].action != a
  {
    HandlesMembers(q, a);
    assert forall j :: 0 <= j < |q| ==> WaitsOf(q)[j].action == q[j].action;
  }

  /** Every wait of `a` is for `r`. */
  predicate OnlyFor(q: seq<EventNode>, r: Ref, a: Ref) {
    forall j :: 0 <= j < |q| && q[j].action == a ==> q[j].event == r
  }

  lemma OnlyForSnoc(t: seq<EventNode>, n: EventNode, r: Ref, a: Ref)
    ensures OnlyFor(t + [n], r, a) <==> OnlyFor(t, r, a) && (n.action == a ==> n.event == r)
  {
    var q := t + [n];
    assert q[|t|] == n && forall j :: 0 <= j < |t| ==> q[j] == t[j];
  }

  lemma {:induction false} NoHandlesDropped(q: seq<EventNode>, r: Ref, a: Ref)
    ensures Handles(DropEvent(q, r), a) == [] <==> OnlyFor(q, r, a)
  {
    if q != [] {
      var t, n := q[..|q| - 1], q[|q| - 1];
      NoHandlesDropped(t, r, a);
      assert q == t + [n];
      OnlyForSnoc(t, n, r, a);
      assert DropEvent(t, r) + [] == DropEvent(t, r);
    }
  }

  lemma FiresByHandles(q: seq<EventNode>, r: Ref, i: nat)
    requires i < |q| && q[i].event == r
    ensures Fires(WaitsOf(q), r, i) <==>
        Handles(DropEvent(q[..i], r), q[i].action) == [] && Handles(q[i + 1..], q[i].action) == []
  {
    var a, w := q[i].action, WaitsOf(q);
    NoHandlesDropped(q[..i], r, a);
    NoHandles(q[i + 1..], a);
    assert forall j :: 0 <= j < |q| ==> w[j].action == q[j].action && w[j].event == q[j].event;
    assert forall j :: i < j < |q| ==> q[i + 1..][j - i - 1] == q[j];
  }

  /** The handles of `a` are those of its own entries and of no other. */
  lemma HandlesOwn(q: seq<EventNode>, a: Ref, hs: set<nat>)
    requires DistinctEvents(q) && forall h :: h in hs <==> h in Handles(q, a)
    ensures forall i :: 0 <= i < |q| ==> (q[i].handle in hs <==> q[i].action == a)
  {
    HandlesMembers(q, a);
    forall i | 0 <= i < |q| ensures q[i].handle in hs <==> q[i].action == a {
      if q[i].handle in hs {
        assert HasHandle(q, a, q[i].handle);
        var j :| 0 <= j < |q| && q[j].handle == q[i].handle && q[j].action == a;
        assert i == j;
      }
    }
  }

  lemma TabledDropped(q: seq<EventNode>, hs: set<nat>, arrays: map<Ref, seq<nat>>, next: nat)
    requires Tabled(q, arrays, next)
    ensures Tabled(DropHandles(q, hs), arrays, next)
  {
    DropHandlesTabled(q, hs);
    var p := DropHandles(q, hs);
    forall i | 0 <= i < |p| ensures p[i].action in arrays && p[i].handle < next {
      assert p[i] in q;
    }
  }

  /** `event_remove`: dropping all handles of `a` leaves the table without the waits of `a`. */
  lemma EventsRemoved(q: seq<EventNode>, other: seq<EventNode>, arrays: map<Ref, seq<nat>>, next: nat, a: Ref,
          hs: set<nat>)
    requires EventsLinked(q, other, arrays, next) && a in arrays && Handles(other, a) == []
    requires forall h :: h in hs <==> h in arrays[a]
    ensures EventsLinked(DropHandles(q, hs), other, arrays[a := []], next)
    ensures WaitsOf(DropHandles(q, hs)) == WithoutAction(WaitsOf(q), a)
  {
    assert arrays[a] == Handles(q, a) + [] == Handles(q, a);
    HandlesOwn(q, a, hs);
    DropHandlesWaits(q, hs, a);
    TabledDropped(q, hs, arrays, next);
    Relinked(q, DropHandles(q, hs), other, arrays, next, next, a);
  }

  lemma {:induction false} NoEntries(q: seq<EventNode>, a: Ref)
    requires forall i :: 0 <= i < |q| ==> q[i].action != a
    ensures Handles(q, a) == []
  {
    if q != [] { NoEntries(q[..|q| - 1], a); }
  }

  lemma EventsLinkedFresh(q: seq<EventNode>, other: seq<EventNode>, arrays: map<Ref, seq<nat>>, next: nat, a: Ref)
    requires EventsLinked(q, other, arrays, next) && a !in arrays
    ensures EventsLinked(q, other, arrays[a := []], next)
  {
    NoEntries(q, a);
    NoEntries(other, a);
  }

  lemma EventsLinkedGone(q: seq<EventNode>, other: seq<EventNode>, arrays: map<Ref, seq<nat>>, next: nat, a: Ref)
    requires EventsLinked(q, other, arrays, next) && a in arrays && arrays[a] == []
    ensures EventsLinked(q, other, arrays - {a}, next)
  {
    NoHandles(q, a);
    NoHandles(other, a);
  }

  /** `event_insert` at the end of a table. */
  lemma EventsInserted(q: seq<EventNode>, other: seq<EventNode>, arrays: map<Ref, seq<nat>>, next: nat, a: Ref, e: Ref)
    requires EventsLinked(q, other, arrays, next) && a in arrays && Handles(other, a) == []
    ensures EventsLinked(q + [EventNode(next, e, a)], other, arrays[a := arrays[a] + [next]], next + 1)
    ensures WaitsOf(q + [EventNode(next, e, a)]) == WaitsOf(q) + [Wait(a, e)]
  {
    var n := EventNode(next, e, a);
    assert arrays[a] == Handles(q, a) + [] == Handles(q, a);
    Relinked(q, q + [n], other, arrays, next, next + 1, a);
  }

  lemma IndexedFresh(list: seq<Node>, its: map<Ref, Iterator>, next: nat, a: Ref)
    requires Indexed(list, its, next) && a !in its
    ensures Indexed(list, its[a := End], next)
  {
    FindEntry(list, a);
    forall i | 0 <= i < |list| ensures Refs(list)[i] != a {
      assert list[i].action in its;
    }
  }

  lemma IndexedGone(list: seq<Node>, its: map<Ref, Iterator>, next: nat, a: Ref)
    requires Indexed(list, its, next) && a in its && its[a] == End
    ensures Indexed(list, its - {a}, next)
  {
    FindEntry(list, a);
    forall i | 0 <= i < |list| ensures list[i].action != a {
      assert Refs(list)[i] in Refs(list);
    }
  }

  // ---- insertion in the middle, and the first entry ----

  lemma {:induction false} FindInsert(list: seq<Node>, k: nat, n: Node, b: Ref)
    requires k <= |list| && forall i :: 0 <= i < |list| ==> list[i].action != n.action
    ensures Find(list[..k] + [n] + list[k..], b) == if b == n.action then Entry(n.handle) else Find(list, b)
  {
    var l := list[..k] + [n] + list[k..];
    if k == |list| {
      assert l == list + [n] && l[..|list|] == list;
      FindEntry(list, n.action);
    } else {
      var m := |list| - 1;
      var t := list[..m];
      assert l[..|l| - 1] == t[..k] + [n] + t[k..] && l[|l| - 1] == list[m];
      FindInsert(t, k, n, b);
    }
  }

  lemma InsertOnePerAction(list: seq<Node>, k: nat, n: Node)
    requires OnePerAction(list) && k <= |list|
    requires forall i :: 0 <= i < |list| ==> list[i].action != n.action && list[i].handle < n.handle
    ensures OnePerAction(list[..k] + [n] + list[k..])
  {
    var l := list[..k] + [n] + list[k..];
    forall i, j | 0 <= i < j < |l| ensures l[i].handle != l[j].handle && l[i].action != l[j].action {
      assert i != k ==> l[i] == list[if i < k then i else i - 1];
      assert j != k ==> l[j] == list[if j < k then j else j - 1];
    }
  }

  lemma IndexedInsertAt(list: seq<Node>, its: map<Ref, Iterator>, next: nat, k: nat, a: Ref)
    requires Indexed(list, its, next) && a in its && a !in Refs(list) && k <= |list|
    ensures Indexed(list[..k] + [Node(next, a)] + list[k..], its[a := Entry(next)], next + 1)
    ensures Refs(list[..k] + [Node(next, a)] + list[k..]) == Refs(list)[..k] + [a] + Refs(list)[k..]
  {
    hide OnePerAction, Find;
    var n := Node(next, a);
    var l := list[..k] + [n] + list[k..];
    forall i | 0 <= i < |list| ensures list[i].action != a {
      assert Refs(list)[i] == list[i].action;
    }
    InsertOnePerAction(list, k, n);
    forall b ensures Find(l, b) == if b == a then Entry(next) else Find(list, b) {
      FindInsert(list, k, n, b);
    }
    forall i | 0 <= i < |l| ensures l[i].action in its && l[i].handle < next + 1 {
      if i < k { assert l[i] == list[i]; } else if i > k { assert l[i] == list[i - 1]; }
    }
  }

  lemma {:induction false} WithoutFirst(s: seq<Ref>)
    requires s != [] && NoDuplicates(s)
    ensures Without(s, s[0]) == s[1..]
  {
    var t := s[..|s| - 1];
    if t == [] {
      assert Without(t, s[0]) == [];
    } else {
      WithoutFirst(t);
      assert t[0] == s[0] && t[1..] + [s[|s| - 1]] == s[1..];
    }
  }

  function TimedOf(times: seq<int>, actions: seq<Ref>): (r: seq<Timed>)
    requires |times| == |actions|
    ensures |r| == |times|
  {
    seq(|times|, i requires 0 <= i < |times| => Timed(times[i], actions[i]))
  }

  /** The place a multimap inserts a key at: after the keys that are not greater. */
  lemma {:induction false} InsertTimedAt(times: seq<int>, actions: seq<Ref>, k: nat, time: int, a: Ref)
    requires |times| == |actions| && k <= |times|
    requires (forall j :: k <= j < |times| ==> times[j] > time) && (k > 0 ==> times[k - 1] <= time)
    ensures InsertTimed(TimedOf(times, actions), Timed(time, a)) ==
        TimedOf(times[..k] + [time] + times[k..], actions[..k] + [a] + actions[k..])
  {
    var ts, us := TimedOf(times, actions), TimedOf(times[..k] + [time] + times[k..], actions[..k] + [a] + actions[k..]);
    if k == |times| {
      assert us == ts + [Timed(time, a)];
    } else {
      var m := |times| - 1;
      InsertTimedAt(times[..m], actions[..m], k, time, a);
      assert ts[..m] == TimedOf(times[..m], actions[..m]);
      var vs := TimedOf(times[..m][..k] + [time] + times[..m][k..], actions[..m][..k] + [a] + actions[..m][k..]);
      assert us == vs + [ts[m]];
    }
  }

  /** An action no table mentions holds no handles. */
  lemma IdleArray(q: seq<EventNode>, other: seq<EventNode>, arrays: map<Ref, seq<nat>>, next: nat, a: Ref)
    requires EventsLinked(q, other, arrays, next) && a in arrays
    ensures arrays[a] == [] <==> !HasWait(WaitsOf(q), a) && !HasWait(WaitsOf(other), a)
    ensures HasWait(WaitsOf(q), a) ==> Handles(other, a) == []
    ensures !HasWait(WaitsOf(other), a) ==> Handles(other, a) == []
  {
    HandlesMembers(q, a);
    HandlesMembers(other, a);
  }

  lemma IdleTables(q: seq<EventNode>, other: seq<EventNode>, arrays: map<Ref, seq<nat>>, next: nat, a: Ref)
    requires EventsLinked(q, other, arrays, next) && a in arrays && arrays[a] == []
    ensures Handles(q, a) == [] && Handles(other, a) == []
  {
  }
}
