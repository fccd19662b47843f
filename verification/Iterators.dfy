/** The iterator over several sub-ranges of instances. */
module Iterators {

  /** A position in a sub-range, up to and without `sentinel`. */
  datatype SubRange = SubRange(instance: nat, sentinel: nat, actionType: nat)

  /** Which instances of a type are active: a raw iterator treats all alike. */
  type Activity = (nat, nat) -> bool

  type Item = (nat, nat)

  // ---- what a traversal visits ----

  /** The active instances from `i` on. */
  function Later(r: SubRange, i: nat, active: Activity): seq<Item>
    requires i <= r.sentinel
    decreases r.sentinel - i
  {
    if i == r.sentinel then []
    else (if active(r.actionType, i) then [(r.actionType, i)] else []) + Later(r, i + 1, active)
  }

  /** The first instance of a sub-range, active or not, and the active ones after it. */
  function Items(r: SubRange, active: Activity): seq<Item>
    requires r.instance <= r.sentinel
  {
    if r.instance == r.sentinel then [] else [(r.actionType, r.instance)] + Later(r, r.instance + 1, active)
  }

  predicate WellFormed(rs: seq<SubRange>) {
    forall i :: 0 <= i < |rs| ==> rs[i].instance <= rs[i].sentinel
  }

  function AllItems(rs: seq<SubRange>, active: Activity): seq<Item>
    requires WellFormed(rs)
  {
    if rs == [] then [] else Items(rs[0], active) + AllItems(rs[1..], active)
  }

  predicate Ascending(s: seq<Item>) {
    forall i, j :: 0 <= i < j < |s| ==> s[i].1 < s[j].1
  }

  lemma AscendingAfter(x: Item, s: seq<Item>)
    requires Ascending(s) && forall y :: y in s ==> x.1 < y.1
    ensures Ascending([x] + s)
  {
    forall i, j | 0 <= i < j < |[x] + s| ensures ([x] + s)[i].1 < ([x] + s)[j].1 {
      assert s[j - 1] in s;
    }
  }

  lemma {:induction false} LaterMembers(r: SubRange, i: nat, active: Activity)
    requires i <= r.sentinel
    ensures forall x: Item :: x in Later(r, i, active) <==>
        x.0 == r.actionType && i <= x.1 < r.sentinel && active(x.0, x.1)
    decreases r.sentinel - i
  {
    if i < r.sentinel { LaterMembers(r, i + 1, active); }
  }

  lemma {:induction false} LaterAscending(r: SubRange, i: nat, active: Activity)
    requires i <= r.sentinel
    ensures Ascending(Later(r, i, active))
    decreases r.sentinel - i
  {
    if i < r.sentinel {
      LaterAscending(r, i + 1, active);
      LaterMembers(r, i + 1, active);
      AscendingAfter((r.actionType, i), Later(r, i + 1, active));
      assert [] + Later(r, i + 1, active) == Later(r, i + 1, active);
    }
  }

  /** A sub-range gives, in increasing order and each once, its first instance and exactly the
      active ones after it; when all are active, every instance from the first to the sentinel. */
  lemma ItemsExact(r: SubRange, active: Activity)
    requires r.instance <= r.sentinel
    ensures forall x: Item :: x in Items(r, active) <==>
      x.0 == r.actionType && r.instance <= x.1 < r.sentinel && (x.1 == r.instance || active(x.0, x.1))
    ensures Ascending(Items(r, active))
  {
    if r.instance < r.sentinel {
      LaterMembers(r, r.instance + 1, active);
      LaterAscending(r, r.instance + 1, active);
      AscendingAfter((r.actionType, r.instance), Later(r, r.instance + 1, active));
    }
  }

  /** Sub-ranges without instances make no difference. */
  lemma {:induction false} AllItemsSkips(rs: seq<SubRange>, i: nat, j: nat, active: Activity)
    requires WellFormed(rs) && i <= j <= |rs| && forall k :: i <= k < j ==> rs[k].instance == rs[k].sentinel
    ensures AllItems(rs[i..], active) == AllItems(rs[j..], active)
    decreases j - i
  {
    if i < j {
      assert rs[i..][0] == rs[i] && rs[i..][1..] == rs[i + 1..];
      AllItemsSkips(rs, i + 1, j, active);
      assert [] + AllItems(rs[i + 1..], active) == AllItems(rs[i + 1..], active);
    }
  }

  /** What is left when the first item of a sub-range is done. */
  lemma NextItems(rs: seq<SubRange>, i: nat, s: SubRange, active: Activity)
    requires WellFormed(rs) && i < |rs| && rs[i].instance < rs[i].sentinel && s.instance <= s.sentinel
    requires Items(s, active) == Later(rs[i], rs[i].instance + 1, active)
    ensures WellFormed(rs[i := s]) && AllItems(rs[i..], active) != []
    ensures AllItems(rs[i := s][i..], active) == AllItems(rs[i..], active)[1..]
  {
    var after, rest, later := rs[i := s], AllItems(rs[i + 1..], active), Later(rs[i], rs[i].instance + 1, active);
    assert rs[i..][0] == rs[i] && rs[i..][1..] == rs[i + 1..];
    assert after[i..][0] == s && after[i..][1..] == rs[i + 1..];
    var first := (rs[i].actionType, rs[i].instance);
    assert AllItems(rs[i..], active) == ([first] + later) + rest;
    assert AllItems(after[i..], active) == later + rest;
    TailOf(first, later, rest);
  }

  lemma TailOf(first: Item, later: seq<Item>, rest: seq<Item>)
    ensures (([first] + later) + rest)[1..] == later + rest
  {
  }

  lemma HeadMoves(done: seq<Item>, left: seq<Item>)
    requires left != []
    ensures done + left == done + [left[0]] + left[1..]
  {
  }

  // ---- the iterator ----

  class MultiIterator {
    var iterators: seq<SubRange>
    var index: nat
    const active: Activity

    ghost predicate Valid()
      reads this
    {
      WellFormed(iterators) && index <= |iterators| &&
      (index < |iterators| ==> iterators[index].instance < iterators[index].sentinel)
    }

    /** The items still to come. */
    ghost function Remaining(): seq<Item>
      reads this
      requires Valid()
    {
      AllItems(iterators[index..], active)
    }

    constructor (iters: seq<SubRange>, active: Activity)
      requires WellFormed(iters)
      ensures Valid() && Remaining() == AllItems(iters, active) && this.active == active && |iterators| == |iters|
    {
      iterators, index, this.active := iters, 0, active;
      new;
      while index != |iterators| && iterators[index].instance == iterators[index].sentinel
        invariant index <= |iterators| && iterators == iters && this.active == active
        invariant forall k :: 0 <= k < index ==> iters[k].instance == iters[k].sentinel
        decreases |iterators| - index
      {
        index := index + 1;
      }
      AllItemsSkips(iters, 0, index, active);
      assert iters[0..] == iters;
    }

    /** `operator++` of one sub-range: to the next active instance, or the sentinel. */
    method Advance(r: SubRange) returns (s: SubRange)
      requires r.instance < r.sentinel
      ensures r.instance < s.instance <= s.sentinel == r.sentinel && s.actionType == r.actionType
      ensures Items(s, active) == Later(r, r.instance + 1, active)
    {
      s := r.(instance := r.instance + 1);
      while s.instance != s.sentinel && !active(s.actionType, s.instance)
        invariant r.instance < s.instance <= s.sentinel == r.sentinel && s.actionType == r.actionType
        invariant Later(r, s.instance, active) == Later(r, r.instance + 1, active)
        decreases s.sentinel - s.instance
      {
        assert [] + Later(r, s.instance + 1, active) == Later(r, s.instance + 1, active);
        s := s.(instance := s.instance + 1);
      }
      if s.instance != s.sentinel { SameLater(r, s, s.instance + 1); }
    }

    lemma SameLater(r: SubRange, s: SubRange, i: nat)
      requires s.sentinel == r.sentinel && s.actionType == r.actionType && i <= r.sentinel
      ensures Later(r, i, active) == Later(s, i, active)
      decreases r.sentinel - i
    {
      if i < r.sentinel { SameLater(r, s, i + 1); }
    }

    /** `operator++`: one item is done, and sub-ranges without instances are skipped. */
    method Next()
      requires Valid() && index != |iterators|
      modifies this
      ensures Valid() && Remaining() == old(Remaining())[1..] && |iterators| == old(|iterators|)
    {
      var i := index;
      var s := Advance(iterators[i]);
      NextItems(iterators, i, s, active);
      iterators := iterators[i := s];
      Skip();
    }

    method Skip()
      requires WellFormed(iterators) && index < |iterators|
      modifies this`index
      ensures Valid() && Remaining() == AllItems(iterators[old(index)..], active)
    {
      ghost var i := index;
      while index != |iterators| && iterators[index].instance == iterators[index].sentinel
        invariant i <= index <= |iterators|
        invariant forall k :: i <= k < index ==> iterators[k].instance == iterators[k].sentinel
        decreases |iterators| - index
      {
        index := index + 1;
      }
      AllItemsSkips(iterators, i, index, active);
    }

    /** `operator*` */
    method Get() returns (item: Item)
      requires Valid() && index != |iterators|
      ensures Remaining() != [] && item == Remaining()[0]
    {
      assert iterators[index..][0] == iterators[index];
      item := (iterators[index].actionType, iterators[index].instance);
    }

    /** Stepping until the index has passed the last sub-range visits, in order, the items of all
        sub-ranges, each once, and comes to an end. */
    method Traverse() returns (visited: seq<Item>)
      requires Valid()
      modifies this
      ensures visited == old(Remaining()) && index == |iterators|
    {
      visited := [];
      while index != |iterators|
        invariant Valid() && visited + Remaining() == old(Remaining())
        decreases |Remaining()|
      {
        var item := Get();
        HeadMoves(visited, Remaining());
        visited := visited + [item];
        Next();
      }
    }
  }
}
