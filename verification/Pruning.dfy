/** In which rounds of a resolution pruning has an effect: the root remembers that a member was
    found, and nothing is looked at below it any more. */
module Pruning {
  import opened NameResolution

  predicate Unmarked(nodes: Nodes) {
    forall i :: 0 <= i < |nodes| ==> !nodes[i].member
  }

  predicate HasParent(nodes: Nodes, k: nat) {
    exists i :: 0 <= i < k && i < |nodes| && k in nodes[i].children
  }

  /** Every node but the first is a child of an earlier one. */
  predicate Rooted(nodes: Nodes) {
    forall k :: 0 < k < |nodes| ==> HasParent(nodes, k)
  }

  /** The root of a resolution, with its contexts. */
  predicate HasRoot(nodes: Nodes) {
    nodes != [] && nodes[0].reference && nodes[0].children != []
  }

  // ---- one pruning ----

  lemma {:induction false} UnmarkedStays(nodes: Nodes, i: nat)
    requires Ordered(nodes) && Unmarked(nodes) && i < |nodes|
    ensures !PrunedMember(nodes, i)
    decreases |nodes| - i
  {
    assert OrderedAt(nodes, i);
    forall j | 0 <= j < |nodes[i].children| ensures !PrunedMember(nodes, nodes[i].children[j]) {
      UnmarkedStays(nodes, nodes[i].children[j]);
    }
  }

  /** Where a node gets no mark, nothing that is visited below it does. */
  lemma {:induction false} NoneVisited(nodes: Nodes, i: nat)
    requires Ordered(nodes) && i < |nodes| && !PrunedMember(nodes, i)
    ensures forall k :: k in Visited(nodes, i) ==> !PrunedMember(nodes, k)
    decreases |nodes| - i, |nodes[i].children| + 1
  {
    if GoesBelow(nodes[i]) { NoneVisitedBelow(nodes, i, |nodes[i].children|); }
  }

  lemma {:induction false} NoneVisitedBelow(nodes: Nodes, i: nat, j: nat)
    requires Ordered(nodes) && i < |nodes| && j <= |nodes[i].children| && !PrunedMember(nodes, i)
    ensures forall k :: k in VisitedBelow(nodes, i, j) ==> !PrunedMember(nodes, k)
    decreases |nodes| - i, j
  {
    assert OrderedAt(nodes, i);
    if j > 0 {
      NoneVisitedBelow(nodes, i, j - 1);
      NoneVisited(nodes, nodes[i].children[j - 1]);
    }
  }

  /** Pruning from the root changes the tree exactly when the root has no mark yet and gets one. */
  lemma PruneEffect(nodes: Nodes)
    requires Ordered(nodes) && nodes != [] && nodes[0].reference
    ensures Prune(nodes, 0) != nodes <==> !nodes[0].member && PrunedMember(nodes, 0)
    ensures Prune(nodes, 0)[0].member <==> PrunedMember(nodes, 0)
  {
    assert Final(nodes, 0) == nodes[0].(member := PrunedMember(nodes, 0));
    if !PrunedMember(nodes, 0) {
      NoneVisited(nodes, 0);
      forall k | k in Visited(nodes, 0) ensures Final(nodes, k) == nodes[k] { FinalUnmarked(nodes, k); }
      assert Prune(nodes, 0) == nodes;
    } else if nodes[0].member {
      assert Prune(nodes, 0) == nodes;
    }
  }

  lemma FinalUnmarked(nodes: Nodes, k: nat)
    requires Ordered(nodes) && k < |nodes| && !PrunedMember(nodes, k)
    ensures Final(nodes, k) == nodes[k]
  {
    assert OrderedAt(nodes, k);
    NoneBest(nodes, nodes[k].children);
  }

  lemma NothingMarked(nodes: Nodes)
    requires Ordered(nodes) && nodes != [] && nodes[0].reference && Unmarked(nodes)
    ensures Prune(nodes, 0) == nodes
  {
    UnmarkedStays(nodes, 0);
    PruneEffect(nodes);
  }

  /** A mark comes up to the root. */
  lemma {:induction false} MarkComesUp(nodes: Nodes, k: nat)
    requires Ordered(nodes) && Rooted(nodes) && k < |nodes| && PrunedMember(nodes, k)
    ensures PrunedMember(nodes, 0)
    decreases k
  {
    if k > 0 {
      assert HasParent(nodes, k);
      var i :| 0 <= i < k && i < |nodes| && k in nodes[i].children;
      var j :| 0 <= j < |nodes[i].children| && nodes[i].children[j] == k;
      assert PrunedMember(nodes, i);
      MarkComesUp(nodes, i);
    }
  }

  // ---- one round ----

  /** Some leaf has members among the path element. */
  predicate AddsMembers(s: Space, nodes: Nodes, element: seq<nat>) {
    exists i :: 0 <= i < |nodes| && nodes[i].children == [] && MembersOf(s, nodes[i].element, element) != []
  }

  /** New nodes hang below old ones, and are marked as said. */
  lemma AddAllMarks(nodes: Nodes, parent: nat, elements: seq<nat>, member: bool)
    requires Rooted(nodes) && parent < |nodes|
    ensures var after := AddAll(nodes, parent, elements, member);
      Rooted(after) && |after| == |nodes| + |elements| &&
      (forall i :: 0 <= i < |nodes| ==> after[i].member == nodes[i].member) &&
      (forall i :: |nodes| <= i < |after| ==> after[i].member == member)
  {
    var after := AddAll(nodes, parent, elements, member);
    forall k | 0 < k < |after| ensures HasParent(after, k) {
      if k < |nodes| {
        assert HasParent(nodes, k);
        var i :| 0 <= i < k && i < |nodes| && k in nodes[i].children;
        assert k in after[i].children;
      } else {
        assert Fresh(nodes, |elements|)[k - |nodes|] == k;
        assert k in after[parent].children;
      }
    }
  }

  lemma {:induction false} ExpandMarks(s: Space, nodes: Nodes, k: nat)
    requires k <= |nodes| && Rooted(nodes) && Unmarked(nodes)
    ensures Rooted(ExpandFirst(s, nodes, k)) && Unmarked(ExpandFirst(s, nodes, k))
  {
    hide AddAll;
    if k > 0 {
      ExpandMarks(s, nodes, k - 1);
      var before := ExpandFirst(s, nodes, k - 1);
      if Unexpanded(s, before[k - 1]) {
        var marked := before[k - 1 := before[k - 1].(reference := true)];
        assert Rooted(marked) by { SameChildren(before, marked); }
        AddAllMarks(marked, k - 1, s.instances(before[k - 1].element), false);
      }
    }
  }

  lemma SameChildren(nodes: Nodes, after: Nodes)
    requires Rooted(nodes) && |after| == |nodes| &&
        forall i :: 0 <= i < |nodes| ==> after[i].children == nodes[i].children
    ensures Rooted(after)
  {
    forall k | 0 < k < |after| ensures HasParent(after, k) {
      assert HasParent(nodes, k);
      var i :| 0 <= i < k && i < |nodes| && k in nodes[i].children;
      assert k in after[i].children;
    }
  }

  /** Growing marks some node exactly when some leaf has members. */
  lemma {:induction false} GrowMarks(s: Space, nodes: Nodes, k: nat, element: seq<nat>)
    requires k <= |nodes| && Rooted(nodes) && Unmarked(nodes)
    ensures var after := GrowFirst(s, nodes, k, element);
      Rooted(after) && (Unmarked(after) <==> !AddsMembers(s, nodes[..k], element))
  {
    hide AddAll, MembersOf;
    if k > 0 {
      var before, after := GrowFirst(s, nodes, k - 1, element), GrowFirst(s, nodes, k, element);
      GrowMarks(s, nodes, k - 1, element);
      GrowFirstDoes(s, nodes, k - 1, element);
      assert GrownAt(s, nodes, before, k - 1, k - 1, element) && before[k - 1] == nodes[k - 1];
      AddsMore(s, nodes, k, element);
      if nodes[k - 1].children == [] {
        var members := MembersOf(s, nodes[k - 1].element, element);
        if members != [] {
          AddAllMarks(before, k - 1, members, true);
          assert after[|before|].member;
        } else {
          AddAllMarks(before, k - 1, element, false);
        }
      }
    }
  }

  lemma AddsMore(s: Space, nodes: Nodes, k: nat, element: seq<nat>)
    requires 0 < k <= |nodes|
    ensures AddsMembers(s, nodes[..k], element) <==>
        AddsMembers(s, nodes[..k - 1], element) ||
        (nodes[k - 1].children == [] && MembersOf(s, nodes[k - 1].element, element) != [])
  {
    hide MembersOf;
    var all, some := nodes[..k], nodes[..k - 1];
    assert forall i :: 0 <= i < k - 1 ==> all[i] == some[i];
    assert all[k - 1] == nodes[k - 1];
  }

  /** What one path element leaves before it is pruned. */
  function Grown(s: Space, nodes: Nodes, element: seq<nat>): Nodes {
    GrowAll(s, ExpandRound(s, nodes), element)
  }

  lemma RootStays(s: Space, nodes: Nodes, element: seq<nat>)
    requires WellFormedSpace(s) && Ordered(nodes) && HasRoot(nodes)
    ensures var grown := Grown(s, nodes, element);
      Ordered(grown) && HasRoot(grown) && grown[0].member == nodes[0].member
    ensures Ordered(ExpandRound(s, nodes)) && HasRoot(ExpandRound(s, nodes)) &&
        ExpandRound(s, nodes)[0].member == nodes[0].member
  {
    var expanded := ExpandRound(s, nodes);
    RoundsOrdered(s, nodes, element);
    GrowFirstDoes(s, expanded, |expanded|, element);
    assert GrownAt(s, expanded, Grown(s, nodes, element), 0, |expanded|, element);
  }

  /** A round prunes exactly when it is the first to find members. */
  lemma RoundPrunes(s: Space, nodes: Nodes, element: seq<nat>)
    requires WellFormedSpace(s) && Ordered(nodes) && HasRoot(nodes)
    requires nodes[0].member || (Rooted(nodes) && Unmarked(nodes))
    ensures var grown := Grown(s, nodes, element);
      var adds := AddsMembers(s, ExpandRound(s, nodes), element);
      Ordered(grown) && HasRoot(grown) && HasRoot(Prune(grown, 0)) &&
      (Prune(grown, 0) != grown <==> !nodes[0].member && adds) &&
      (Prune(grown, 0)[0].member <==> nodes[0].member || adds) &&
      (!nodes[0].member && !adds ==> Rooted(Prune(grown, 0)) && Unmarked(Prune(grown, 0)))
  {
    hide Visited, Best, Final;
    RootStays(s, nodes, element);
    var expanded, grown := ExpandRound(s, nodes), Grown(s, nodes, element);
    PruneEffect(grown);
    PruneIsPruned(grown, 0);
    assert PrunedAt(grown, Prune(grown, 0), 0);
    if !nodes[0].member {
      ExpandMarks(s, nodes, |nodes|);
      GrowMarks(s, expanded, |expanded|, element);
      assert expanded[..|expanded|] == expanded;
      if Unmarked(grown) {
        UnmarkedStays(grown, 0);
      } else {
        var k :| 0 <= k < |grown| && grown[k].member;
        MarkComesUp(grown, k);
      }
    }
  }

  // ---- whole resolutions ----

  /** The tree before path element `k`. */
  ghost function Before(s: Space, context: seq<nat>, typePath: seq<seq<nat>>, k: nat): (nodes: Nodes)
    requires WellFormedSpace(s) && k <= |typePath|
    ensures Ordered(nodes)
  {
    ResolveTo(s, context, typePath[..k]).1
  }

  /** Path element `k` names a member of some action it comes after. */
  ghost predicate FindsMembers(s: Space, context: seq<nat>, typePath: seq<seq<nat>>, k: nat)
    requires WellFormedSpace(s) && k < |typePath|
  {
    AddsMembers(s, ExpandRound(s, Before(s, context, typePath, k)), typePath[k])
  }

  /** What path element `k` leaves is not what it has grown. */
  ghost predicate Prunes(s: Space, context: seq<nat>, typePath: seq<seq<nat>>, k: nat)
    requires WellFormedSpace(s) && k < |typePath|
  {
    Before(s, context, typePath, k + 1) != Grown(s, Before(s, context, typePath, k), typePath[k])
  }

  ghost predicate Found(s: Space, context: seq<nat>, typePath: seq<seq<nat>>, n: nat)
    requires WellFormedSpace(s) && n <= |typePath|
  {
    exists k :: 0 <= k < n && FindsMembers(s, context, typePath, k)
  }

  ghost predicate MarkedWhenFound(s: Space, context: seq<nat>, typePath: seq<seq<nat>>, n: nat)
    requires WellFormedSpace(s) && n <= |typePath|
  {
    var nodes := Before(s, context, typePath, n);
    HasRoot(nodes) && (nodes[0].member <==> Found(s, context, typePath, n)) &&
    (!nodes[0].member ==> Rooted(nodes) && Unmarked(nodes))
  }

  lemma {:induction false} StaysDone(s: Space, context: seq<nat>, typePath: seq<seq<nat>>, k: nat)
    requires WellFormedSpace(s) && k <= |typePath| && ResolveTo(s, context, typePath).0.Done?
    ensures ResolveTo(s, context, typePath[..k]).0.Done?
    decreases |typePath|
  {
    if k < |typePath| {
      StaysDone(s, context, typePath[..|typePath| - 1], k);
      assert typePath[..|typePath| - 1][..k] == typePath[..k];
    } else {
      assert typePath[..k] == typePath;
    }
  }

  lemma StartMarks(context: seq<nat>)
    requires context != []
    ensures HasRoot(Start(context)) && Unmarked(Start(context)) && Rooted(Start(context))
  {
    var one := [Node(-1, false, true, [])];
    AddAllMarks(one, 0, context, false);
    AddAllDoes(one, 0, context, false);
  }

  lemma {:induction false} AlwaysMarked(s: Space, context: seq<nat>, typePath: seq<seq<nat>>, n: nat)
    requires WellFormedSpace(s) && context != [] && n <= |typePath| && ResolveTo(s, context, typePath).0.Done?
    ensures MarkedWhenFound(s, context, typePath, n)
    ensures n > 0 ==> (Prunes(s, context, typePath, n - 1) <==>
      FindsMembers(s, context, typePath, n - 1) && !Found(s, context, typePath, n - 1))
  {
    hide AddsMembers, Rooted, Unmarked, Extend, HasRoot;
    if n == 0 {
      StartMarks(context);
      assert typePath[..0] == [];
    } else {
      AlwaysMarked(s, context, typePath, n - 1);
      StaysDone(s, context, typePath, n - 1);
      StaysDone(s, context, typePath, n);
      var before := Before(s, context, typePath, n - 1);
      assert typePath[..n][..n - 1] == typePath[..n - 1];
      RoundPrunes(s, before, typePath[n - 1]);
      ExtendGrows(s, before, typePath[n - 1]);
      assert Found(s, context, typePath, n) <==>
        Found(s, context, typePath, n - 1) || FindsMembers(s, context, typePath, n - 1);
    }
  }

  lemma ExtendGrows(s: Space, nodes: Nodes, element: seq<nat>)
    requires WellFormedSpace(s) && Ordered(nodes) && nodes != [] && Extend(s, nodes, element).0.Done?
    ensures Ordered(Grown(s, nodes, element)) && Grown(s, nodes, element) != []
    ensures Extend(s, nodes, element).1 == Prune(Grown(s, nodes, element), 0)
  {
    RoundsOrdered(s, nodes, element);
  }

  /** Members are preferred once only. Of all path elements the first one that names a member prunes
      the tree, and no other does, whatever members it names; nor does the final expansion. */
  lemma PruningTheorem(s: Space, context: seq<nat>, typePath: seq<seq<nat>>, expandFinal: bool, k: nat)
    requires WellFormedSpace(s) && context != [] && k < |typePath|
    requires ResolveAll(s, context, typePath, expandFinal).0.Done?
    ensures Prunes(s, context, typePath, k) <==>
      FindsMembers(s, context, typePath, k) &&
        forall j :: 0 <= j < k ==> !FindsMembers(s, context, typePath, j)
    ensures expandFinal ==>
      ResolveAll(s, context, typePath, true).1 == ExpandRound(s, ResolveTo(s, context, typePath).1)
  {
    AlwaysMarked(s, context, typePath, k + 1);
    AlwaysMarked(s, context, typePath, |typePath|);
    assert typePath[..|typePath|] == typePath;
    if expandFinal { FinalPrunesNothing(s, ResolveTo(s, context, typePath).1); }
  }

  lemma FinalPrunesNothing(s: Space, nodes: Nodes)
    requires WellFormedSpace(s) && Ordered(nodes) && HasRoot(nodes)
    requires nodes[0].member || (Rooted(nodes) && Unmarked(nodes))
    ensures Ordered(ExpandRound(s, nodes)) && ExpandRound(s, nodes) != []
    ensures Prune(ExpandRound(s, nodes), 0) == ExpandRound(s, nodes)
  {
    RootStays(s, nodes, []);
    var expanded := ExpandRound(s, nodes);
    PruneEffect(expanded);
    if !nodes[0].member {
      ExpandMarks(s, nodes, |nodes|);
      UnmarkedStays(expanded, 0);
    }
  }
}
