/** That resolution leaves no name out: what a path element stands for is all there, until it is pruned. */
module Completeness {
  import opened NameResolution
  import opened Pruning

  // ---- before anything is pruned ----

  predicate ChildOf(s: Space, action: int, e: nat) {
    e < |s.tree| && s.tree[e].parent == action
  }

  /** An action's member, or any element where the action has no member among them. */
  predicate Named(s: Space, action: int, e: nat, element: seq<nat>) {
    ChildOf(s, action, e) || forall x :: x in element ==> !ChildOf(s, action, x)
  }

  /** Every element the path element stands for after this node has a child: every member of its
      action, or, where there is none, every element. */
  predicate Everything(s: Space, nodes: Nodes, i: nat, element: seq<nat>)
    requires Ordered(nodes) && i < |nodes|
  {
    forall e :: e in element && Named(s, nodes[i].element, e, element) ==> HasChild(nodes, i, e)
  }

  predicate HasChild(nodes: Nodes, i: nat, e: nat)
    requires Ordered(nodes) && i < |nodes|
  {
    assert OrderedAt(nodes, i);
    exists j :: 0 <= j < |nodes[i].children| && nodes[nodes[i].children[j]].element == e
  }

  /** From node `i` on no element of the path is left out. */
  predicate Whole(s: Space, nodes: Nodes, i: nat, path: seq<seq<nat>>)
    requires Ordered(nodes) && i < |nodes|
    decreases |nodes| - i
  {
    var n := nodes[i];
    assert OrderedAt(nodes, i);
    n.children == [] ||
    (if n.reference then forall j :: 0 <= j < |n.children| ==> Whole(s, nodes, n.children[j], path)
     else
       path != [] && Everything(s, nodes, i, path[0]) &&
       forall j :: 0 <= j < |n.children| ==> Whole(s, nodes, n.children[j], path[1..]))
  }

  lemma HasChildStays(before: Nodes, after: Nodes, i: nat, e: nat)
    requires Ordered(before) && Ordered(after) && Extends(before, after) && i < |before| && after[i] == before[i]
    requires HasChild(before, i, e)
    ensures HasChild(after, i, e)
  {
    assert OrderedAt(before, i) && OrderedAt(after, i);
    var j :| 0 <= j < |before[i].children| && before[before[i].children[j]].element == e;
    assert after[after[i].children[j]].element == e;
  }

  lemma EverythingStays(s: Space, before: Nodes, after: Nodes, i: nat, element: seq<nat>)
    requires Ordered(before) && Ordered(after) && Extends(before, after) && i < |before| && after[i] == before[i]
    requires Everything(s, before, i, element)
    ensures Everything(s, after, i, element)
  {
    forall e | e in element && Named(s, after[i].element, e, element) ensures HasChild(after, i, e)
    {
      HasChildStays(before, after, i, e);
    }
  }

  lemma {:induction false} ExpandWhole(s: Space, before: Nodes, after: Nodes, i: nat, path: seq<seq<nat>>)
    requires Ordered(before) && Ordered(after) && ExpandedTo(s, before, after, |before|)
    requires i < |before| && Whole(s, before, i, path)
    ensures Whole(s, after, i, path)
    decreases |before| - i
  {
    var n := before[i];
    assert OrderedAt(before, i) && OrderedAt(after, i);
    if Unexpanded(s, n) {
      assert NewChildren(before, after, i, s.instances(n.element));
      forall j | 0 <= j < |after[i].children| ensures Whole(s, after, after[i].children[j], path) {
        assert FreshLeaf(after[after[i].children[j]]);
      }
    } else if n.children != [] {
      assert after[i] == n;
      var rest := if n.reference then path else path[1..];
      forall j | 0 <= j < |n.children| ensures Whole(s, after, n.children[j], rest) {
        ExpandWhole(s, before, after, n.children[j], rest);
      }
      if !n.reference { EverythingStays(s, before, after, i, path[0]); }
    }
  }

  lemma GrownEverything(s: Space, before: Nodes, after: Nodes, element: seq<nat>, i: nat)
    requires Ordered(before) && Ordered(after) && GrownTo(s, before, after, |before|, element)
    requires i < |before| && before[i].children == []
    ensures Everything(s, after, i, element)
    ensures OrderedAt(after, i) &&
        forall j :: 0 <= j < |after[i].children| ==> after[after[i].children[j]].children == []
  {
    assert OrderedAt(after, i) && GrownAt(s, before, after, i, |before|, element);
    var es := Growth(s, before[i].element, element);
    assert NewChildren(before, after, i, es) && after[i].element == before[i].element;
    forall e | e in element && Named(s, after[i].element, e, element) ensures HasChild(after, i, e)
    {
      assert e in es;
      var j :| 0 <= j < |es| && es[j] == e;
      assert after[after[i].children[j]].element == e;
    }
    forall j | 0 <= j < |after[i].children| ensures after[after[i].children[j]].children == [] {
      assert FreshLeaf(after[after[i].children[j]]);
    }
  }

  lemma {:induction false} GrowWhole(s: Space, before: Nodes, after: Nodes, element: seq<nat>, i: nat,
          path: seq<seq<nat>>)
    requires Ordered(before) && Ordered(after) && GrownTo(s, before, after, |before|, element)
    requires i < |before| && Whole(s, before, i, path) && Shaped(s, before, i, path)
    ensures Whole(s, after, i, path + [element])
    decreases |before| - i
  {
    var n := before[i];
    assert OrderedAt(before, i) && OrderedAt(after, i) && GrownAt(s, before, after, i, |before|, element);
    if n.children == [] {
      GrownEverything(s, before, after, element, i);
    } else {
      var rest := if n.reference then path else path[1..];
      forall j | 0 <= j < |n.children| ensures Whole(s, after, n.children[j], rest + [element]) {
        GrowWhole(s, before, after, element, n.children[j], rest);
      }
      if !n.reference {
        assert (path + [element])[1..] == rest + [element] && (path + [element])[0] == path[0];
        EverythingStays(s, before, after, i, path[0]);
      }
    }
  }

  /** The tree as it would be without pruning. */
  ghost function Unpruned(s: Space, context: seq<nat>, typePath: seq<seq<nat>>): Nodes {
    if typePath == [] then Start(context)
    else Grown(s, Unpruned(s, context, typePath[..|typePath| - 1]), typePath[|typePath| - 1])
  }

  // ---- pruning changes nothing else ----

  /** Two trees of the same nodes. `a` has the children of `cut` wherever that has any, and elsewhere
      those of `b`. */
  predicate CutFrom(a: Nodes, b: Nodes, cut: Nodes) {
    |a| == |b| && |cut| <= |b| && forall i :: 0 <= i < |a| ==> CutAt(a, b, cut, i)
  }

  predicate CutAt(a: Nodes, b: Nodes, cut: Nodes, i: nat)
    requires i < |a| == |b|
  {
    a[i].element == b[i].element && a[i].reference == b[i].reference &&
    if i < |cut| && cut[i].children != [] then a[i].children == cut[i].children && b[i].children != []
    else a[i].children == b[i].children
  }

  lemma AddAllCut(a: Nodes, b: Nodes, cut: Nodes, parent: nat, elements: seq<nat>, m: bool, n: bool)
    requires CutFrom(a, b, cut) && parent < |a| && a[parent].children == []
    ensures CutFrom(AddAll(a, parent, elements, m), AddAll(b, parent, elements, n), cut)
  {
    hide AddAll;
    assert CutAt(a, b, cut, parent);
    AddAllDoes(a, parent, elements, m);
    AddAllDoes(b, parent, elements, n);
    var c, d := AddAll(a, parent, elements, m), AddAll(b, parent, elements, n);
    forall i | 0 <= i < |c| ensures CutAt(c, d, cut, i) {
      if i < |a| { assert CutAt(a, b, cut, i); }
    }
  }

  lemma MarkedCut(a: Nodes, b: Nodes, cut: Nodes, i: nat)
    requires CutFrom(a, b, cut) && i < |a|
    ensures CutFrom(a[i := a[i].(reference := true)], b[i := b[i].(reference := true)], cut)
  {
    var c, d := a[i := a[i].(reference := true)], b[i := b[i].(reference := true)];
    forall j | 0 <= j < |c| ensures CutAt(c, d, cut, j) {
      assert CutAt(a, b, cut, j);
    }
  }

  lemma {:induction false} ExpandCut(s: Space, a: Nodes, b: Nodes, cut: Nodes, k: nat)
    requires CutFrom(a, b, cut) && k <= |a|
    ensures CutFrom(ExpandFirst(s, a, k), ExpandFirst(s, b, k), cut)
  {
    hide AddAll, CutFrom;
    assert |a| == |b| by { SameLength(a, b, cut); }
    if k > 0 {
      ExpandCut(s, a, b, cut, k - 1);
      var c, d, i := ExpandFirst(s, a, k - 1), ExpandFirst(s, b, k - 1), k - 1;
      SameLength(c, d, cut);
      SameLeaf(c, d, cut, i);
      if Unexpanded(s, c[i]) {
        MarkedCut(c, d, cut, i);
        AddAllCut(c[i := c[i].(reference := true)], d[i := d[i].(reference := true)], cut, i,
          s.instances(c[i].element), false, false);
      }
    }
  }

  lemma SameLength(a: Nodes, b: Nodes, cut: Nodes)
    requires CutFrom(a, b, cut)
    ensures |a| == |b|
  {
  }

  lemma SameLeaf(a: Nodes, b: Nodes, cut: Nodes, i: nat)
    requires CutFrom(a, b, cut) && i < |a| == |b|
    ensures a[i].element == b[i].element && (a[i].children == [] <==> b[i].children == [])
  {
    assert CutAt(a, b, cut, i);
  }

  lemma {:induction false} GrowCut(s: Space, a: Nodes, b: Nodes, cut: Nodes, k: nat, element: seq<nat>)
    requires CutFrom(a, b, cut) && k <= |a|
    ensures CutFrom(GrowFirst(s, a, k, element), GrowFirst(s, b, k, element), cut)
  {
    hide AddAll, CutFrom, MembersOf;
    assert |a| == |b| by { SameLength(a, b, cut); }
    if k > 0 {
      GrowCut(s, a, b, cut, k - 1, element);
      var c, d, i := GrowFirst(s, a, k - 1, element), GrowFirst(s, b, k - 1, element), k - 1;
      SameLength(c, d, cut);
      SameLeaf(c, d, cut, i);
      if c[i].children == [] {
        var members := MembersOf(s, c[i].element, element);
        AddAllCut(c, d, cut, i, if members != [] then members else element, members != [], members != []);
      }
    }
  }

  lemma GrownCut(s: Space, a: Nodes, b: Nodes, cut: Nodes, element: seq<nat>)
    requires CutFrom(a, b, cut)
    ensures CutFrom(Grown(s, a, element), Grown(s, b, element), cut)
  {
    ExpandCut(s, a, b, cut, |a|);
    var c, d := ExpandRound(s, a), ExpandRound(s, b);
    GrowCut(s, c, d, cut, |c|, element);
  }

  lemma PruneCut(nodes: Nodes)
    requires Ordered(nodes) && nodes != []
    ensures CutFrom(Prune(nodes, 0), nodes, Prune(nodes, 0))
  {
    PruneIsPruned(nodes, 0);
    forall i | 0 <= i < |nodes| ensures CutAt(Prune(nodes, 0), nodes, Prune(nodes, 0), i) {
      assert PrunedAt(nodes, Prune(nodes, 0), i);
    }
  }

  lemma NothingCut(nodes: Nodes)
    ensures CutFrom(nodes, nodes, [])
  {
    forall i | 0 <= i < |nodes| ensures CutAt(nodes, nodes, [], i) {
    }
  }

  // ---- references ----

  predicate Followable(s: Space, e: int) {
    0 <= e < |s.tree| && !s.tree[e].action && s.refers(e)
  }

  /** Exactly the dimensions that refer to actions are followed, once something comes after them; below
      them are all instances they refer to, below an action at least one element. */
  predicate FollowedAt(s: Space, nodes: Nodes, i: nat)
    requires i < |nodes|
  {
    nodes[i].children != [] ==> (nodes[i].reference <==> Followable(s, nodes[i].element))
  }

  predicate AllFollowed(s: Space, nodes: Nodes) {
    (forall i :: 0 < i < |nodes| ==> FollowedAt(s, nodes, i)) &&
    (forall i :: 0 < i < |nodes| && nodes[i].children == [] ==> !nodes[i].reference)
  }

  lemma ExpandFollowed(s: Space, nodes: Nodes)
    requires WellFormedSpace(s) && Expandable(s, nodes) && AllFollowed(s, nodes)
    ensures AllFollowed(s, ExpandRound(s, nodes))
  {
    var after := ExpandRound(s, nodes);
    ExpandFirstDoes(s, nodes, |nodes|);
    forall i | 0 < i < |after|
      ensures FollowedAt(s, after, i) && (after[i].children == [] ==> !after[i].reference)
    {
      if i >= |nodes| {
        assert FreshLeaf(after[i]);
      } else {
        assert FollowedAt(s, nodes, i) && !Empty(s, nodes[i]);
        if Unexpanded(s, nodes[i]) { assert NewChildren(nodes, after, i, s.instances(nodes[i].element)); }
      }
    }
  }

  lemma GrowFollowed(s: Space, nodes: Nodes, element: seq<nat>)
    requires Growable(s, nodes) && AllFollowed(s, nodes)
    ensures AllFollowed(s, GrowAll(s, nodes, element))
  {
    var after := GrowAll(s, nodes, element);
    GrowFirstDoes(s, nodes, |nodes|, element);
    forall i | 0 < i < |after|
      ensures FollowedAt(s, after, i) && (after[i].children == [] ==> !after[i].reference)
    {
      if i >= |nodes| {
        assert FreshLeaf(after[i]);
      } else {
        assert FollowedAt(s, nodes, i) && GrownAt(s, nodes, after, i, |nodes|, element);
      }
    }
  }

  lemma {:induction false} UnprunedFollowed(s: Space, context: seq<nat>, typePath: seq<seq<nat>>)
    requires WellFormedSpace(s) && Grows(s, context, typePath)
    ensures AllFollowed(s, Unpruned(s, context, typePath))
  {
    hide AllFollowed, Growable, Expandable;
    if typePath == [] {
      StartFollowed(s, context);
    } else {
      var n := |typePath| - 1;
      var before := Unpruned(s, context, typePath[..n]);
      UnprunedFollowed(s, context, typePath[..n]);
      ExpandFollowed(s, before);
      GrowFollowed(s, ExpandRound(s, before), typePath[n]);
    }
  }

  lemma StartFollowed(s: Space, context: seq<nat>)
    ensures AllFollowed(s, Start(context))
  {
    AddAllDoes([Node(-1, false, true, [])], 0, context, false);
  }

  // ---- refusals ----

  predicate NowhereToGo(s: Space, n: Node) {
    n.children == [] && Followable(s, n.element) && s.instances(n.element) == []
  }

  /** A path element is refused exactly where some last name, be it in a branch that has been cut off, is a
      dimension that refers to nothing that exists, or, once references are followed, is no action. */
  lemma ExtendRefused(s: Space, nodes: Nodes, element: seq<nat>)
    requires WellFormedSpace(s) && Ordered(nodes) && nodes != []
    ensures Extend(s, nodes, element).0.Endless? <==>
      exists i :: 0 <= i < |nodes| && NowhereToGo(s, nodes[i])
    ensures Extend(s, nodes, element).0.AfterDimension? <==>
      !Extend(s, nodes, element).0.Endless? &&
      exists i :: 0 <= i < |ExpandRound(s, nodes)| && ExpandRound(s, nodes)[i].children == [] &&
        !OnAction(s, ExpandRound(s, nodes)[i].element)
  {
    assert forall i :: 0 <= i < |nodes| ==> (Empty(s, nodes[i]) <==> NowhereToGo(s, nodes[i]));
  }

  predicate OnAction(s: Space, e: int) {
    0 <= e < |s.tree| && s.tree[e].action
  }

  // ---- whole resolutions ----

  lemma StartWhole(s: Space, context: seq<nat>)
    requires context != [] && forall i :: 0 <= i < |context| ==> IsAction(s, context[i])
    ensures Resolved(s, Start(context), context, []) && WholeTree(s, Start(context), [])
  {
    hide AddAll;
    StartResolved(s, context);
    AddAllDoes([Node(-1, false, true, [])], 0, context, false);
    var nodes := Start(context);
    assert OrderedAt(nodes, 0);
    forall j | 0 <= j < |nodes[0].children| ensures nodes[nodes[0].children[j]].children == [] {
    }
  }

  /** From no context on is any element of the path left out. */
  predicate WholeTree(s: Space, nodes: Nodes, path: seq<seq<nat>>) {
    Ordered(nodes) && nodes != [] && OrderedAt(nodes, 0) &&
    forall j :: 0 <= j < |nodes[0].children| ==> Whole(s, nodes, nodes[0].children[j], path)
  }

  /** The tree could be expanded and grown, round by round. */
  ghost predicate Grows(s: Space, context: seq<nat>, typePath: seq<seq<nat>>) {
    typePath == [] ||
    (var before := Unpruned(s, context, typePath[..|typePath| - 1]);
     Grows(s, context, typePath[..|typePath| - 1]) && Expandable(s, before) && Growable(s, ExpandRound(s, before)))
  }

  lemma ExpandTreeWhole(s: Space, before: Nodes, context: seq<nat>, path: seq<seq<nat>>)
    requires WellFormedSpace(s) && Expandable(s, before) && Resolved(s, before, context, path)
    requires WholeTree(s, before, path)
    ensures Resolved(s, ExpandRound(s, before), context, path) && WholeTree(s, ExpandRound(s, before), path)
  {
    var after := ExpandRound(s, before);
    ExpandResolved(s, before, context, path);
    RoundsOrdered(s, before, []);
    assert OrderedAt(before, 0) && OrderedAt(after, 0) && after[0] == before[0];
    forall j | 0 <= j < |after[0].children| ensures Whole(s, after, after[0].children[j], path) {
      ExpandWhole(s, before, after, before[0].children[j], path);
    }
  }

  lemma GrowTreeWhole(s: Space, before: Nodes, element: seq<nat>, context: seq<nat>, path: seq<seq<nat>>)
    requires Resolved(s, before, context, path) && element != [] && Growable(s, before) && WholeTree(s, before, path)
    ensures Resolved(s, GrowAll(s, before, element), context, path + [element])
    ensures WholeTree(s, GrowAll(s, before, element), path + [element])
  {
    var after := GrowAll(s, before, element);
    GrowResolved(s, before, element, context, path);
    GrowFirstDoes(s, before, |before|, element);
    assert OrderedAt(before, 0) && OrderedAt(after, 0) && GrownAt(s, before, after, 0, |before|, element);
    forall j | 0 <= j < |after[0].children| ensures Whole(s, after, after[0].children[j], path + [element]) {
      GrowWhole(s, before, after, element, before[0].children[j], path);
    }
  }

  lemma {:induction false} UnprunedWhole(s: Space, context: seq<nat>, typePath: seq<seq<nat>>)
    requires WellFormedSpace(s) && context != [] && forall i :: 0 <= i < |context| ==> IsAction(s, context[i])
    requires (forall i :: 0 <= i < |typePath| ==> typePath[i] != []) && Grows(s, context, typePath)
    ensures Resolved(s, Unpruned(s, context, typePath), context, typePath)
    ensures WholeTree(s, Unpruned(s, context, typePath), typePath)
  {
    hide Resolved, WholeTree, Expandable, Growable;
    if typePath == [] {
      StartWhole(s, context);
    } else {
      var n := |typePath| - 1;
      var before := Unpruned(s, context, typePath[..n]);
      UnprunedWhole(s, context, typePath[..n]);
      ExpandTreeWhole(s, before, context, typePath[..n]);
      GrowTreeWhole(s, ExpandRound(s, before), typePath[n], context, typePath[..n]);
      assert typePath == typePath[..n] + [typePath[n]];
    }
  }

  /** The same leaves are expanded and grown with and without pruning. */
  lemma CutGrows(s: Space, a: Nodes, b: Nodes, cut: Nodes)
    requires CutFrom(a, b, cut)
    ensures Expandable(s, a) <==> Expandable(s, b)
    ensures Growable(s, a) <==> Growable(s, b)
  {
    forall i | 0 <= i < |a|
      ensures (Empty(s, a[i]) <==> Empty(s, b[i])) && (a[i].children == [] <==> b[i].children == []) &&
          a[i].element == b[i].element
    {
      SameLeaf(a, b, cut, i);
    }
    assert forall i :: 0 <= i < |b| ==> (Empty(s, b[i]) <==> Empty(s, a[i]));
    assert forall i :: 0 <= i < |b| ==> (b[i].children == [] <==> a[i].children == []) && b[i].element == a[i].element;
  }

  lemma RoundCutGrows(s: Space, a: Nodes, b: Nodes, cut: Nodes)
    requires CutFrom(a, b, cut)
    ensures Expandable(s, a) <==> Expandable(s, b)
    ensures Growable(s, ExpandRound(s, a)) <==> Growable(s, ExpandRound(s, b))
  {
    SameLength(a, b, cut);
    ExpandCut(s, a, b, cut, |a|);
    CutGrows(s, a, b, cut);
    CutGrows(s, ExpandRound(s, a), ExpandRound(s, b), cut);
  }

  /** What pruning leaves of the tree that path element `k` makes, where it is the one that prunes. */
  ghost function Cut(s: Space, context: seq<nat>, typePath: seq<seq<nat>>, k: nat): Nodes
    requires WellFormedSpace(s) && k <= |typePath|
  {
    var nodes := Unpruned(s, context, typePath[..k]);
    if k == 0 || !Ordered(nodes) || nodes == [] then [] else Prune(nodes, 0)
  }

  /** `k` is one more than the path element that has pruned so far, or none has. */
  ghost predicate PrunedBy(s: Space, context: seq<nat>, typePath: seq<seq<nat>>, n: nat, k: nat)
    requires WellFormedSpace(s) && n <= |typePath|
  {
    k <= n && (k > 0 ==> Prunes(s, context, typePath, k - 1)) &&
    forall j :: 0 <= j < n && j != k - 1 ==> !Prunes(s, context, typePath, j)
  }

  lemma {:induction false} ResolvedIsCut(s: Space, context: seq<nat>, typePath: seq<seq<nat>>, n: nat) returns (k: nat)
    requires WellFormedSpace(s) && context != [] && n <= |typePath| && ResolveTo(s, context, typePath).0.Done?
    ensures PrunedBy(s, context, typePath, n, k) && (k == 0 <==> !Found(s, context, typePath, n))
    ensures Grows(s, context, typePath[..n])
    ensures CutFrom(Before(s, context, typePath, n), Unpruned(s, context, typePath[..n]), Cut(s, context, typePath, k))
    ensures k == 0 ==> Before(s, context, typePath, n) == Unpruned(s, context, typePath[..n])
  {
    hide CutFrom, Extend, FindsMembers, Prune, Grown, Expandable, Growable;
    AlwaysMarked(s, context, typePath, n);
    if n == 0 {
      k := 0;
      assert typePath[..0] == [];
      NothingCut(Start(context));
    } else {
      k := ResolvedIsCut(s, context, typePath, n - 1);
      var a, b := Before(s, context, typePath, n - 1), Unpruned(s, context, typePath[..n - 1]);
      assert typePath[..n][..n - 1] == typePath[..n - 1];
      StaysDone(s, context, typePath, n - 1);
      StaysDone(s, context, typePath, n);
      AlwaysMarked(s, context, typePath, n - 1);
      CanExtend(s, a, typePath[n - 1]);
      RoundCutGrows(s, a, b, Cut(s, context, typePath, k));
      ExtendGrows(s, a, typePath[n - 1]);
      FoundMore(s, context, typePath, n);
      if Prunes(s, context, typePath, n - 1) {
        k := n;
        PruneCut(Grown(s, a, typePath[n - 1]));
      } else {
        GrownCut(s, a, b, Cut(s, context, typePath, k), typePath[n - 1]);
      }
    }
  }

  lemma FoundMore(s: Space, context: seq<nat>, typePath: seq<seq<nat>>, n: nat)
    requires WellFormedSpace(s) && 0 < n <= |typePath|
    ensures Found(s, context, typePath, n) <==>
      Found(s, context, typePath, n - 1) || FindsMembers(s, context, typePath, n - 1)
  {
  }

  lemma CanExtend(s: Space, nodes: Nodes, element: seq<nat>)
    requires WellFormedSpace(s) && Ordered(nodes) && nodes != [] && Extend(s, nodes, element).0.Done?
    ensures Expandable(s, nodes) && Growable(s, ExpandRound(s, nodes))
  {
  }

  /** Nothing else is missing. Without pruning every way down has, at every step, every member of its
      action that the path element names, or every element it names, and every instance referred to.
      With pruning the nodes are the same, and so are their children, except that one path element
      at most has pruned the tree it had grown: of the nodes there were then those children are left
      that pruning leaves. */
  lemma CompletenessTheorem(s: Space, context: seq<nat>, typePath: seq<seq<nat>>, expandFinal: bool) returns (k: nat)
    requires WellFormedSpace(s) && context != [] && forall i :: 0 <= i < |context| ==> IsAction(s, context[i])
    requires forall i :: 0 <= i < |typePath| ==> typePath[i] != []
    requires ResolveAll(s, context, typePath, expandFinal).0.Done?
    ensures var grown := Unpruned(s, context, typePath);
      var all := if expandFinal then ExpandRound(s, grown) else grown;
      && Resolved(s, all, context, typePath) && WholeTree(s, all, typePath) && AllFollowed(s, all)
      && (expandFinal ==> forall i :: 0 < i < |all| && all[i].children == [] ==> !Followable(s, all[i].element))
      && PrunedBy(s, context, typePath, |typePath|, k)
      && (k > 0 ==> Ordered(Unpruned(s, context, typePath[..k])) && Unpruned(s, context, typePath[..k]) != [])
      && CutFrom(ResolveAll(s, context, typePath, expandFinal).1, all, Cut(s, context, typePath, k))
      && (k == 0 ==> ResolveAll(s, context, typePath, expandFinal).1 == all)
  {
    hide CutFrom, Resolved, WholeTree, Prunes, Extend, Prune;
    k := ResolvedIsCut(s, context, typePath, |typePath|);
    assert typePath[..|typePath|] == typePath;
    UnprunedWhole(s, context, typePath);
    UnprunedFollowed(s, context, typePath);
    var nodes, grown := ResolveTo(s, context, typePath).1, Unpruned(s, context, typePath);
    if k > 0 { UnprunedOrdered(s, context, typePath[..k]); }
    if expandFinal {
      RoundCutGrows(s, nodes, grown, Cut(s, context, typePath, k));
      ExpandTreeWhole(s, grown, context, typePath);
      ExpandCut(s, nodes, grown, Cut(s, context, typePath, k), |nodes|);
      SameLength(nodes, grown, Cut(s, context, typePath, k));
      AlwaysMarked(s, context, typePath, |typePath|);
      FinalPrunesNothing(s, nodes);
      ExpandFollowed(s, grown);
      RoundExact(s, grown);
    }
  }

  lemma {:induction false} UnprunedOrdered(s: Space, context: seq<nat>, typePath: seq<seq<nat>>)
    requires WellFormedSpace(s)
    ensures Ordered(Unpruned(s, context, typePath)) && Unpruned(s, context, typePath) != []
  {
    if typePath == [] {
      StartOrdered(context);
    } else {
      var n := |typePath| - 1;
      UnprunedOrdered(s, context, typePath[..n]);
      RoundsOrdered(s, Unpruned(s, context, typePath[..n]), typePath[n]);
    }
  }
}
