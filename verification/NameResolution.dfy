/** How the names of an invocation are resolved: a tree of names grown one path element at a time,
    with references expanded and branches that lead to members preferred. */
module NameResolution {
  import opened ConcreteTree

  /** What the analysis knows of the elements: which dimensions refer to actions, and to which. */
  datatype Space = Space(tree: Concrete, refers: nat -> bool, instances: nat -> seq<nat>)

  /** A node of the name tree; the root has no element. */
  datatype Node = Node(element: int, member: bool, reference: bool, children: seq<nat>)

  type Nodes = seq<Node>

  /** References are to actions. */
  ghost predicate WellFormedSpace(s: Space) {
    WellFormed(s.tree) &&
    forall e: nat, i: nat :: i < |s.instances(e)| ==> IsAction(s, s.instances(e)[i])
  }

  predicate IsAction(s: Space, e: int) {
    0 <= e < |s.tree| && s.tree[e].action
  }

  predicate IsReference(s: Space, e: int) {
    0 <= e < |s.tree| && !s.tree[e].action && s.refers(e)
  }

  predicate IsMember(s: Space, action: int, e: int) {
    0 <= e < |s.tree| && s.tree[e].parent == action
  }

  /** A dimension that could be followed and has not been. */
  predicate Unexpanded(s: Space, n: Node) {
    n.children == [] && IsReference(s, n.element)
  }

  /** There is nothing to follow it to. */
  predicate Empty(s: Space, n: Node) {
    Unexpanded(s, n) && s.instances(n.element) == []
  }

  /** Every dimension still to be followed has an instance to refer to. */
  predicate Expandable(s: Space, nodes: Nodes) {
    forall i :: 0 <= i < |nodes| ==> !Empty(s, nodes[i])
  }

  predicate AllExpanded(s: Space, nodes: Nodes) {
    forall i :: 0 <= i < |nodes| ==> !Unexpanded(s, nodes[i])
  }

  // ---- growing the tree ----

  function Fresh(nodes: Nodes, n: nat): (children: seq<nat>)
    ensures |children| == n
  {
    seq(n, j requires 0 <= j < n => |nodes| + j)
  }

  /** `add` for every element of a list. */
  function AddAll(nodes: Nodes, parent: nat, elements: seq<nat>, member: bool): Nodes
    requires parent < |nodes|
  {
    nodes[parent := nodes[parent].(children := nodes[parent].children + Fresh(nodes, |elements|))]
    + seq(|elements|, j requires 0 <= j < |elements| => Node(elements[j], member, false, []))
  }

  function Expand(s: Space, nodes: Nodes, i: nat): Nodes
    requires i < |nodes|
  {
    if Unexpanded(s, nodes[i]) then
      AddAll(nodes[i := nodes[i].(reference := true)], i, s.instances(nodes[i].element), false)
    else nodes
  }

  /** The elements of the path element that are members of an action, in order. */
  function MembersOf(s: Space, action: int, path: seq<nat>): (r: seq<nat>)
    ensures forall e :: e in r <==> e in path && IsMember(s, action, e)
  {
    if path == [] then []
    else
      assert path == path[..|path| - 1] + [path[|path| - 1]];
      MembersOf(s, action, path[..|path| - 1]) +
        if IsMember(s, action, path[|path| - 1]) then [path[|path| - 1]] else []
  }

  function Grow(s: Space, nodes: Nodes, i: nat, path: seq<nat>): Nodes
    requires i < |nodes|
  {
    if nodes[i].children != [] then nodes
    else
      var members := MembersOf(s, nodes[i].element, path);
      if members != [] then AddAll(nodes, i, members, true) else AddAll(nodes, i, path, false)
  }

  /** The first `k` nodes expanded, one after the other. */
  function ExpandFirst(s: Space, nodes: Nodes, k: nat): (after: Nodes)
    requires k <= |nodes|
    ensures |nodes| <= |after|
  {
    if k == 0 then nodes else Expand(s, ExpandFirst(s, nodes, k - 1), k - 1)
  }

  /** One round over the nodes there are. */
  function ExpandRound(s: Space, nodes: Nodes): Nodes {
    ExpandFirst(s, nodes, |nodes|)
  }

  function GrowFirst(s: Space, nodes: Nodes, k: nat, path: seq<nat>): (after: Nodes)
    requires k <= |nodes|
    ensures |nodes| <= |after|
  {
    if k == 0 then nodes else Grow(s, GrowFirst(s, nodes, k - 1, path), k - 1, path)
  }

  function GrowAll(s: Space, nodes: Nodes, path: seq<nat>): Nodes {
    GrowFirst(s, nodes, |nodes|, path)
  }

  // ---- what one round does to the nodes there were ----

  predicate FreshLeaf(n: Node) {
    n.children == [] && !n.reference
  }

  /** New nodes are leaves and come after the old ones. */
  predicate Extends(before: Nodes, after: Nodes) {
    |before| <= |after| &&
    (forall i :: 0 <= i < |before| ==> after[i].element == before[i].element) &&
    (forall i :: |before| <= i < |after| ==> FreshLeaf(after[i]))
  }

  /** The children of a node that had none are new, and stand for `elements`. */
  predicate NewChildren(before: Nodes, after: Nodes, i: nat, elements: seq<nat>)
    requires i < |after|
  {
    |after[i].children| == |elements| &&
    forall j :: 0 <= j < |elements| ==>
      |before| <= after[i].children[j] < |after| && after[after[i].children[j]].element == elements[j]
  }

  /** The first `k` nodes have been expanded. */
  predicate ExpandedTo(s: Space, before: Nodes, after: Nodes, k: nat) {
    Extends(before, after) && k <= |before| &&
    (forall i :: |before| <= i < |after| ==> IsAction(s, after[i].element)) &&
    forall i :: 0 <= i < |before| ==>
      if i < k && Unexpanded(s, before[i]) then
        after[i].reference && NewChildren(before, after, i, s.instances(before[i].element))
      else after[i] == before[i]
  }

  lemma AddAllDoes(nodes: Nodes, parent: nat, elements: seq<nat>, member: bool)
    requires parent < |nodes| && nodes[parent].children == []
    ensures var after := AddAll(nodes, parent, elements, member);
      |after| == |nodes| + |elements| && after[parent] == nodes[parent].(children := Fresh(nodes, |elements|)) &&
      (forall i :: 0 <= i < |nodes| && i != parent ==> after[i] == nodes[i]) &&
      forall i :: |nodes| <= i < |after| ==> after[i] == Node(elements[i - |nodes|], member, false, [])
  {
    assert [] + Fresh(nodes, |elements|) == Fresh(nodes, |elements|);
  }

  lemma AddAllExtends(before: Nodes, nodes: Nodes, parent: nat, elements: seq<nat>, member: bool)
    requires Extends(before, nodes) && parent < |before| && nodes[parent].children == []
    ensures var after := AddAll(nodes, parent, elements, member);
      Extends(before, after) && NewChildren(before, after, parent, elements) && |after| == |nodes| + |elements| &&
      (forall i :: 0 <= i < |nodes| && i != parent ==> after[i] == nodes[i]) &&
      after[parent].reference == nodes[parent].reference && after[parent].member == nodes[parent].member &&
      (forall i :: |nodes| <= i < |after| ==> after[i].element == elements[i - |nodes|])
  {
    hide AddAll, Extends, NewChildren;
    FewerNodes(before, nodes);
    AddAllDoes(nodes, parent, elements, member);
    var after := AddAll(nodes, parent, elements, member);
    ExtendsMore(before, nodes, after, parent);
    FreshChildren(before, nodes, after, parent, elements);
  }

  lemma FreshChildren(before: Nodes, nodes: Nodes, after: Nodes, parent: nat, elements: seq<nat>)
    requires |before| <= |nodes| && |after| == |nodes| + |elements| && parent < |nodes|
    requires after[parent].children == Fresh(nodes, |elements|)
    requires forall i :: |nodes| <= i < |after| ==> after[i].element == elements[i - |nodes|]
    ensures NewChildren(before, after, parent, elements)
  {
  }

  lemma FewerNodes(before: Nodes, nodes: Nodes)
    requires Extends(before, nodes)
    ensures |before| <= |nodes|
  {
  }

  lemma ExtendsMore(before: Nodes, nodes: Nodes, after: Nodes, parent: nat)
    requires Extends(before, nodes) && |nodes| <= |after| && parent < |before|
    requires after[parent].element == nodes[parent].element &&
        forall i :: 0 <= i < |nodes| && i != parent ==> after[i] == nodes[i]
    requires forall i :: |nodes| <= i < |after| ==> FreshLeaf(after[i])
    ensures Extends(before, after)
  {
  }

  lemma ExpandStep(s: Space, before: Nodes, nodes: Nodes, k: nat)
    requires WellFormedSpace(s) && ExpandedTo(s, before, nodes, k) && k < |before|
    ensures ExpandedTo(s, before, Expand(s, nodes, k), k + 1)
  {
    if Unexpanded(s, nodes[k]) {
      var marked := nodes[k := nodes[k].(reference := true)];
      AddAllExtends(before, marked, k, s.instances(nodes[k].element), false);
    }
  }

  lemma {:induction false} ExpandFirstDoes(s: Space, nodes: Nodes, k: nat)
    requires WellFormedSpace(s) && k <= |nodes|
    ensures ExpandedTo(s, nodes, ExpandFirst(s, nodes, k), k)
  {
    hide Expand, WellFormedSpace;
    if k > 0 {
      ExpandFirstDoes(s, nodes, k - 1);
      ExpandStep(s, nodes, ExpandFirst(s, nodes, k - 1), k - 1);
    }
  }

  /** What a path element puts below a leaf: the members of its action, or all there is. */
  function Growth(s: Space, action: int, path: seq<nat>): (es: seq<nat>)
    ensures path != [] ==> es != []
    ensures forall e :: e in es ==> e in path
    ensures (forall e :: e in es ==> IsMember(s, action, e)) || (forall e :: e in path ==> !IsMember(s, action, e))
    ensures forall e :: e in path && (IsMember(s, action, e) || forall x :: x in path ==> !IsMember(s, action, x)) ==>
      e in es
  {
    var members := MembersOf(s, action, path);
    assert forall e :: e in path && IsMember(s, action, e) ==> e in members;
    assert members != [] ==> members[0] in members;
    if members != [] then members else path
  }

  predicate GrownAt(s: Space, before: Nodes, after: Nodes, i: nat, k: nat, path: seq<nat>)
    requires i < |before| <= |after|
  {
    if i < k && before[i].children == [] then
      after[i].reference == before[i].reference && NewChildren(before, after, i, Growth(s, before[i].element, path))
    else after[i] == before[i]
  }

  /** The first `k` nodes have grown by one path element. */
  predicate GrownTo(s: Space, before: Nodes, after: Nodes, k: nat, path: seq<nat>) {
    Extends(before, after) && k <= |before| && forall i :: 0 <= i < |before| ==> GrownAt(s, before, after, i, k, path)
  }

  lemma GrowStep(s: Space, before: Nodes, nodes: Nodes, k: nat, path: seq<nat>)
    requires GrownTo(s, before, nodes, k, path) && k < |before|
    ensures GrownTo(s, before, Grow(s, nodes, k, path), k + 1, path)
    ensures nodes[k] == before[k]
  {
    assert GrownAt(s, before, nodes, k, k, path);
    var after, next := Grow(s, nodes, k, path), k + 1;
    if nodes[k].children == [] {
      var es, member := Growth(s, nodes[k].element, path), MembersOf(s, nodes[k].element, path) != [];
      assert after == AddAll(nodes, k, es, member);
      AddAllExtends(before, nodes, k, es, member);
      forall i | 0 <= i < |before| ensures GrownAt(s, before, after, i, next, path) {
        assert GrownAt(s, before, nodes, i, k, path);
        if i < k && before[i].children == [] {
          NewChildrenStay(before, nodes, after, i, Growth(s, before[i].element, path));
        }
      }
    } else {
      forall i | 0 <= i < |before| ensures GrownAt(s, before, after, i, next, path) {
        assert GrownAt(s, before, nodes, i, k, path);
      }
    }
  }

  lemma {:induction false} GrowFirstDoes(s: Space, nodes: Nodes, k: nat, path: seq<nat>)
    requires k <= |nodes|
    ensures GrownTo(s, nodes, GrowFirst(s, nodes, k, path), k, path)
  {
    if k == 0 {
      forall i | 0 <= i < |nodes| ensures GrownAt(s, nodes, nodes, i, 0, path) {
      }
    } else {
      GrowFirstDoes(s, nodes, k - 1, path);
      GrowStep(s, nodes, GrowFirst(s, nodes, k - 1, path), k - 1, path);
    }
  }

  lemma NewChildrenStay(before: Nodes, mid: Nodes, after: Nodes, i: nat, elements: seq<nat>)
    requires i < |mid| <= |after| && after[i] == mid[i] && NewChildren(before, mid, i, elements)
    requires forall j :: |before| <= j < |mid| ==> after[j].element == mid[j].element
    ensures NewChildren(before, after, i, elements)
  {
  }

  // ---- the shape ----

  /** Children come after their parents. */
  predicate Ordered(nodes: Nodes) {
    forall i :: 0 <= i < |nodes| ==> OrderedAt(nodes, i)
  }

  predicate OrderedAt(nodes: Nodes, i: nat)
    requires i < |nodes|
  {
    forall j :: 0 <= j < |nodes[i].children| ==> i < nodes[i].children[j] < |nodes|
  }

  /** From node `i` every way down has one node for every element of `path`, found among that
      element: a member of the action before it, where the element has any; and between them
      dereferences, only after dimensions that refer, to all instances they refer to. */
  predicate Shaped(s: Space, nodes: Nodes, i: nat, path: seq<seq<nat>>)
    requires Ordered(nodes) && i < |nodes|
    decreases |nodes| - i
  {
    var n := nodes[i];
    assert OrderedAt(nodes, i);
    if n.children == [] then path == [] && !n.reference
    else if n.reference then
      IsReference(s, n.element) && Refers(nodes, n.children, s.instances(n.element)) &&
      forall j :: 0 <= j < |n.children| ==>
        IsAction(s, nodes[n.children[j]].element) && !nodes[n.children[j]].reference &&
          Shaped(s, nodes, n.children[j], path)
    else
      path != [] && IsAction(s, n.element) && FromElement(s, nodes, i, path[0]) &&
      forall j :: 0 <= j < |n.children| ==> Shaped(s, nodes, n.children[j], path[1..])
  }

  /** The children stand for the elements, one after the other. */
  predicate Refers(nodes: Nodes, children: seq<nat>, elements: seq<nat>) {
    |children| == |elements| &&
      forall j :: 0 <= j < |children| ==> children[j] < |nodes| && nodes[children[j]].element == elements[j]
  }

  predicate FromElement(s: Space, nodes: Nodes, i: nat, element: seq<nat>)
    requires Ordered(nodes) && i < |nodes|
  {
    var n := nodes[i];
    assert OrderedAt(nodes, i);
    (forall j :: 0 <= j < |n.children| ==> nodes[n.children[j]].element in element) &&
    ((forall j :: 0 <= j < |n.children| ==> IsMember(s, n.element, nodes[n.children[j]].element)) ||
     (forall x :: x in element ==> !IsMember(s, n.element, x)))
  }

  /** The whole tree: the contexts below the root, and the path below each of them. */
  predicate Resolved(s: Space, nodes: Nodes, context: seq<nat>, path: seq<seq<nat>>) {
    Ordered(nodes) && nodes != [] && nodes[0].element == -1 && nodes[0].reference && nodes[0].children != [] &&
    OrderedAt(nodes, 0) && Refers(nodes, nodes[0].children, context) &&
    forall j :: 0 <= j < |nodes[0].children| ==>
      IsAction(s, nodes[nodes[0].children[j]].element) && !nodes[nodes[0].children[j]].reference &&
        Shaped(s, nodes, nodes[0].children[j], path)
  }

  lemma ExtendsOrdered(s: Space, before: Nodes, after: Nodes, path: seq<nat>)
    requires Ordered(before) && (ExpandedTo(s, before, after, |before|) || GrownTo(s, before, after, |before|, path))
    ensures Ordered(after)
  {
    forall i | 0 <= i < |after| ensures OrderedAt(after, i) {
      if i < |before| {
        assert OrderedAt(before, i);
        if GrownTo(s, before, after, |before|, path) { assert GrownAt(s, before, after, i, |before|, path); }
      } else {
        assert FreshLeaf(after[i]);
      }
    }
  }

  /** Expanding references leaves every way down as it was, but for the dereferences. */
  lemma {:induction false} ExpandShaped(s: Space, before: Nodes, after: Nodes, i: nat, path: seq<seq<nat>>)
    requires WellFormedSpace(s) && Expandable(s, before) && Ordered(before) && Ordered(after) &&
        ExpandedTo(s, before, after, |before|)
    requires i < |before| && Shaped(s, before, i, path)
    ensures Shaped(s, after, i, path) && (IsAction(s, before[i].element) ==> after[i].reference == before[i].reference)
    decreases |before| - i
  {
    var n := before[i];
    assert OrderedAt(before, i) && OrderedAt(after, i);
    if Unexpanded(s, n) {
      assert NewChildren(before, after, i, s.instances(n.element));
      forall j | 0 <= j < |after[i].children|
        ensures IsAction(s, after[after[i].children[j]].element) && Shaped(s, after, after[i].children[j], path) &&
            !after[after[i].children[j]].reference
      {
        assert FreshLeaf(after[after[i].children[j]]);
      }
    } else if n.children != [] {
      assert after[i] == n;
      forall j | 0 <= j < |n.children|
        ensures Shaped(s, after, n.children[j], if n.reference then path else path[1..])
        ensures n.reference ==> !after[n.children[j]].reference
      {
        ExpandShaped(s, before, after, n.children[j], if n.reference then path else path[1..]);
      }
      if !n.reference { FromElementKept(s, before, after, i, path[0]); }
    }
  }

  lemma FromElementKept(s: Space, before: Nodes, after: Nodes, i: nat, element: seq<nat>)
    requires Ordered(before) && Ordered(after) && Extends(before, after) && i < |before| && after[i] == before[i]
    requires FromElement(s, before, i, element)
    ensures FromElement(s, after, i, element)
  {
    assert OrderedAt(before, i) && OrderedAt(after, i);
    assert forall j :: 0 <= j < |before[i].children| ==>
      after[before[i].children[j]].element == before[before[i].children[j]].element;
  }

  /** All leaves are actions, as growing demands. */
  predicate Growable(s: Space, nodes: Nodes) {
    forall i :: 0 <= i < |nodes| && nodes[i].children == [] ==> IsAction(s, nodes[i].element)
  }

  /** Growing makes every way down longer by the new path element. */
  lemma {:induction false} GrowShaped(s: Space, before: Nodes, after: Nodes, element: seq<nat>, i: nat,
          path: seq<seq<nat>>)
    requires Ordered(before) && Ordered(after) && GrownTo(s, before, after, |before|, element) && element != [] &&
        Growable(s, before)
    requires i < |before| && Shaped(s, before, i, path)
    ensures Shaped(s, after, i, path + [element]) && after[i].reference == before[i].reference
    decreases |before| - i
  {
    var n := before[i];
    assert OrderedAt(before, i) && OrderedAt(after, i);
    var more := path + [element];
    if n.children == [] {
      var es := Growth(s, n.element, element);
      assert GrownAt(s, before, after, i, |before|, element);
      assert NewChildren(before, after, i, es);
      forall j | 0 <= j < |after[i].children|
        ensures Shaped(s, after, after[i].children[j], more[1..]) && after[after[i].children[j]].element == es[j]
      {
        assert FreshLeaf(after[after[i].children[j]]);
      }
      assert forall j :: 0 <= j < |es| ==> es[j] in es;
      assert FromElement(s, after, i, element);
    } else {
      assert GrownAt(s, before, after, i, |before|, element);
      var rest := if n.reference then path else path[1..];
      forall j | 0 <= j < |n.children|
        ensures Shaped(s, after, n.children[j], rest + [element]) &&
            after[n.children[j]].reference == before[n.children[j]].reference
      {
        GrowShaped(s, before, after, element, n.children[j], rest);
      }
      if !n.reference {
        assert more[1..] == rest + [element] && more[0] == path[0];
        FromElementKept(s, before, after, i, path[0]);
      }
    }
  }

  // ---- pruning ----

  /** Whether the node is marked a member once everything below it has been pruned. */
  predicate PrunedMember(nodes: Nodes, i: nat)
    requires Ordered(nodes) && i < |nodes|
    decreases |nodes| - i
  {
    assert OrderedAt(nodes, i);
    nodes[i].member || exists j :: 0 <= j < |nodes[i].children| && PrunedMember(nodes, nodes[i].children[j])
  }

  predicate NodesOf(nodes: Nodes, cs: seq<nat>) {
    forall j :: 0 <= j < |cs| ==> cs[j] < |nodes|
  }

  /** The members among `cs`, in order. */
  function Best(nodes: Nodes, cs: seq<nat>): (best: seq<nat>)
    requires Ordered(nodes) && NodesOf(nodes, cs)
    ensures forall x :: x in best <==> x in cs && x < |nodes| && PrunedMember(nodes, x)
  {
    if cs == [] then []
    else
      assert cs == cs[..|cs| - 1] + [cs[|cs| - 1]];
      Best(nodes, cs[..|cs| - 1]) + if PrunedMember(nodes, cs[|cs| - 1]) then [cs[|cs| - 1]] else []
  }

  /** A reference keeps its children; any other node keeps the members only, where there are any. */
  function Kept(nodes: Nodes, i: nat): (cs: seq<nat>)
    requires Ordered(nodes) && i < |nodes|
  {
    assert OrderedAt(nodes, i);
    var best := Best(nodes, nodes[i].children);
    if nodes[i].reference || best == [] then nodes[i].children else best
  }

  /** What pruning makes of a node that it visits. */
  function Final(nodes: Nodes, i: nat): Node
    requires Ordered(nodes) && i < |nodes|
  {
    nodes[i].(member := PrunedMember(nodes, i), children := Kept(nodes, i))
  }

  /** Nothing is looked at below a reference that is marked a member already. */
  predicate GoesBelow(n: Node) {
    n.children != [] && !(n.reference && n.member)
  }

  ghost function Visited(nodes: Nodes, i: nat): (v: set<nat>)
    requires Ordered(nodes) && i < |nodes|
    ensures forall k :: k in v ==> i <= k < |nodes|
    decreases |nodes| - i, |nodes[i].children| + 1
  {
    {i} + if GoesBelow(nodes[i]) then VisitedBelow(nodes, i, |nodes[i].children|) else {}
  }

  ghost function VisitedBelow(nodes: Nodes, i: nat, j: nat): (v: set<nat>)
    requires Ordered(nodes) && i < |nodes| && j <= |nodes[i].children|
    ensures forall k :: k in v ==> i < k < |nodes|
    decreases |nodes| - i, j
  {
    assert OrderedAt(nodes, i);
    if j == 0 then {} else VisitedBelow(nodes, i, j - 1) + Visited(nodes, nodes[i].children[j - 1])
  }

  /** The nodes in `v` pruned, all others as they were. */
  ghost function PruneOnly(nodes: Nodes, v: set<nat>): (after: Nodes)
    requires Ordered(nodes)
    ensures |after| == |nodes|
  {
    seq(|nodes|, k requires 0 <= k < |nodes| => if k in v then Final(nodes, k) else nodes[k])
  }

  /** `pruneBranches` from node `i` down. */
  ghost function Prune(nodes: Nodes, i: nat): (after: Nodes)
    requires Ordered(nodes) && i < |nodes|
    ensures |after| == |nodes|
  {
    PruneOnly(nodes, Visited(nodes, i))
  }

  /** What is visited below is visited too. */
  ghost predicate Closed(nodes: Nodes, v: set<nat>) {
    forall k, x :: k in v && k < |nodes| && GoesBelow(nodes[k]) && x in nodes[k].children ==> x in v
  }

  lemma {:induction false} VisitedClosed(nodes: Nodes, i: nat)
    requires Ordered(nodes) && i < |nodes|
    ensures Closed(nodes, Visited(nodes, i))
    decreases |nodes| - i, |nodes[i].children| + 1
  {
    if GoesBelow(nodes[i]) {
      VisitedBelowClosed(nodes, i, |nodes[i].children|);
      assert nodes[i].children[..|nodes[i].children|] == nodes[i].children;
    }
  }

  lemma {:induction false} VisitedBelowClosed(nodes: Nodes, i: nat, j: nat)
    requires Ordered(nodes) && i < |nodes| && j <= |nodes[i].children|
    ensures Closed(nodes, VisitedBelow(nodes, i, j)) &&
        forall x :: x in nodes[i].children[..j] ==> x in VisitedBelow(nodes, i, j)
    decreases |nodes| - i, j
  {
    assert OrderedAt(nodes, i);
    if j > 0 {
      VisitedBelowClosed(nodes, i, j - 1);
      VisitedClosed(nodes, nodes[i].children[j - 1]);
      assert nodes[i].children[..j] == nodes[i].children[..j - 1] + [nodes[i].children[j - 1]];
    }
  }

  lemma {:induction false} VisitedInside(nodes: Nodes, v: set<nat>, i: nat)
    requires Ordered(nodes) && i < |nodes| && i in v && Closed(nodes, v)
    ensures Visited(nodes, i) <= v
    decreases |nodes| - i, |nodes[i].children| + 1
  {
    if GoesBelow(nodes[i]) { VisitedBelowInside(nodes, v, i, |nodes[i].children|); }
  }

  lemma {:induction false} VisitedBelowInside(nodes: Nodes, v: set<nat>, i: nat, j: nat)
    requires Ordered(nodes) && i < |nodes| && i in v && Closed(nodes, v) && GoesBelow(nodes[i]) &&
        j <= |nodes[i].children|
    ensures VisitedBelow(nodes, i, j) <= v
    decreases |nodes| - i, j
  {
    assert OrderedAt(nodes, i);
    if j > 0 {
      VisitedBelowInside(nodes, v, i, j - 1);
      VisitedInside(nodes, v, nodes[i].children[j - 1]);
    }
  }

  // ---- pruning some nodes changes nothing for the others ----

  lemma PruneOnlyOrdered(nodes: Nodes, v: set<nat>)
    requires Ordered(nodes)
    ensures Ordered(PruneOnly(nodes, v))
  {
    var after := PruneOnly(nodes, v);
    forall i | 0 <= i < |after| ensures OrderedAt(after, i) {
      assert OrderedAt(nodes, i);
      forall j | 0 <= j < |after[i].children| ensures i < after[i].children[j] < |after| {
        assert after[i].children[j] in after[i].children;
      }
    }
  }

  lemma {:induction false} NoneBest(nodes: Nodes, cs: seq<nat>)
    requires Ordered(nodes) && NodesOf(nodes, cs) && forall j :: 0 <= j < |cs| ==> !PrunedMember(nodes, cs[j])
    ensures Best(nodes, cs) == []
  {
    if cs != [] { NoneBest(nodes, cs[..|cs| - 1]); }
  }

  lemma {:induction false} MemberStays(nodes: Nodes, v: set<nat>, i: nat)
    requires Ordered(nodes) && i < |nodes| && Ordered(PruneOnly(nodes, v))
    ensures PrunedMember(PruneOnly(nodes, v), i) == PrunedMember(nodes, i)
    decreases |nodes| - i
  {
    var after := PruneOnly(nodes, v);
    assert OrderedAt(nodes, i) && OrderedAt(after, i);
    if i in v && PrunedMember(nodes, i) {
    } else {
      if i in v { NoneBest(nodes, nodes[i].children); }
      assert after[i].children == nodes[i].children;
      forall j | 0 <= j < |nodes[i].children|
        ensures PrunedMember(after, nodes[i].children[j]) == PrunedMember(nodes, nodes[i].children[j])
      {
        MemberStays(nodes, v, nodes[i].children[j]);
      }
    }
  }

  lemma {:induction false} BestStays(nodes: Nodes, v: set<nat>, cs: seq<nat>)
    requires Ordered(nodes) && NodesOf(nodes, cs) && Ordered(PruneOnly(nodes, v))
    ensures Best(PruneOnly(nodes, v), cs) == Best(nodes, cs)
  {
    if cs != [] {
      BestStays(nodes, v, cs[..|cs| - 1]);
      MemberStays(nodes, v, cs[|cs| - 1]);
    }
  }

  lemma {:induction false} BestOfMembers(nodes: Nodes, cs: seq<nat>)
    requires Ordered(nodes) && NodesOf(nodes, cs) && forall x :: x in cs ==> x < |nodes| && PrunedMember(nodes, x)
    ensures Best(nodes, cs) == cs
  {
    if cs != [] {
      var n := |cs| - 1;
      assert cs == cs[..n] + [cs[n]];
      BestOfMembers(nodes, cs[..n]);
      BestSnoc(nodes, cs);
    }
  }

  lemma BestSnoc(nodes: Nodes, cs: seq<nat>)
    requires Ordered(nodes) && NodesOf(nodes, cs) && cs != [] && PrunedMember(nodes, cs[|cs| - 1])
    ensures Best(nodes, cs) == Best(nodes, cs[..|cs| - 1]) + [cs[|cs| - 1]]
  {
  }

  lemma FinalStays(nodes: Nodes, v: set<nat>, i: nat)
    requires Ordered(nodes) && i < |nodes| && Ordered(PruneOnly(nodes, v))
    ensures Final(PruneOnly(nodes, v), i) == Final(nodes, i)
  {
    var after := PruneOnly(nodes, v);
    assert OrderedAt(nodes, i) && OrderedAt(after, i);
    var best := Best(nodes, nodes[i].children);
    MemberStays(nodes, v, i);
    forall j | 0 <= j < |best| ensures best[j] < |nodes| {
      assert best[j] in best;
    }
    BestOfMembers(nodes, best);
    BestStays(nodes, v, nodes[i].children);
    BestStays(nodes, v, best);
  }

  lemma {:induction false} VisitedStays(nodes: Nodes, v: set<nat>, i: nat)
    requires Ordered(nodes) && i < |nodes| && Ordered(PruneOnly(nodes, v)) && Closed(nodes, v)
    ensures v + Visited(PruneOnly(nodes, v), i) == v + Visited(nodes, i)
    decreases |nodes| - i, |nodes[i].children| + 1
  {
    var after := PruneOnly(nodes, v);
    if i in v {
      VisitedInside(nodes, v, i);
      PrunedClosed(nodes, v);
      VisitedInside(after, v, i);
    } else if GoesBelow(nodes[i]) {
      VisitedBelowStays(nodes, v, i, |nodes[i].children|);
    }
  }

  lemma {:induction false} VisitedBelowStays(nodes: Nodes, v: set<nat>, i: nat, j: nat)
    requires Ordered(nodes) && i < |nodes| && Ordered(PruneOnly(nodes, v)) && Closed(nodes, v) && i !in v &&
        j <= |nodes[i].children|
    ensures v + VisitedBelow(PruneOnly(nodes, v), i, j) == v + VisitedBelow(nodes, i, j)
    decreases |nodes| - i, j
  {
    assert OrderedAt(nodes, i);
    if j > 0 {
      VisitedBelowStays(nodes, v, i, j - 1);
      VisitedStays(nodes, v, nodes[i].children[j - 1]);
    }
  }

  lemma PrunedClosed(nodes: Nodes, v: set<nat>)
    requires Ordered(nodes) && Closed(nodes, v)
    ensures Closed(PruneOnly(nodes, v), v)
  {
    var after := PruneOnly(nodes, v);
    forall k, x | k in v && k < |after| && GoesBelow(after[k]) && x in after[k].children ensures x in v {
      assert OrderedAt(nodes, k) && x in nodes[k].children && GoesBelow(nodes[k]);
    }
  }

  /** Pruning some nodes and then from another one down is pruning both from the start. */
  lemma PruneMore(nodes: Nodes, v: set<nat>, i: nat)
    requires Ordered(nodes) && i < |nodes| && Closed(nodes, v)
    ensures Ordered(PruneOnly(nodes, v)) && Prune(PruneOnly(nodes, v), i) == PruneOnly(nodes, v + Visited(nodes, i))
  {
    PruneOnlyOrdered(nodes, v);
    VisitedStays(nodes, v, i);
    var mid := PruneOnly(nodes, v);
    var after, all := Prune(mid, i), PruneOnly(nodes, v + Visited(nodes, i));
    forall k | 0 <= k < |nodes| ensures after[k] == all[k] {
      FinalStays(nodes, v, k);
      assert k in v + Visited(nodes, i) <==> k in v || k in Visited(mid, i);
    }
  }

  /** Which children are left, of any node that pruning visits: of a reference all, of another node
      exactly those that are marked members, if any is, and otherwise all. A node is marked a member
      exactly if it was one or some child is. Nodes that are not visited are as they were. */
  lemma PruneExact(nodes: Nodes, i: nat, k: nat)
    requires Ordered(nodes) && i < |nodes| && k < |nodes|
    ensures var after := Prune(nodes, i);
      Ordered(after) &&
      if k !in Visited(nodes, i) then after[k] == nodes[k]
      else
        && after[k].element == nodes[k].element && after[k].reference == nodes[k].reference
        && (nodes[k].children != [] && !(nodes[k].reference && nodes[k].member) ==>
              forall x :: x in nodes[k].children ==> x in Visited(nodes, i))
        && (nodes[k].children != [] && !(nodes[k].reference && nodes[k].member) ==>
              (after[k].member <==>
                nodes[k].member || exists x :: x in nodes[k].children && x < |nodes| && after[x].member))
        && (nodes[k].reference ==> after[k].children == nodes[k].children)
        && (!nodes[k].reference ==> forall x :: x in after[k].children <==>
              x in nodes[k].children && x < |nodes| &&
                (after[x].member || forall y :: y in nodes[k].children && y < |nodes| ==> !after[y].member))
  {
    var after := Prune(nodes, i);
    PruneOnlyOrdered(nodes, Visited(nodes, i));
    VisitedClosed(nodes, i);
    if k in Visited(nodes, i) {
      assert OrderedAt(nodes, k);
      if GoesBelow(nodes[k]) {
        forall x | x in nodes[k].children ensures x in Visited(nodes, i) && x < |nodes| &&
          after[x].member == PrunedMember(nodes, x) {
        }
        if PrunedMember(nodes, k) && !nodes[k].member {
          var j :| 0 <= j < |nodes[k].children| && PrunedMember(nodes, nodes[k].children[j]);
          assert nodes[k].children[j] in nodes[k].children;
        }
      }
      var best := Best(nodes, nodes[k].children);
      if best != [] { assert best[0] in best; }
    }
  }

  // ---- pruning keeps the shape ----

  /** Some children may have been cut off, never all of them; what is left where some were cut
      are members, and whoever was a member still is. */
  predicate Pruned(before: Nodes, after: Nodes) {
    |after| == |before| && forall i :: 0 <= i < |before| ==> PrunedAt(before, after, i)
  }

  predicate PrunedAt(before: Nodes, after: Nodes, i: nat)
    requires i < |before| == |after|
  {
    var b, a := before[i], after[i];
    a.element == b.element && a.reference == b.reference &&
    (a.children == [] <==> b.children == []) &&
    (forall j :: 0 <= j < |a.children| ==> a.children[j] in b.children) &&
    (b.reference ==> a.children == b.children)
  }

  lemma PruneIsPruned(nodes: Nodes, i: nat)
    requires Ordered(nodes) && i < |nodes|
    ensures Pruned(nodes, Prune(nodes, i)) && Ordered(Prune(nodes, i))
  {
    var after := Prune(nodes, i);
    PruneOnlyOrdered(nodes, Visited(nodes, i));
    forall k | 0 <= k < |nodes| ensures PrunedAt(nodes, after, k) {
      assert OrderedAt(nodes, k);
      forall j | 0 <= j < |after[k].children| ensures after[k].children[j] in nodes[k].children {
        assert after[k].children[j] in after[k].children;
      }
    }
  }

  lemma PrunedChild(before: Nodes, after: Nodes, i: nat, j: nat) returns (k: nat)
    requires Pruned(before, after) && i < |before| && j < |after[i].children|
    ensures k < |before[i].children| && before[i].children[k] == after[i].children[j]
  {
    assert PrunedAt(before, after, i);
    k :| 0 <= k < |before[i].children| && before[i].children[k] == after[i].children[j];
  }

  /** Pruning keeps every way down that is left as long as it was, and creates no leaf. */
  lemma {:induction false} PruneShaped(s: Space, before: Nodes, after: Nodes, i: nat, path: seq<seq<nat>>)
    requires Ordered(before) && Ordered(after) && Pruned(before, after) && i < |before| && Shaped(s, before, i, path)
    ensures Shaped(s, after, i, path)
    decreases |before| - i
  {
    assert PrunedAt(before, after, i) && OrderedAt(before, i) && OrderedAt(after, i);
    var n, m := before[i], after[i];
    var rest := if n.reference || path == [] then path else path[1..];
    forall j | 0 <= j < |m.children|
      ensures Shaped(s, after, m.children[j], rest)
      ensures exists k ::
        0 <= k < |n.children| && n.children[k] == m.children[j] &&
        after[m.children[j]].element == before[n.children[k]].element &&
        after[m.children[j]].reference == before[n.children[k]].reference
    {
      var k := PrunedChild(before, after, i, j);
      PruneShaped(s, before, after, n.children[k], rest);
      assert PrunedAt(before, after, n.children[k]);
    }
    if n.reference {
      forall j | 0 <= j < |m.children| ensures after[m.children[j]].element == before[m.children[j]].element {
        assert PrunedAt(before, after, m.children[j]);
      }
    }
  }

  lemma PruneResolved(s: Space, before: Nodes, context: seq<nat>, path: seq<seq<nat>>)
    requires Resolved(s, before, context, path)
    ensures Resolved(s, Prune(before, 0), context, path)
  {
    var after := Prune(before, 0);
    PruneIsPruned(before, 0);
    assert PrunedAt(before, after, 0) && OrderedAt(before, 0) && OrderedAt(after, 0);
    forall j | 0 <= j < |after[0].children|
      ensures var c := after[0].children[j];
          IsAction(s, after[c].element) && !after[c].reference && Shaped(s, after, c, path)
    {
      var k := PrunedChild(before, after, 0, j);
      assert PrunedAt(before, after, before[0].children[k]);
      PruneShaped(s, before, after, before[0].children[k], path);
    }
  }

  lemma PrunedExpanded(s: Space, before: Nodes)
    requires Ordered(before) && before != [] && AllExpanded(s, before)
    ensures AllExpanded(s, Prune(before, 0))
  {
    var after := Prune(before, 0);
    PruneIsPruned(before, 0);
    forall i | 0 <= i < |after| ensures !Unexpanded(s, after[i]) {
      assert PrunedAt(before, after, i);
    }
  }

  // ---- when expansion ends ----

  /** After one round nothing is left to expand exactly when every dimension that was left had an
      instance; and whether every dimension that is left has one does not change. */
  lemma RoundExact(s: Space, nodes: Nodes)
    requires WellFormedSpace(s)
    ensures AllExpanded(s, ExpandRound(s, nodes)) <==> Expandable(s, nodes)
    ensures Expandable(s, ExpandRound(s, nodes)) <==> Expandable(s, nodes)
  {
    var after := ExpandRound(s, nodes);
    ExpandFirstDoes(s, nodes, |nodes|);
    forall i | 0 <= i < |nodes| && Unexpanded(s, nodes[i])
      ensures after[i].element == nodes[i].element && (Unexpanded(s, after[i]) <==> s.instances(nodes[i].element) == [])
    {
      assert NewChildren(nodes, after, i, s.instances(nodes[i].element));
    }
  }

  function Rounds(s: Space, nodes: Nodes, n: nat): Nodes {
    if n == 0 then nodes else ExpandRound(s, Rounds(s, nodes, n - 1))
  }

  /** A dimension whose type has no instances is as unexpanded after any number of rounds as before. */
  lemma {:induction false} EmptyTypeNeverExpands(s: Space, nodes: Nodes, i: nat, n: nat)
    requires WellFormedSpace(s) && i < |nodes| && Empty(s, nodes[i])
    ensures var after := Rounds(s, nodes, n);
      i < |after| && after[i].element == nodes[i].element && Unexpanded(s, after[i]) && !AllExpanded(s, after)
  {
    if n > 0 {
      var before := Rounds(s, nodes, n - 1);
      EmptyTypeNeverExpands(s, nodes, i, n - 1);
      ExpandFirstDoes(s, before, |before|);
      assert NewChildren(before, ExpandRound(s, before), i, []);
    }
  }

  ghost predicate Ends(s: Space, nodes: Nodes) {
    exists n :: AllExpanded(s, Rounds(s, nodes, n))
  }

  /** So the rounds come to an end exactly when every dimension left to expand has an instance. */
  lemma ExpansionEnds(s: Space, nodes: Nodes)
    requires WellFormedSpace(s)
    ensures Ends(s, nodes) <==> Expandable(s, nodes)
  {
    if Expandable(s, nodes) {
      RoundExact(s, nodes);
      assert Rounds(s, nodes, 0) == nodes;
      assert AllExpanded(s, Rounds(s, nodes, 1));
    } else {
      var i :| 0 <= i < |nodes| && Empty(s, nodes[i]);
      forall n: nat ensures !AllExpanded(s, Rounds(s, nodes, n)) {
        EmptyTypeNeverExpands(s, nodes, i, n);
      }
    }
  }

  lemma {:induction false} NothingToExpand(s: Space, nodes: Nodes, k: nat)
    requires AllExpanded(s, nodes) && k <= |nodes|
    ensures ExpandFirst(s, nodes, k) == nodes
  {
    if k > 0 { NothingToExpand(s, nodes, k - 1); }
  }

  // ---- resolution, as a function ----

  datatype Outcome = Done | AfterDimension | Endless

  type Resolving = (Outcome, Nodes)

  function Start(context: seq<nat>): Nodes {
    AddAll([Node(-1, false, true, [])], 0, context, false)
  }

  /** One path element: refused where a dimension cannot be expanded, or is left as a leaf. */
  ghost function Extend(s: Space, nodes: Nodes, element: seq<nat>): (r: Resolving)
    requires WellFormedSpace(s) && Ordered(nodes) && nodes != []
    ensures Ordered(r.1) && r.1 != []
  {
    if !Expandable(s, nodes) then (Endless, nodes)
    else
      var expanded := ExpandRound(s, nodes);
      RoundsOrdered(s, nodes, element);
      if !Growable(s, expanded) then (AfterDimension, expanded)
      else
        var grown := GrowAll(s, expanded, element);
        PruneOnlyOrdered(grown, Visited(grown, 0));
        (Done, Prune(grown, 0))
  }

  /** The path elements one after the other. */
  ghost function ResolveTo(s: Space, context: seq<nat>, typePath: seq<seq<nat>>): (r: Resolving)
    requires WellFormedSpace(s)
    ensures Ordered(r.1) && r.1 != []
  {
    if typePath == [] then
      StartOrdered(context);
      (Done, Start(context))
    else
      var before := ResolveTo(s, context, typePath[..|typePath| - 1]);
      if !before.0.Done? then before else Extend(s, before.1, typePath[|typePath| - 1])
  }

  /** With dereferences after the last path element too, where they are asked for. */
  ghost function ResolveAll(s: Space, context: seq<nat>, typePath: seq<seq<nat>>, expandFinal: bool): (r: Resolving)
    requires WellFormedSpace(s)
    ensures Ordered(r.1) && r.1 != []
  {
    var r := ResolveTo(s, context, typePath);
    if !r.0.Done? || !expandFinal then r
    else if !Expandable(s, r.1) then (Endless, r.1)
    else
      var expanded := ExpandRound(s, r.1);
      RoundsOrdered(s, r.1, []);
      PruneOnlyOrdered(expanded, Visited(expanded, 0));
      (Done, Prune(expanded, 0))
  }

  lemma StartOrdered(context: seq<nat>)
    ensures Ordered(Start(context)) && Start(context) != []
  {
    var nodes := Start(context);
    forall i | 0 <= i < |nodes| ensures OrderedAt(nodes, i) {
    }
  }

  lemma RoundsOrdered(s: Space, nodes: Nodes, element: seq<nat>)
    requires WellFormedSpace(s) && Ordered(nodes)
    ensures var expanded := ExpandRound(s, nodes);
      Ordered(expanded) && Ordered(GrowAll(s, expanded, element)) && ExpandedTo(s, nodes, expanded, |nodes|) &&
      |nodes| <= |expanded| <= |GrowAll(s, expanded, element)|
  {
    var expanded := ExpandRound(s, nodes);
    ExpandFirstDoes(s, nodes, |nodes|);
    ExtendsOrdered(s, nodes, expanded, []);
    GrowFirstDoes(s, expanded, |expanded|, element);
    ExtendsOrdered(s, expanded, GrowAll(s, expanded, element), element);
  }

  /** Where nothing is refused, every way from the root is one context and one node for every path
      element, with dereferences to all instances after the dimensions that refer. */
  lemma {:induction false} ResolveToShaped(s: Space, context: seq<nat>, typePath: seq<seq<nat>>)
    requires WellFormedSpace(s) && context != [] && forall i :: 0 <= i < |context| ==> IsAction(s, context[i])
    requires forall i :: 0 <= i < |typePath| ==> typePath[i] != []
    ensures var r := ResolveTo(s, context, typePath); r.0.Done? ==> Resolved(s, r.1, context, typePath)
  {
    if typePath == [] {
      StartResolved(s, context);
    } else {
      var n := |typePath| - 1;
      var before := ResolveTo(s, context, typePath[..n]);
      ResolveToShaped(s, context, typePath[..n]);
      assert typePath == typePath[..n] + [typePath[n]];
      if before.0.Done? && Extend(s, before.1, typePath[n]).0.Done? {
        var expanded := ExpandRound(s, before.1);
        var grown := GrowAll(s, expanded, typePath[n]);
        ExpandResolved(s, before.1, context, typePath[..n]);
        GrowResolved(s, expanded, typePath[n], context, typePath[..n]);
        PruneResolved(s, grown, context, typePath);
      }
    }
  }

  lemma ResolutionTheorem(s: Space, context: seq<nat>, typePath: seq<seq<nat>>, expandFinal: bool)
    requires WellFormedSpace(s) && context != [] && forall i :: 0 <= i < |context| ==> IsAction(s, context[i])
    requires forall i :: 0 <= i < |typePath| ==> typePath[i] != []
    ensures var r := ResolveAll(s, context, typePath, expandFinal);
      r.0.Done? ==> Resolved(s, r.1, context, typePath) && (expandFinal ==> AllExpanded(s, r.1))
  {
    var r := ResolveTo(s, context, typePath);
    ResolveToShaped(s, context, typePath);
    if r.0.Done? && expandFinal && Expandable(s, r.1) {
      RoundsOrdered(s, r.1, []);
      ExpandResolved(s, r.1, context, typePath);
      PruneResolved(s, ExpandRound(s, r.1), context, typePath);
      RoundExact(s, r.1);
      PrunedExpanded(s, ExpandRound(s, r.1));
    }
  }

  lemma ExpandResolved(s: Space, before: Nodes, context: seq<nat>, path: seq<seq<nat>>)
    requires WellFormedSpace(s) && Expandable(s, before) && Resolved(s, before, context, path)
    ensures Resolved(s, ExpandRound(s, before), context, path)
  {
    var after := ExpandRound(s, before);
    RoundsOrdered(s, before, []);
    assert OrderedAt(before, 0) && OrderedAt(after, 0) && after[0] == before[0];
    forall j | 0 <= j < |after[0].children|
      ensures var c := after[0].children[j];
          IsAction(s, after[c].element) && !after[c].reference && Shaped(s, after, c, path)
    {
      ExpandShaped(s, before, after, before[0].children[j], path);
    }
  }

  lemma GrowResolved(s: Space, before: Nodes, element: seq<nat>, context: seq<nat>, path: seq<seq<nat>>)
    requires Resolved(s, before, context, path) && element != [] && Growable(s, before)
    ensures Resolved(s, GrowAll(s, before, element), context, path + [element])
  {
    var after := GrowAll(s, before, element);
    GrowFirstDoes(s, before, |before|, element);
    ExtendsOrdered(s, before, after, element);
    assert OrderedAt(before, 0) && OrderedAt(after, 0) && GrownAt(s, before, after, 0, |before|, element);
    forall j | 0 <= j < |after[0].children|
      ensures var c := after[0].children[j];
          IsAction(s, after[c].element) && !after[c].reference && Shaped(s, after, c, path + [element])
    {
      GrowShaped(s, before, after, element, before[0].children[j], path);
    }
  }

  lemma StartResolved(s: Space, context: seq<nat>)
    requires context != [] && forall i :: 0 <= i < |context| ==> IsAction(s, context[i])
    ensures Resolved(s, Start(context), context, [])
  {
    hide AddAll;
    StartOrdered(context);
    AddAllDoes([Node(-1, false, true, [])], 0, context, false);
    var nodes := Start(context);
    assert OrderedAt(nodes, 0);
    forall j | 0 <= j < |context| ensures nodes[j + 1] == Node(context[j], false, false, []) {
    }
    forall j | 0 <= j < |nodes[0].children|
      ensures nodes[0].children[j] == j + 1 && Shaped(s, nodes, nodes[0].children[j], [])
    {
    }
  }

  // ---- references go on ----

  predicate Plain(nodes: Nodes) {
    forall i :: 0 <= i < |nodes| && nodes[i].children == [] ==> !nodes[i].reference
  }

  /** What a reference is dereferenced to is never the end of a path. */
  predicate GoesOn(nodes: Nodes) {
    forall i :: 0 <= i < |nodes| && nodes[i].reference ==> GoesOnAt(nodes, i)
  }

  predicate GoesOnAt(nodes: Nodes, i: nat)
    requires i < |nodes|
  {
    forall j :: 0 <= j < |nodes[i].children| ==>
      nodes[i].children[j] < |nodes| && nodes[nodes[i].children[j]].children != []
  }

  lemma ExpandPlain(s: Space, nodes: Nodes)
    requires WellFormedSpace(s) && Expandable(s, nodes) && Plain(nodes)
    ensures Plain(ExpandRound(s, nodes))
  {
    var after := ExpandRound(s, nodes);
    ExpandFirstDoes(s, nodes, |nodes|);
    assert forall i :: |nodes| <= i < |after| ==> FreshLeaf(after[i]);
    forall i | 0 <= i < |nodes| && Unexpanded(s, nodes[i]) ensures after[i].children != [] {
      assert !Empty(s, nodes[i]) && NewChildren(nodes, after, i, s.instances(nodes[i].element));
    }
  }

  lemma GrowGoesOn(s: Space, nodes: Nodes, element: seq<nat>)
    requires Ordered(nodes) && Plain(nodes) && element != []
    ensures Plain(GrowAll(s, nodes, element)) && GoesOn(GrowAll(s, nodes, element))
  {
    var after := GrowAll(s, nodes, element);
    GrowFirstDoes(s, nodes, |nodes|, element);
    forall i | 0 <= i < |nodes| ensures after[i].children != [] {
      assert GrownAt(s, nodes, after, i, |nodes|, element);
    }
    assert forall i :: |nodes| <= i < |after| ==> FreshLeaf(after[i]);
    forall i | 0 <= i < |nodes| && after[i].reference ensures GoesOnAt(after, i) {
      assert GrownAt(s, nodes, after, i, |nodes|, element) && OrderedAt(nodes, i);
    }
  }

  lemma PruneGoesOn(nodes: Nodes)
    requires Ordered(nodes) && nodes != [] && Plain(nodes)
    ensures Plain(Prune(nodes, 0)) && (GoesOn(nodes) ==> GoesOn(Prune(nodes, 0)))
  {
    var after := Prune(nodes, 0);
    PruneIsPruned(nodes, 0);
    assert forall i :: 0 <= i < |nodes| ==> PrunedAt(nodes, after, i);
    if GoesOn(nodes) {
      forall i | 0 <= i < |after| && after[i].reference ensures GoesOnAt(after, i) {
        assert GoesOnAt(nodes, i);
      }
    }
  }

  lemma {:induction false} ResolveGoesOn(s: Space, context: seq<nat>, typePath: seq<seq<nat>>)
    requires WellFormedSpace(s) && context != [] && forall i :: 0 <= i < |typePath| ==> typePath[i] != []
    ensures var r := ResolveTo(s, context, typePath); r.0.Done? ==> Plain(r.1) && (typePath != [] ==> GoesOn(r.1))
  {
    if typePath != [] {
      var n := |typePath| - 1;
      var before := ResolveTo(s, context, typePath[..n]);
      ResolveGoesOn(s, context, typePath[..n]);
      if before.0.Done? && Extend(s, before.1, typePath[n]).0.Done? {
        var expanded := ExpandRound(s, before.1);
        RoundsOrdered(s, before.1, typePath[n]);
        ExpandPlain(s, before.1);
        GrowGoesOn(s, expanded, typePath[n]);
        PruneGoesOn(GrowAll(s, expanded, typePath[n]));
      }
    }
  }

  // ---- as the program does it ----

  class Resolution {
    const space: Space
    var nodes: Nodes

    constructor (space: Space)
      ensures this.space == space && nodes == []
    {
      this.space := space;
      nodes := [];
    }

    method Add(parent: nat, element: nat, member: bool)
      requires parent < |nodes|
      modifies this
      ensures var was := old(nodes);
        nodes == was[parent := was[parent].(children := was[parent].children + [|was|])] +
          [Node(element, member, false, [])]
    {
      nodes := nodes + [Node(element, member, false, [])];
      nodes := nodes[parent := nodes[parent].(children := nodes[parent].children + [|nodes| - 1])];
    }

    method AddEach(parent: nat, elements: seq<nat>, member: bool)
      requires parent < |nodes|
      modifies this
      ensures nodes == AddAll(old(nodes), parent, elements, member)
    {
      ghost var was := nodes;
      var j := 0;
      assert was[parent].children + Fresh(was, 0) == was[parent].children;
      assert AddAll(was, parent, elements[..0], member) == was;
      while j != |elements|
        invariant j <= |elements| && nodes == AddAll(was, parent, elements[..j], member)
      {
        assert Fresh(was, j + 1) == Fresh(was, j) + [|was| + j];
        assert was[parent].children + Fresh(was, j + 1) == was[parent].children + Fresh(was, j) + [|was| + j];
        Add(parent, elements[j], member);
        j := j + 1;
      }
      assert elements[..j] == elements;
    }

    /** One round over the nodes there are. It is stuck when a node it expands has no instance. */
    method Round() returns (again: bool, stuck: bool)
      requires WellFormedSpace(space)
      modifies this
      ensures nodes == ExpandRound(space, old(nodes))
      ensures again <==> !AllExpanded(space, old(nodes))
      ensures stuck <==> !Expandable(space, old(nodes))
    {
      hide AddAll, Unexpanded, WellFormedSpace;
      ghost var before := nodes;
      again, stuck := false, false;
      var size, i := |nodes|, 0;
      while i != size
        invariant i <= size == |before| && nodes == ExpandFirst(space, before, i)
        invariant again <==> exists k :: 0 <= k < i && Unexpanded(space, before[k])
        invariant stuck <==> exists k :: 0 <= k < i && Empty(space, before[k])
      {
        NotYet(space, before, i);
        if Unexpanded(space, nodes[i]) {
          again := true;
          var instances := space.instances(nodes[i].element);
          stuck := stuck || instances == [];
          nodes := nodes[i := nodes[i].(reference := true)];
          AddEach(i, instances, false);
        }
        i := i + 1;
      }
    }

    /** Rounds until nothing is left to expand, two at most. Where a round is stuck the program goes on
        for ever; the model then stops and says so. */
    method ExpandReferences() returns (ends: bool)
      requires WellFormedSpace(space)
      modifies this
      ensures ends <==> Ends(space, old(nodes))
      ensures nodes == ExpandRound(space, old(nodes)) && (ends ==> AllExpanded(space, nodes))
    {
      ghost var before := nodes;
      ExpansionEnds(space, before);
      RoundExact(space, before);
      var again := true;
      ends := true;
      while again && ends
        invariant (nodes == ExpandRound(space, before) && (ends <==> Expandable(space, before))) ||
            (nodes == before && again && ends)
        decreases again && ends, !AllExpanded(space, nodes)
      {
        if AllExpanded(space, nodes) { NothingToExpand(space, nodes, |nodes|); }
        var stuck;
        again, stuck := Round();
        ends := !stuck;
      }
    }

    /** `addType`: refused exactly where a leaf is a dimension. */
    method AddType(element: seq<nat>) returns (r: Outcome)
      modifies this
      ensures r == if Growable(space, old(nodes)) then Done else AfterDimension
      ensures r.Done? ==> nodes == GrowAll(space, old(nodes), element)
    {
      ghost var before := nodes;
      var size, i := |nodes|, 0;
      while i != size
        invariant i <= size == |before| && nodes == GrowFirst(space, before, i, element)
        invariant forall k :: 0 <= k < i && before[k].children == [] ==> IsAction(space, before[k].element)
      {
        GrowFirstDoes(space, before, i, element);
        assert GrownAt(space, before, nodes, i, i, element) && nodes[i] == before[i];
        if nodes[i].children == [] {
          if !IsAction(space, nodes[i].element) {
            return AfterDimension;
          }
          var members := MembersOf(space, nodes[i].element, element);
          if members != [] { AddEach(i, members, true); } else { AddEach(i, element, false); }
        }
        i := i + 1;
      }
      r := Done;
    }

    /** `pruneBranches` from one node down. */
    method PruneBranches(i: nat)
      requires Ordered(nodes) && i < |nodes|
      modifies this
      ensures nodes == Prune(old(nodes), i)
      decreases |nodes| - i
    {
      hide PruneOnly, Visited, VisitedBelow, Best, Ordered, PrunedMember;
      ghost var before := nodes;
      InOrder(before, i);
      var n := nodes[i];
      if GoesBelow(n) {
        var best, removed, j := [], false, 0;
        PruneNone(before, i);
        while j != |n.children|
          invariant j <= |n.children| && nodes == PruneOnly(before, VisitedBelow(before, i, j))
          invariant best == Best(before, n.children[..j]) && (!removed ==> best == n.children[..j])
        {
          var c := n.children[j];
          PruneStep(before, i, j);
          PruneBranches(c);
          if nodes[c].member { best := best + [c]; } else { removed := true; }
          j := j + 1;
        }
        assert n.children[..j] == n.children;
        PruneEnd(before, i);
        if best != [] {
          nodes := nodes[i := n.(member := true, children := if removed && !n.reference then best else n.children)];
        }
      } else {
        PruneLeaf(before, i);
      }
    }

    /** `resolve`: contexts, and then path element by path element: expand, grow, prune. */
    method Resolve(context: seq<nat>, typePath: seq<seq<nat>>, expandFinal: bool) returns (r: Outcome)
      requires WellFormedSpace(space) && nodes == []
      modifies this
      ensures var all := ResolveAll(space, context, typePath, expandFinal); r == all.0 && (r.Done? ==> nodes == all.1)
    {
      nodes := [Node(-1, false, true, [])];
      AddEach(0, context, false);
      var i := 0;
      while i != |typePath|
        invariant i <= |typePath| && ResolveTo(space, context, typePath[..i]) == (Done, nodes)
      {
        assert typePath[..i + 1][..i] == typePath[..i];
        r := ExtendBy(typePath[i]);
        if !r.Done? {
          Refused(space, context, typePath, i + 1);
          return;
        }
        i := i + 1;
      }
      assert typePath[..i] == typePath;
      r := Done;
      if expandFinal {
        ExpansionEnds(space, nodes);
        RoundsOrdered(space, nodes, []);
        var ends := ExpandReferences();
        if !ends {
          return Endless;
        }
        PruneBranches(0);
      }
    }

    /** One round of that loop. */
    method ExtendBy(element: seq<nat>) returns (r: Outcome)
      requires WellFormedSpace(space) && Ordered(nodes) && nodes != []
      modifies this
      ensures var all := Extend(space, old(nodes), element); r == all.0 && (r.Done? ==> nodes == all.1)
    {
      ExpansionEnds(space, nodes);
      RoundsOrdered(space, nodes, element);
      var ends := ExpandReferences();
      if !ends {
        return Endless;
      }
      r := AddType(element);
      if r.Done? {
        PruneBranches(0);
      }
    }
  }

  lemma {:induction false} Refused(s: Space, context: seq<nat>, typePath: seq<seq<nat>>, k: nat)
    requires WellFormedSpace(s) && k <= |typePath| && !ResolveTo(s, context, typePath[..k]).0.Done?
    ensures ResolveTo(s, context, typePath) == ResolveTo(s, context, typePath[..k])
    decreases |typePath| - k
  {
    if k == |typePath| {
      assert typePath[..k] == typePath;
    } else {
      assert typePath[..k + 1][..k] == typePath[..k];
      Refused(s, context, typePath, k + 1);
    }
  }

  /** A node not reached yet is as it was. */
  lemma NotYet(s: Space, before: Nodes, i: nat)
    requires WellFormedSpace(s) && i < |before|
    ensures var nodes := ExpandFirst(s, before, i);
      nodes[i] == before[i] && (Unexpanded(s, before[i]) ==> before[i].element >= 0)
  {
    ExpandFirstDoes(s, before, i);
  }

  lemma InOrder(nodes: Nodes, i: nat)
    requires Ordered(nodes) && i < |nodes|
    ensures NodesOf(nodes, nodes[i].children) && OrderedAt(nodes, i)
  {
    assert OrderedAt(nodes, i);
  }

  lemma PruneNone(before: Nodes, i: nat)
    requires Ordered(before) && i < |before|
    ensures NodesOf(before, before[i].children[..0])
    ensures PruneOnly(before, VisitedBelow(before, i, 0)) == before && Best(before, before[i].children[..0]) == []
  {
  }

  /** After `j` children have been pruned, one more is. */
  lemma PruneStep(before: Nodes, i: nat, j: nat)
    requires Ordered(before) && i < |before| && j < |before[i].children|
    ensures var cs := before[i].children;
      i < cs[j] < |before| && NodesOf(before, cs[..j]) && NodesOf(before, cs[..j + 1])
    ensures var cs, mid := before[i].children, PruneOnly(before, VisitedBelow(before, i, j));
      var after := PruneOnly(before, VisitedBelow(before, i, j + 1));
      Ordered(mid) && Prune(mid, cs[j]) == after && cs[..j + 1] == cs[..j] + [cs[j]] &&
      Best(before, cs[..j + 1]) == Best(before, cs[..j]) + if after[cs[j]].member then [cs[j]] else []
  {
    InOrder(before, i);
    var cs := before[i].children;
    VisitedBelowClosed(before, i, j);
    PruneMore(before, VisitedBelow(before, i, j), cs[j]);
    assert PruneOnly(before, VisitedBelow(before, i, j + 1))[cs[j]] == Final(before, cs[j]);
    assert cs[..j + 1][..j] == cs[..j];
  }

  /** When all children have been pruned, the node itself remains. */
  lemma PruneEnd(before: Nodes, i: nat)
    requires Ordered(before) && i < |before| && GoesBelow(before[i])
    ensures NodesOf(before, before[i].children)
    ensures var n := before[i]; var best := Best(before, n.children);
      var below := PruneOnly(before, VisitedBelow(before, i, |n.children|));
      Prune(before, i) ==
        if best == [] then below
        else below[i := n.(member := true, children := if n.reference then n.children else best)]
  {
    InOrder(before, i);
    var n := before[i];
    var best := Best(before, n.children);
    if best != [] { assert best[0] in best; }
    if PrunedMember(before, i) && !n.member {
      var j :| 0 <= j < |n.children| && PrunedMember(before, n.children[j]);
      assert n.children[j] in best;
    }
    assert Final(before, i) == if best ==
      [] then n else n.(member := true, children := if n.reference then n.children else best);
  }

  lemma PruneLeaf(before: Nodes, i: nat)
    requires Ordered(before) && i < |before| && !GoesBelow(before[i])
    ensures Prune(before, i) == before
  {
    InOrder(before, i);
    assert Final(before, i) == before[i];
  }
}
