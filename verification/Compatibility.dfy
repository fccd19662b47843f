/** Which contexts and actions are compatible, over the inheritance trees of the concrete actions. */
module Compatibility {

  type Context = nat
  type Action = nat

  /** A node of the inheritance tree of one concrete action; `parent` is -1 at its root. */
  datatype Node = Node(context: Context, action: Action, parent: int, children: seq<nat>)

  /** All nodes, parents before children; each tree is for one action, and each child knows its parent. */
  predicate WellFormed(ns: seq<Node>) {
    (forall n :: 0 <= n < |ns| ==> -1 <= ns[n].parent < n) &&
    (forall n :: 0 <= n < |ns| && ns[n].parent >= 0 ==>
      ns[n].action == ns[ns[n].parent].action && n in ns[ns[n].parent].children) &&
    (forall n, i :: 0 <= n < |ns| && 0 <= i < |ns[n].children| ==>
      ns[n].children[i] < |ns| && ns[ns[n].children[i]].parent == n)
  }

  /** `m` is `n` or above it. */
  predicate Above(ns: seq<Node>, m: nat, n: nat)
    requires WellFormed(ns) && n < |ns|
    decreases n
  {
    m == n || (ns[n].parent >= 0 && Above(ns, m, ns[n].parent))
  }

  predicate Related(ns: seq<Node>, c: Context, m: nat)
    requires WellFormed(ns) && m < |ns|
  {
    exists n :: 0 <= n < |ns| && ns[n].context == c && InLine(ns, n, m)
  }

  predicate InLine(ns: seq<Node>, n: nat, m: nat)
    requires WellFormed(ns) && n < |ns| && m < |ns|
  {
    Above(ns, m, n) || Above(ns, n, m)
  }

  /** The contexts above or below a node of `c`. */
  function StaticTypes(ns: seq<Node>, c: Context): set<Context>
    requires WellFormed(ns)
  {
    set m | 0 <= m < |ns| && Related(ns, c, m) :: ns[m].context
  }

  function DynamicTypes(ns: seq<Node>, c: Context): set<Action>
    requires WellFormed(ns)
  {
    set m | 0 <= m < |ns| && Related(ns, c, m) :: ns[m].action
  }

  /** `getInstances` for deriving contexts: the actions whose inheritance tree has a node of `c`. */
  function DerivingInstances(ns: seq<Node>, c: Context): set<Action> {
    set n | 0 <= n < |ns| && ns[n].context == c :: ns[n].action
  }

  /** The context has a node somewhere. */
  predicate Instantiated(ns: seq<Node>, c: Context) {
    exists n :: 0 <= n < |ns| && ns[n].context == c
  }

  lemma {:induction false} AboveSameAction(ns: seq<Node>, m: nat, n: nat)
    requires WellFormed(ns) && n < |ns| && Above(ns, m, n)
    ensures m < |ns| && ns[m].action == ns[n].action
    decreases n
  {
    if m != n { AboveSameAction(ns, m, ns[n].parent); }
  }

  /** Static compatibility is reflexive on the contexts that are instantiated, and symmetric. */
  lemma StaticTheorem(ns: seq<Node>, a: Context, b: Context)
    requires WellFormed(ns)
    ensures Instantiated(ns, a) <==> a in StaticTypes(ns, a)
    ensures b in StaticTypes(ns, a) <==> a in StaticTypes(ns, b)
  {
    if Instantiated(ns, a) {
      var n :| 0 <= n < |ns| && ns[n].context == a;
      assert InLine(ns, n, n);
      assert Related(ns, a, n);
    }
    if b in StaticTypes(ns, a) { }
    if a in StaticTypes(ns, b) { }
  }

  /** Dynamic compatibility of a context is the set of the actions that derive from it. */
  lemma DynamicTheorem(ns: seq<Node>, c: Context)
    requires WellFormed(ns)
    ensures DynamicTypes(ns, c) == DerivingInstances(ns, c)
  {
    forall x | x in DynamicTypes(ns, c) ensures x in DerivingInstances(ns, c) {
      var m :| 0 <= m < |ns| && Related(ns, c, m) && ns[m].action == x;
      var n :| 0 <= n < |ns| && ns[n].context == c && InLine(ns, n, m);
      if Above(ns, m, n) { AboveSameAction(ns, m, n); } else { AboveSameAction(ns, n, m); }
    }
    forall x | x in DerivingInstances(ns, c) ensures x in DynamicTypes(ns, c) {
      var n :| 0 <= n < |ns| && ns[n].context == c && ns[n].action == x;
      assert InLine(ns, n, n);
      assert Related(ns, c, n);
    }
  }

  // ---- links ----

  datatype Entry = Entry(
    staticTypes: set<Context>, staticLinkTypes: set<Context>,
    dynamicTypes: set<Action>, fromLinkTypes: set<Action>, toLinkTypes: set<Action>)

  type Table = map<Context, Entry>

  datatype Link = Link(context: Context, target: Context)

  /** A table that has an entry for every context its entries name, as the program verifies. */
  predicate Closed(t: Table, links: seq<Link>) {
    (forall c, d :: c in t && d in t[c].staticTypes ==> d in t) &&
    forall i :: 0 <= i < |links| ==> links[i].context in t && links[i].target in t
  }

  predicate Symmetric(t: Table) {
    forall c, d :: c in t && d in t && d in t[c].staticTypes ==> c in t[d].staticTypes
  }

  predicate LinksTo(t: Table, links: seq<Link>, link: Context, d: Context) {
    exists i :: 0 <= i < |links| && links[i].context == link && Targets(t, links[i], d)
  }

  predicate Targets(t: Table, link: Link, d: Context) {
    link.target in t && d in t[link.target].staticTypes
  }

  /** What the link analysis makes of the link types of a context, apart from those it had. */
  predicate LinkCompatible(t: Table, links: seq<Link>, c: Context, d: Context)
    requires c in t
  {
    d in t[c].staticTypes || LinksTo(t, links, c, d) || LinksTo(t, links, d, c)
  }

  /** The table after the analysis: only link types have grown, by exactly the compatible ones. */
  ghost predicate Analysed(before: Table, links: seq<Link>, after: Table) {
    after.Keys == before.Keys &&
    forall c :: c in before ==>
      after[c].staticTypes == before[c].staticTypes && after[c].dynamicTypes == before[c].dynamicTypes &&
      (forall d :: d in after[c].staticLinkTypes <==>
        d in before[c].staticLinkTypes || LinkCompatible(before, links, c, d)) &&
      (forall a :: a in after[c].toLinkTypes <==> a in before[c].toLinkTypes || ReachedBy(before, links, c, a)) &&
      forall a :: a in after[c].fromLinkTypes <==> a in before[c].fromLinkTypes || ReachesFrom(before, links, c, a)
  }

  /** The action derives from the target of a link. */
  predicate ReachedBy(t: Table, links: seq<Link>, link: Context, a: Action) {
    exists i :: 0 <= i < |links| && links[i].context == link && links[i].target in t &&
      a in t[links[i].target].dynamicTypes
  }

  /** The action derives from a link to something compatible with the context. */
  predicate ReachesFrom(t: Table, links: seq<Link>, c: Context, a: Action) {
    exists i :: 0 <= i < |links| && Targets(t, links[i], c) && links[i].context in t &&
      a in t[links[i].context].dynamicTypes
  }

  function FirstTable(ns: seq<Node>, contexts: seq<Context>): Table
    requires WellFormed(ns)
  {
    map c | c in contexts :: Entry(StaticTypes(ns, c), {}, DynamicTypes(ns, c), {}, {})
  }

  /** The first analysis gives a symmetric table, which is closed where it covers every node. */
  lemma FirstTableFits(ns: seq<Node>, contexts: seq<Context>, links: seq<Link>)
    requires WellFormed(ns) && forall n :: 0 <= n < |ns| ==> ns[n].context in contexts
    requires forall i :: 0 <= i < |links| ==> links[i].context in contexts && links[i].target in contexts
    ensures Symmetric(FirstTable(ns, contexts)) && Closed(FirstTable(ns, contexts), links)
  {
    var t := FirstTable(ns, contexts);
    forall c, d | c in t && d in t && d in t[c].staticTypes ensures c in t[d].staticTypes {
      StaticTheorem(ns, c, d);
    }
  }

  /** Both analyses one after the other: whatever the inheritance trees and the links, link
      compatibility is symmetric, and an instantiated context is link-compatible with itself. */
  lemma CompatibilityTheorem(ns: seq<Node>, contexts: seq<Context>, links: seq<Link>, after: Table, c: Context,
          d: Context)
    requires WellFormed(ns) && forall n :: 0 <= n < |ns| ==> ns[n].context in contexts
    requires forall i :: 0 <= i < |links| ==> links[i].context in contexts && links[i].target in contexts
    requires Analysed(FirstTable(ns, contexts), links, after) && c in contexts
    ensures d in after[c].staticLinkTypes ==> d in after && c in after[d].staticLinkTypes
    ensures Instantiated(ns, c) ==> c in after[c].staticLinkTypes
  {
    FirstTableFits(ns, contexts, links);
    var before := FirstTable(ns, contexts);
    if d in after[c].staticLinkTypes { LinkTheorem(before, links, after, c, d); }
    if Instantiated(ns, c) {
      StaticTheorem(ns, c, c);
      assert LinkCompatible(before, links, c, c);
    }
  }

  /** Link compatibility is symmetric after the analysis, whatever the links, if it starts empty. */
  lemma LinkTheorem(before: Table, links: seq<Link>, after: Table, c: Context, d: Context)
    requires Closed(before, links) && Symmetric(before) && Analysed(before, links, after)
    requires forall x :: x in before ==> before[x].staticLinkTypes == {}
    requires c in before && d in after[c].staticLinkTypes
    ensures d in after && c in after[d].staticLinkTypes
  {
    assert LinkCompatible(before, links, c, d);
    if LinksTo(before, links, c, d) {
      var i :| 0 <= i < |links| && links[i].context == c && Targets(before, links[i], d);
    }
    assert d in before;
    assert LinkCompatible(before, links, d, c);
  }

  /** A node of one context and a node of the other, one of them the other or above it. */
  predicate Kin(ns: seq<Node>, c: Context, d: Context)
    requires WellFormed(ns)
  {
    exists m, n :: 0 <= m < |ns| && 0 <= n < |ns| && InLine(ns, m, n) && ns[m].context == c && ns[n].context == d
  }

  predicate HasNode(ns: seq<Node>, c: Context, a: Action) {
    exists n :: 0 <= n < |ns| && ns[n].context == c && ns[n].action == a
  }

  /** One context is the link, the other kin to its target. */
  predicate Bridges(ns: seq<Node>, link: Link, c: Context, d: Context)
    requires WellFormed(ns)
  {
    (link.context == c && Kin(ns, link.target, d)) || (link.context == d && Kin(ns, link.target, c))
  }

  lemma KinExact(ns: seq<Node>, c: Context, d: Context)
    requires WellFormed(ns)
    ensures d in StaticTypes(ns, c) <==> Kin(ns, c, d)
    ensures Kin(ns, c, d) <==> Kin(ns, d, c)
  {
    StaticTheorem(ns, c, d);
    if Kin(ns, c, d) {
      var m, n :| 0 <= m < |ns| && 0 <= n < |ns| && InLine(ns, m, n) && ns[m].context == c && ns[n].context == d;
      assert Related(ns, c, n) && InLine(ns, n, m);
    }
    if Kin(ns, d, c) {
      var m, n :| 0 <= m < |ns| && 0 <= n < |ns| && InLine(ns, m, n) && ns[m].context == d && ns[n].context == c;
      assert InLine(ns, n, m);
    }
    if d in StaticTypes(ns, c) {
      var n :| 0 <= n < |ns| && Related(ns, c, n) && ns[n].context == d;
      var m :| 0 <= m < |ns| && ns[m].context == c && InLine(ns, m, n);
      assert Kin(ns, c, d);
    }
  }

  /** What both analyses leave behind, said of the trees and the links alone: two contexts are
      link-compatible when they are kin, or when one is a link to kin of the other; a link reaches
      the actions that have a node of its target, and a context is reached from the actions that
      have a node of a link to its kin. */
  lemma LinkTypesExact(ns: seq<Node>, contexts: seq<Context>, links: seq<Link>, after: Table, c: Context, d: Context,
          a: Action)
    requires WellFormed(ns) && forall n :: 0 <= n < |ns| ==> ns[n].context in contexts
    requires forall i :: 0 <= i < |links| ==> links[i].context in contexts && links[i].target in contexts
    requires Analysed(FirstTable(ns, contexts), links, after) && c in contexts
    ensures d in after[c].staticLinkTypes <==>
        Kin(ns, c, d) || exists i :: 0 <= i < |links| && Bridges(ns, links[i], c, d)
    ensures a in after[c].toLinkTypes <==>
        exists i :: 0 <= i < |links| && links[i].context == c && HasNode(ns, links[i].target, a)
    ensures a in after[c].fromLinkTypes <==>
        exists i :: 0 <= i < |links| && Kin(ns, links[i].target, c) && HasNode(ns, links[i].context, a)
  {
    hide Kin, StaticTypes, DynamicTypes, WellFormed;
    var before := FirstTable(ns, contexts);
    KinExact(ns, c, d);
    forall i | 0 <= i < |links|
      ensures Targets(before, links[i], d) <==> Kin(ns, links[i].target, d)
      ensures Targets(before, links[i], c) <==> Kin(ns, links[i].target, c)
      ensures a in before[links[i].target].dynamicTypes <==> HasNode(ns, links[i].target, a)
      ensures a in before[links[i].context].dynamicTypes <==> HasNode(ns, links[i].context, a)
    {
      KinExact(ns, links[i].target, d);
      KinExact(ns, links[i].target, c);
      DynamicTheorem(ns, links[i].target);
      DynamicTheorem(ns, links[i].context);
    }
    assert LinkCompatible(before, links, c, d) <==> d in after[c].staticLinkTypes;
    assert ReachedBy(before, links, c, a) <==> a in after[c].toLinkTypes;
    assert ReachesFrom(before, links, c, a) <==> a in after[c].fromLinkTypes;
  }

  // ---- as the program does it ----

  /** The contexts of a node's descendants, the node included, inserted one by one. */
  method GetStaticDerived(ns: seq<Node>, n: nat, derived: set<Context>) returns (r: set<Context>)
    requires WellFormed(ns) && n < |ns|
    ensures r == derived + set m | 0 <= m < |ns| && Above(ns, n, m) :: ns[m].context
    decreases |ns| - n
  {
    r := derived + {ns[n].context};
    var i := 0;
    while i != |ns[n].children|
      invariant i <= |ns[n].children|
      invariant r == derived + {ns[n].context} + set m | 0 <= m < |ns| && AboveOne(ns, n, i, m) :: ns[m].context
    {
      var k := ns[n].children[i];
      assert ns[k].parent == n;
      r := GetStaticDerived(ns, k, r);
      assert forall m :: 0 <= m < |ns| ==> (AboveOne(ns, n, i + 1, m) <==> AboveOne(ns, n, i, m) || Above(ns, k, m));
      i := i + 1;
    }
    forall m | 0 <= m < |ns| ensures Above(ns, n, m) <==> m == n || AboveOne(ns, n, i, m) {
      BelowChild(ns, n, m);
    }
  }

  /** The action of a node's descendants, the node included. */
  method GetDynamicDerived(ns: seq<Node>, n: nat, derived: set<Action>) returns (r: set<Action>)
    requires WellFormed(ns) && n < |ns|
    ensures r == derived + set m | 0 <= m < |ns| && Above(ns, n, m) :: ns[m].action
    decreases |ns| - n
  {
    r := derived + {ns[n].action};
    var i := 0;
    while i != |ns[n].children|
      invariant i <= |ns[n].children|
      invariant r == derived + {ns[n].action} + set m | 0 <= m < |ns| && AboveOne(ns, n, i, m) :: ns[m].action
    {
      var k := ns[n].children[i];
      assert ns[k].parent == n;
      r := GetDynamicDerived(ns, k, r);
      assert forall m :: 0 <= m < |ns| ==> (AboveOne(ns, n, i + 1, m) <==> AboveOne(ns, n, i, m) || Above(ns, k, m));
      i := i + 1;
    }
    forall m | 0 <= m < |ns| ensures Above(ns, n, m) <==> m == n || AboveOne(ns, n, i, m) {
      BelowChild(ns, n, m);
    }
  }

  /** Below one of the first `i` children. */
  predicate AboveOne(ns: seq<Node>, n: nat, i: nat, m: nat)
    requires WellFormed(ns) && n < |ns| && i <= |ns[n].children| && m < |ns|
  {
    exists k :: 0 <= k < i && Above(ns, ns[n].children[k], m)
  }

  lemma {:induction false} BelowChild(ns: seq<Node>, n: nat, m: nat)
    requires WellFormed(ns) && n < |ns| && m < |ns|
    ensures Above(ns, n, m) <==> m == n || AboveOne(ns, n, |ns[n].children|, m)
    decreases m
  {
    if m != n && Above(ns, n, m) {
      var p := ns[m].parent;
      BelowChild(ns, n, p);
      if p == n {
        var k :| 0 <= k < |ns[n].children| && ns[n].children[k] == m;
        assert Above(ns, ns[n].children[k], m);
      } else {
        var k :| 0 <= k < |ns[n].children| && Above(ns, ns[n].children[k], p);
        assert Above(ns, ns[n].children[k], m);
      }
    }
    if AboveOne(ns, n, |ns[n].children|, m) {
      var k :| 0 <= k < |ns[n].children| && Above(ns, ns[n].children[k], m);
      AboveParent(ns, ns[n].children[k], m);
    }
  }

  lemma {:induction false} AboveParent(ns: seq<Node>, k: nat, m: nat)
    requires WellFormed(ns) && m < |ns| && k < |ns| && ns[k].parent >= 0 && Above(ns, k, m)
    ensures Above(ns, ns[k].parent, m)
    decreases m
  {
    if k != m { AboveParent(ns, k, ns[m].parent); } else { assert Above(ns, ns[k].parent, ns[k].parent); }
  }

  /** The contexts and the actions of a node's ancestors, the node included. */
  method GetAncestors(ns: seq<Node>, n: nat, contexts: set<Context>, actions: set<Action>)
    returns (cs: set<Context>, actions': set<Action>)
    requires WellFormed(ns) && n < |ns|
    ensures cs == contexts + set m | 0 <= m < |ns| && Above(ns, m, n) :: ns[m].context
    ensures actions' == actions + set m | 0 <= m < |ns| && Above(ns, m, n) :: ns[m].action
  {
    cs, actions' := contexts, actions;
    var i: int := n;
    ghost var seen: set<nat> := {};
    while i != -1
      invariant -1 <= i < |ns|
      invariant forall m :: m in seen ==> m < |ns|
      invariant forall m :: 0 <= m < |ns| ==> (Above(ns, m, n) <==> m in seen || (i >= 0 && Above(ns, m, i)))
      invariant cs == contexts + set m | m in seen :: ns[m].context
      invariant actions' == actions + set m | m in seen :: ns[m].action
      decreases i
    {
      cs, actions' := cs + {ns[i].context}, actions' + {ns[i].action};
      seen := seen + {i};
      i := ns[i].parent;
    }
    assert forall m :: 0 <= m < |ns| ==> (Above(ns, m, n) <==> m in seen);
  }

  /** What the first `n` nodes contribute to a context. */
  function ContextsUpTo(ns: seq<Node>, c: Context, n: nat): set<Context>
    requires WellFormed(ns) && n <= |ns|
  {
    set m | 0 <= m < |ns| && RelatedUpTo(ns, c, n, m) :: ns[m].context
  }

  function ActionsUpTo(ns: seq<Node>, c: Context, n: nat): set<Action>
    requires WellFormed(ns) && n <= |ns|
  {
    set m | 0 <= m < |ns| && RelatedUpTo(ns, c, n, m) :: ns[m].action
  }

  lemma UpToNext(ns: seq<Node>, c: Context, n: nat)
    requires WellFormed(ns) && n < |ns|
    ensures ContextsUpTo(ns, c, n + 1) == if ns[n].context != c then ContextsUpTo(ns, c, n) else
      ContextsUpTo(ns, c, n) + (set m | 0 <= m < |ns| && Above(ns, m, n) :: ns[m].context) +
        (set m | 0 <= m < |ns| && Above(ns, n, m) :: ns[m].context)
    ensures ActionsUpTo(ns, c, n + 1) == if ns[n].context != c then ActionsUpTo(ns, c, n) else
      ActionsUpTo(ns, c, n) + (set m | 0 <= m < |ns| && Above(ns, m, n) :: ns[m].action) +
        (set m | 0 <= m < |ns| && Above(ns, n, m) :: ns[m].action)
  {
    hide Above;
    forall m | 0 <= m < |ns|
      ensures RelatedUpTo(ns, c, n + 1, m) <==> RelatedUpTo(ns, c, n, m) || (ns[n].context == c && InLine(ns, n, m))
    {
    }
  }

  lemma UpToEnds(ns: seq<Node>, c: Context)
    requires WellFormed(ns)
    ensures ContextsUpTo(ns, c, 0) == {} && ActionsUpTo(ns, c, 0) == {}
    ensures ContextsUpTo(ns, c, |ns|) == StaticTypes(ns, c) && ActionsUpTo(ns, c, |ns|) == DynamicTypes(ns, c)
  {
    assert forall m :: 0 <= m < |ns| ==> (RelatedUpTo(ns, c, |ns|, m) <==> Related(ns, c, m));
  }

  /** `analyseCompatibility` for one context: over all its nodes, their ancestors and their
      descendants. */
  method ContextCompatibility(ns: seq<Node>, c: Context) returns (contexts: set<Context>, actions: set<Action>)
    requires WellFormed(ns)
    ensures contexts == StaticTypes(ns, c) && actions == DerivingInstances(ns, c)
  {
    hide ContextsUpTo, ActionsUpTo, StaticTypes, DynamicTypes, DerivingInstances, WellFormed;
    contexts, actions := {}, {};
    UpToEnds(ns, c);
    var n := 0;
    while n != |ns|
      invariant n <= |ns| && contexts == ContextsUpTo(ns, c, n) && actions == ActionsUpTo(ns, c, n)
    {
      UpToNext(ns, c, n);
      if ns[n].context == c {
        contexts, actions := GetAncestors(ns, n, contexts, actions);
        contexts := GetStaticDerived(ns, n, contexts);
        actions := GetDynamicDerived(ns, n, actions);
      }
      n := n + 1;
    }
    DynamicTheorem(ns, c);
  }

  /** `analyseCompatibility`: one entry for every context. */
  method AnalyseCompatibility(ns: seq<Node>, contexts: seq<Context>) returns (table: Table)
    requires WellFormed(ns)
    ensures table == FirstTable(ns, contexts)
  {
    table := map[];
    var i := 0;
    while i != |contexts|
      invariant i <= |contexts| && table == FirstTable(ns, contexts[..i])
    {
      var static', dynamic := ContextCompatibility(ns, contexts[i]);
      DynamicTheorem(ns, contexts[i]);
      table := table[contexts[i] := Entry(static', {}, dynamic, {}, {})];
      assert contexts[..i + 1] == contexts[..i] + [contexts[i]];
      i := i + 1;
    }
    assert contexts[..i] == contexts;
  }

  predicate RelatedUpTo(ns: seq<Node>, c: Context, k: nat, m: nat)
    requires WellFormed(ns) && m < |ns| && k <= |ns|
  {
    exists n :: 0 <= n < k && ns[n].context == c && InLine(ns, n, m)
  }

  /** A link takes over the types of its target. */
  function TakeOver(t: Table, link: Link): Table
    requires link.context in t && link.target in t
  {
    var e, of := t[link.context], t[link.target];
    t[link.context := e.(staticLinkTypes := e.staticLinkTypes + of.staticTypes,
                         toLinkTypes := e.toLinkTypes + of.dynamicTypes)]
  }

  /** Some types learn of a link. */
  function Noted(t: Table, link: Context, dynamic: set<Action>, types: set<Context>): Table {
    map c | c in t ::
      if c in types then
        t[c].(staticLinkTypes := t[c].staticLinkTypes + {link}, fromLinkTypes := t[c].fromLinkTypes + dynamic)
      else t[c]
  }

  /** Some contexts get their own types as link types. */
  function Copied(t: Table, contexts: set<Context>): Table {
    map c | c in t :: if c in contexts then t[c].(staticLinkTypes := t[c].staticLinkTypes + t[c].staticTypes) else t[c]
  }

  class LinkAnalysis {
    var table: Table

    constructor (table: Table)
      ensures this.table == table
    {
      this.table := table;
    }

    method NoteLink(link: Context, dynamic: set<Action>, types: set<Context>)
      requires types <= table.Keys
      modifies this
      ensures table == Noted(old(table), link, dynamic, types)
    {
      var left := types;
      while left != {}
        invariant left <= types <= table.Keys && table == Noted(old(table), link, dynamic, types - left)
        decreases |left|
      {
        var d :| d in left;
        var x := table[d];
        var noted := x.(staticLinkTypes := x.staticLinkTypes + {link}, fromLinkTypes := x.fromLinkTypes + dynamic);
        table := table[d := noted];
        left := left - {d};
      }
      assert types - left == types;
    }

    method CopyOwn()
      modifies this
      ensures table == Copied(old(table), old(table).Keys)
    {
      var left := table.Keys;
      while left != {}
        invariant left <= table.Keys == old(table).Keys && table == Copied(old(table), old(table).Keys - left)
        decreases |left|
      {
        var c :| c in left;
        table := table[c := table[c].(staticLinkTypes := table[c].staticLinkTypes + table[c].staticTypes)];
        left := left - {c};
      }
      assert old(table).Keys - left == old(table).Keys;
    }

    /** `analyseLinkCompatibility`: all links, and then every context's own types. */
    method Analyse(links: seq<Link>)
      requires Closed(table, links)
      modifies this
      ensures Analysed(old(table), links, table)
    {
      ghost var start := table;
      var i := 0;
      while i != |links|
        invariant i <= |links| && Partly(start, links[..i], table)
      {
        LinkStep(start, links, i, table);
        var link := links[i];
        var types := table[link.target].staticTypes;
        table := TakeOver(table, link);
        NoteLink(link.context, table[link.context].dynamicTypes, types);
        i := i + 1;
      }
      assert links[..i] == links;
      CopyOwn();
    }
  }

  /** What one link does to one context: it takes over the types of its target, and every one of
      those learns of the link. */
  lemma EntryAfter(t: Table, link: Link, c: Context)
    requires c in t && link.context in t && link.target in t
    ensures link.context in TakeOver(t, link)
    ensures var u, of := TakeOver(t, link), t[link.target];
      var v := Noted(u, link.context, u[link.context].dynamicTypes, of.staticTypes);
      u.Keys == v.Keys == t.Keys &&
      v[c] == Entry(t[c].staticTypes,
        t[c].staticLinkTypes + (if c == link.context then of.staticTypes else {}) +
        (if c in of.staticTypes then {link.context} else {}),
        t[c].dynamicTypes,
        t[c].fromLinkTypes + (if c in of.staticTypes then t[link.context].dynamicTypes else {}),
        t[c].toLinkTypes + (if c == link.context then of.dynamicTypes else {}))
  {
  }

  lemma LinkEntries(start: Table, links: seq<Link>, k: nat, t: Table)
    requires k < |links| && Closed(start, links) && Partly(start, links[..k], t)
    ensures links[k].context in t && links[k].target in t && t[links[k].target].staticTypes <= t.Keys
    ensures t[links[k].target].staticTypes == start[links[k].target].staticTypes
    ensures t[links[k].target].dynamicTypes == start[links[k].target].dynamicTypes
    ensures t[links[k].context].dynamicTypes == start[links[k].context].dynamicTypes
  {
    hide PartlyTypes, PartlyActions;
    assert links[k].context in start && links[k].target in start;
  }

  /** One link more has been looked at. */
  lemma LinkStep(start: Table, links: seq<Link>, k: nat, t: Table)
    requires k < |links| && Closed(start, links) && Partly(start, links[..k], t)
    ensures links[k].context in t && links[k].target in t && t[links[k].target].staticTypes <= t.Keys
    ensures var u := TakeOver(t, links[k]);
      Partly(start, links[..k + 1],
        Noted(u, links[k].context, u[links[k].context].dynamicTypes, t[links[k].target].staticTypes))
  {
    hide PartlyTypes, PartlyActions, Closed, TakeOver, Noted;
    LinkEntries(start, links, k, t);
    var link := links[k];
    EntryAfter(t, link, link.context);
    var u := TakeOver(t, link);
    var v := Noted(u, link.context, u[link.context].dynamicTypes, t[link.target].staticTypes);
    forall c | c in start
      ensures PartlyTypes(start, links[..k + 1], c, v[c].staticLinkTypes)
      ensures PartlyActions(start, links[..k + 1], c, v[c].toLinkTypes, v[c].fromLinkTypes)
      ensures v[c].staticTypes == start[c].staticTypes && v[c].dynamicTypes == start[c].dynamicTypes
    {
      EntryAfter(t, link, c);
      TypesStep(start, links, k, c, t[c].staticLinkTypes, v[c].staticLinkTypes);
      ActionsStep(start, links, k, c, t[c], v[c]);
    }
  }

  lemma TypesStep(start: Table, links: seq<Link>, k: nat, c: Context, before: set<Context>, after: set<Context>)
    requires k < |links| && Closed(start, links) && c in start && PartlyTypes(start, links[..k], c, before)
    requires var of := start[links[k].target].staticTypes;
      after == before + (if c == links[k].context then of else {}) + (if c in of then {links[k].context} else {})
    ensures PartlyTypes(start, links[..k + 1], c, after)
  {
    hide LinksTo;
    LinkAdded(start, links, k);
  }

  lemma ActionsStep(start: Table, links: seq<Link>, k: nat, c: Context, before: Entry, after: Entry)
    requires k < |links| && Closed(start, links) && c in start &&
        PartlyActions(start, links[..k], c, before.toLinkTypes, before.fromLinkTypes)
    requires var link := links[k];
      after.toLinkTypes == before.toLinkTypes + (if c == link.context then start[link.target].dynamicTypes else {}) &&
      after.fromLinkTypes == before.fromLinkTypes +
        (if c in start[link.target].staticTypes then start[link.context].dynamicTypes else {})
    ensures PartlyActions(start, links[..k + 1], c, after.toLinkTypes, after.fromLinkTypes)
  {
    hide ReachedBy, ReachesFrom;
    ActionsAdded(start, links, k);
  }

  /** The table when some links have been looked at. */
  ghost predicate Partly(start: Table, links: seq<Link>, t: Table) {
    t.Keys == start.Keys && forall c :: c in start ==>
      t[c].staticTypes == start[c].staticTypes && t[c].dynamicTypes == start[c].dynamicTypes &&
      PartlyTypes(start, links, c, t[c].staticLinkTypes) &&
        PartlyActions(start, links, c, t[c].toLinkTypes, t[c].fromLinkTypes)
  }

  ghost predicate PartlyTypes(start: Table, links: seq<Link>, c: Context, types: set<Context>)
    requires c in start
  {
    forall d :: d in types <==>
      d in start[c].staticLinkTypes || LinksTo(start, links, c, d) || LinksTo(start, links, d, c)
  }

  ghost predicate PartlyActions(start: Table, links: seq<Link>, c: Context, to: set<Action>, from: set<Action>)
    requires c in start
  {
    (forall a :: a in to <==> a in start[c].toLinkTypes || ReachedBy(start, links, c, a)) &&
    forall a :: a in from <==> a in start[c].fromLinkTypes || ReachesFrom(start, links, c, a)
  }

  lemma LinkAdded(t: Table, links: seq<Link>, k: nat)
    requires k < |links|
    ensures forall c, d :: LinksTo(t, links[..k + 1], c, d) <==>
      LinksTo(t, links[..k], c, d) || (links[k].context == c && Targets(t, links[k], d))
  {
    forall c, d
      ensures LinksTo(t, links[..k + 1], c, d) <==>
          LinksTo(t, links[..k], c, d) || (links[k].context == c && Targets(t, links[k], d))
    {
      if LinksTo(t, links[..k], c, d) {
        var i :| 0 <= i < |links[..k]| && links[..k][i].context == c && Targets(t, links[..k][i], d);
        assert links[..k + 1][i] == links[i];
      }
      assert links[..k + 1][k] == links[k];
    }
  }

  lemma ActionsAdded(t: Table, links: seq<Link>, k: nat)
    requires k < |links| && links[k].context in t && links[k].target in t
    ensures forall c, a :: ReachedBy(t, links[..k + 1], c, a) <==>
      ReachedBy(t, links[..k], c, a) || (links[k].context == c && a in t[links[k].target].dynamicTypes)
    ensures forall c, a :: ReachesFrom(t, links[..k + 1], c, a) <==>
      ReachesFrom(t, links[..k], c, a) || (Targets(t, links[k], c) && a in t[links[k].context].dynamicTypes)
  {
    var some, more := links[..k], links[..k + 1];
    assert more[k] == links[k] && forall i :: 0 <= i < k ==> some[i] == more[i];
    forall c, a
      ensures ReachedBy(t, more, c, a) <==>
          ReachedBy(t, some, c, a) || (links[k].context == c && a in t[links[k].target].dynamicTypes)
    {
      if ReachedBy(t, some, c, a) {
        var i :| 0 <= i < |some| && some[i].context == c && some[i].target in t && a in t[some[i].target].dynamicTypes;
        assert more[i].context == c;
      }
    }
    forall c, a
      ensures ReachesFrom(t, more, c, a) <==>
          ReachesFrom(t, some, c, a) || (Targets(t, links[k], c) && a in t[links[k].context].dynamicTypes)
    {
      if ReachesFrom(t, some, c, a) {
        var i :| 0 <= i < |some| && Targets(t, some[i], c) && some[i].context in t &&
          a in t[some[i].context].dynamicTypes;
        assert Targets(t, more[i], c);
      }
    }
  }
}
