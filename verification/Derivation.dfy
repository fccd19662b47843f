/** How the compiler gets from an instance of one action to the matching instance of another:
    up to the lowest common ancestor, and down again where there is only one way. */
module Derivation {
  import opened Instructions
  import opened ConcreteTree
  import Evaluation

  /** The instructions appended one below the other, the variable that holds the result, and the
      number the next variable gets. */
  datatype Derived = Derived(chain: seq<Instruction>, variable: Variable, next: nat)

  /** The derivation has ended in a failure instruction. */
  predicate Dead(d: Derived) {
    d.chain != [] && d.chain[|d.chain| - 1].Failure?
  }

  /** One parent derivation for every step from `e` up to `a`. */
  function Up(c: Concrete, e: nat, a: nat, v: Variable, next: nat): (d: Derived)
    requires WellFormed(c) && e < |c| && Under(c, e, a)
    ensures next <= d.next
    decreases e
  {
    if e == a then Derived([], v, next)
    else
      var w := InstanceVariable(next, c[e].parent);
      var d := Up(c, c[e].parent, a, w, next + 1);
      Derived([ParentDerivation(v, w)] + d.chain, d.variable, d.next)
  }

  /** One child derivation for every action below `a` down to `e`, up to the first action that
      has more than one instance in its parent. Dimensions are passed over. */
  function Down(c: Concrete, e: nat, a: nat, v: Variable, next: nat): (d: Derived)
    requires WellFormed(c) && e < |c| && Under(c, e, a)
    ensures next <= d.next
    decreases e
  {
    if e == a then Derived([], v, next)
    else
      var d := Down(c, c[e].parent, a, v, next);
      if Dead(d) || !c[e].action then d
      else if c[e].size != 1 then d.(chain := d.chain + [Failure])
      else
        var w := InstanceVariable(d.next, e);
        Derived(d.chain + [ChildDerivation(d.variable, w)], w, d.next + 1)
  }

  function CommonRootDerivation(c: Concrete, from: int, to: nat, v: Variable, next: nat): (d: Derived)
    requires WellFormed(c) && -1 <= from < |c| && to < |c|
    ensures next <= d.next
  {
    if from == -1 || from == to then Derived([], v, next)
    else
      var r := CommonRoot(c, from, to);
      var u := Up(c, from, r, v, next);
      var d := Down(c, to, r, u.variable, u.next);
      Derived(u.chain + d.chain, d.variable, d.next)
  }

  // ---- as the compiler computes it ----

  method DeriveUp(c: Concrete, from: nat, common: nat, variable: Variable, next: nat) returns (d: Derived)
    requires WellFormed(c) && from < |c| && Under(c, from, common)
    ensures d == Up(c, from, common, variable, next)
  {
    var e, v, n, chain := from, variable, next, [];
    while e != common
      invariant 0 <= e < |c| && Under(c, e, common) && n >= 0
      invariant var rest := Up(c, e, common, v, n);
        Up(c, from, common, variable, next) == Derived(chain + rest.chain, rest.variable, rest.next)
      decreases e
    {
      var w := InstanceVariable(n, c[e].parent);
      ghost var rest := Up(c, c[e].parent, common, w, n + 1);
      assert chain + ([ParentDerivation(v, w)] + rest.chain) == chain + [ParentDerivation(v, w)] + rest.chain;
      chain := chain + [ParentDerivation(v, w)];
      v, n, e := w, n + 1, c[e].parent;
    }
    assert chain + [] == chain;
    d := Derived(chain, v, n);
  }

  /** The elements below `a` on the way down to `e`. */
  function PathBelow(c: Concrete, e: nat, a: nat): (path: seq<nat>)
    requires WellFormed(c) && e < |c| && Under(c, e, a)
    ensures e != a ==> path != [] && path[|path| - 1] == e
    decreases e
  {
    if e == a then [] else PathBelow(c, c[e].parent, a) + [e]
  }

  lemma {:induction false} PathBelowAt(c: Concrete, e: nat, a: nat, k: nat)
    requires WellFormed(c) && e < |c| && Under(c, e, a) && k < |PathBelow(c, e, a)|
    ensures var x := PathBelow(c, e, a)[k];
      0 < x < |c| && Under(c, x, a) && x != a && PathBelow(c, e, a)[..k + 1] == PathBelow(c, x, a)
    decreases e
  {
    var path := PathBelow(c, e, a);
    if k == |path| - 1 {
      UnderOrder(c, e, a);
      assert path[..k + 1] == path;
    } else {
      PathBelowAt(c, c[e].parent, a, k);
      assert path[..k + 1] == PathBelow(c, c[e].parent, a)[..k + 1];
    }
  }

  lemma {:induction false} DeadStays(c: Concrete, e: nat, a: nat, x: nat, v: Variable, next: nat)
    requires WellFormed(c) && e < |c| && Under(c, e, x) && x < |c| && Under(c, x, a) && Under(c, e, a) &&
        Dead(Down(c, x, a, v, next))
    ensures Down(c, e, a, v, next) == Down(c, x, a, v, next)
    decreases e
  {
    if e != x {
      UnderOrder(c, c[e].parent, x);
      UnderOrder(c, x, a);
      DeadStays(c, c[e].parent, a, x, v, next);
    }
  }

  lemma PathBelowNone(c: Concrete, a: nat)
    requires WellFormed(c) && a < |c|
    ensures PathBelow(c, a, a) == []
  {
  }

  lemma PathBelowStep(c: Concrete, e: nat, a: nat, path: seq<nat>)
    requires WellFormed(c) && e < |c| && Under(c, e, a) && e != a
    ensures PathBelow(c, e, a) + path == PathBelow(c, c[e].parent, a) + ([e] + path)
  {
    assert PathBelow(c, e, a) == PathBelow(c, c[e].parent, a) + [e];
  }

  method GetPathBelow(c: Concrete, to: nat, common: nat) returns (path: seq<nat>)
    requires WellFormed(c) && to < |c| && Under(c, to, common)
    ensures path == PathBelow(c, to, common)
  {
    hide PathBelow;
    UnderOrder(c, to, common);
    PathBelowNone(c, common);
    path := [];
    var e := to;
    while e != common
      invariant 0 <= e < |c| && Under(c, e, common) && PathBelow(c, e, common) + path == PathBelow(c, to, common)
      decreases e
    {
      PathBelowStep(c, e, common, path);
      path := [e] + path;
      e := c[e].parent;
    }
    assert [] + path == path;
  }

  method DeriveDown(c: Concrete, to: nat, common: nat, variable: Variable, next: nat) returns (d: Derived)
    requires WellFormed(c) && to < |c| && Under(c, to, common)
    ensures d == Down(c, to, common, variable, next)
  {
    var path := GetPathBelow(c, to, common);
    d := Derived([], variable, next);
    var i := 0;
    while i != |path|
      invariant i <= |path| && !Dead(d)
      invariant d == DownTo(c, to, common, i, variable, next)
    {
      DownStep(c, to, common, i, variable, next);
      var x := path[i];
      if c[x].action {
        if c[x].size != 1 {
          d := d.(chain := d.chain + [Failure]);
          return;
        }
        var w := InstanceVariable(d.next, x);
        d := Derived(d.chain + [ChildDerivation(d.variable, w)], w, d.next + 1);
      }
      i := i + 1;
    }
    assert to != common ==> path[i - 1] == to;
  }

  /** The derivation down to the `i`-th element of the path. */
  function DownTo(c: Concrete, e: nat, a: nat, i: nat, v: Variable, next: nat): Derived
    requires WellFormed(c) && e < |c| && Under(c, e, a) && i <= |PathBelow(c, e, a)|
  {
    if i == 0 then Derived([], v, next)
    else
      PathBelowAt(c, e, a, i - 1);
      Down(c, PathBelow(c, e, a)[i - 1], a, v, next)
  }

  lemma DownStep(c: Concrete, e: nat, a: nat, i: nat, v: Variable, next: nat)
    requires WellFormed(c) && e < |c| && Under(c, e, a) && i < |PathBelow(c, e, a)| &&
        !Dead(DownTo(c, e, a, i, v, next))
    ensures var x, d, after := PathBelow(c, e, a)[i], DownTo(c, e, a, i, v, next), DownTo(c, e, a, i + 1, v, next);
      x < |c| && (Dead(after) ==> Down(c, e, a, v, next) == after) &&
      after == if !c[x].action then d
               else if c[x].size != 1 then d.(chain := d.chain + [Failure])
               else Derived(d.chain + [ChildDerivation(d.variable, InstanceVariable(d.next, x))],
                 InstanceVariable(d.next, x), d.next + 1)
  {
    PathBelowAt(c, e, a, i);
    ParentOnPath(c, e, a, i);
    UnderPath(c, e, a, i);
    var x := PathBelow(c, e, a)[i];
    assert Down(c, c[x].parent, a, v, next) == DownTo(c, e, a, i, v, next);
    assert DownTo(c, e, a, i + 1, v, next) == Down(c, x, a, v, next);
    if Dead(DownTo(c, e, a, i + 1, v, next)) { DeadStays(c, e, a, x, v, next); }
  }

  lemma ParentOnPath(c: Concrete, e: nat, a: nat, i: nat)
    requires WellFormed(c) && e < |c| && Under(c, e, a) && i < |PathBelow(c, e, a)|
    ensures var path := PathBelow(c, e, a);
      0 < path[i] < |c| && c[path[i]].parent == if i == 0 then a else path[i - 1]
  {
    var path := PathBelow(c, e, a);
    PathBelowAt(c, e, a, i);
    var x := path[i];
    var p := c[x].parent;
    assert PathBelow(c, x, a) == PathBelow(c, p, a) + [x];
    if i == 0 {
      assert |PathBelow(c, p, a)| == 0;
    } else {
      assert path[..i + 1][i - 1] == path[i - 1] == PathBelow(c, p, a)[i - 1];
    }
  }

  lemma {:induction false} UnderPath(c: Concrete, e: nat, a: nat, i: nat)
    requires WellFormed(c) && e < |c| && Under(c, e, a) && i < |PathBelow(c, e, a)|
    ensures Under(c, e, PathBelow(c, e, a)[i])
    decreases e
  {
    if i < |PathBelow(c, e, a)| - 1 { UnderPath(c, c[e].parent, a, i); }
  }

  /** `commonRootDerivation` */
  method DeriveCommonRoot(c: Concrete, from: int, to: nat, variable: Variable, next: nat) returns (d: Derived)
    requires WellFormed(c) && -1 <= from < |c| && to < |c|
    ensures d == CommonRootDerivation(c, from, to, variable, next)
  {
    d := Derived([], variable, next);
    if from != -1 && from != to {
      var common := FindCommonRoot(c, from, to);
      var up := DeriveUp(c, from, common, variable, next);
      d := DeriveDown(c, to, common, up.variable, up.next);
      d := d.(chain := up.chain + d.chain);
    }
  }

  // ---- what the emitted chain evaluates to ----

  /** The variables after a chain has been evaluated. */
  function RunChain(c: Concrete, chain: seq<Instruction>, env: Evaluation.Environment,
          deref: Evaluation.Dereference): Evaluation.Binding
    requires WellFormed(c)
    decreases |chain|
  {
    if chain == [] then Evaluation.Bound(env)
    else
      match RunChain(c, chain[..|chain| - 1], env, deref)
      case Unbound => Evaluation.Unbound
      case Bound(more) => Evaluation.Bind(c, chain[|chain| - 1], more, deref)
  }

  /** A chain, and a tree below its last instruction. */
  function Nest(chain: seq<Instruction>, t: Tree): Tree {
    if chain == [] then t else Nest(chain[..|chain| - 1], Node(chain[|chain| - 1], [t]))
  }

  /** Evaluating a tree that begins with a chain is evaluating the chain and then the rest. */
  lemma {:induction false} NestEvaluates(c: Concrete, chain: seq<Instruction>, t: Tree, env: Evaluation.Environment,
          deref: Evaluation.Dereference)
    requires WellFormed(c) && forall i :: 0 <= i < |chain| ==> Evaluation.Binds(chain[i])
    ensures Evaluation.Evaluate(c, Nest(chain, t), env, deref) ==
      match RunChain(c, chain, env, deref) {
        case Unbound => Evaluation.Stuck
        case Bound(more) => Evaluation.Evaluate(c, t, more, deref)
      }
    decreases |chain|
  {
    if chain != [] {
      var n := |chain| - 1;
      NestEvaluates(c, chain[..n], Node(chain[n], [t]), env, deref);
    }
  }

  lemma {:induction false} RunConcat(c: Concrete, a: seq<Instruction>, b: seq<Instruction>, env: Evaluation.Environment,
          deref: Evaluation.Dereference)
    requires WellFormed(c)
    ensures RunChain(c, a + b, env, deref) ==
      match RunChain(c, a, env, deref) {
        case Unbound => Evaluation.Unbound
        case Bound(more) => RunChain(c, b, more, deref)
      }
    decreases |b|
  {
    if b == [] {
      assert a + b == a;
    } else {
      assert (a + b)[..|a| + |b| - 1] == a + b[..|b| - 1];
      RunConcat(c, a, b[..|b| - 1], env, deref);
    }
  }

  /** All variables set so far have numbers below `next`. */
  predicate Older(env: Evaluation.Environment, next: nat) {
    forall v :: v in env ==> v.id < next
  }

  /** `env` with a variable for an instance of an action; no other value has changed. */
  predicate Holds(env: Evaluation.Environment, more: Evaluation.Environment, v: Variable, action: nat, instance: nat,
          timestamp: nat) {
    v in more && v.InstanceVariable? && v.actionType == action &&
      more[v] == Evaluation.Reference(instance, action, timestamp) &&
    forall w :: w in env ==> w in more && more[w] == env[w]
  }

  lemma {:induction false} UpEvaluates(c: Concrete, e: nat, a: nat, v: Variable, next: nat, env: Evaluation.Environment,
          deref: Evaluation.Dereference)
    requires WellFormed(c) && e < |c| && Under(c, e, a) && v in env && v.InstanceVariable? &&
        v.actionType == env[v].actionType == e && Older(env, next)
    ensures var d := Up(c, e, a, v, next);
      next <= d.next && RunChain(c, d.chain, env, deref).Bound? &&
      Holds(env, RunChain(c, d.chain, env, deref).env, d.variable, a, Ancestor(c, e, a, env[v].instance),
        env[v].timestamp) &&
      Older(RunChain(c, d.chain, env, deref).env, d.next)
    decreases e
  {
    if e != a {
      var p := c[e].parent;
      var w := InstanceVariable(next, p);
      var step := [ParentDerivation(v, w)];
      var more := env[w := Evaluation.Reference(env[v].instance / c[e].size, p, env[v].timestamp)];
      assert step[..0] == [];
      assert RunChain(c, step[..0], env, deref) == Evaluation.Bound(env);
      assert RunChain(c, step, env, deref) == Evaluation.Bound(more);
      UpEvaluates(c, p, a, w, next + 1, more, deref);
      RunConcat(c, step, Up(c, p, a, w, next + 1).chain, env, deref);
    }
  }

  /** The action a target belongs to: itself, or the action of a dimension. */
  function OwnerOf(c: Concrete, e: nat): nat
    requires WellFormed(c) && e < |c|
  {
    if c[e].action then e else c[e].parent
  }

  /** The way down is dead exactly when it has several instances. */
  lemma {:induction false} DownDead(c: Concrete, e: nat, a: nat, v: Variable, next: nat)
    requires WellFormed(c) && e < |c| && c[e].action && Under(c, e, a)
    ensures Dead(Down(c, e, a, v, next)) <==> Factor(c, e, a) > 1
    decreases e
  {
    if e != a {
      DownDead(c, c[e].parent, a, v, next);
      ProductOverOne(c[e].size, Factor(c, c[e].parent, a));
    }
  }

  lemma {:induction false} DownEvaluates(c: Concrete, e: nat, a: nat, v: Variable, next: nat,
          env: Evaluation.Environment, deref: Evaluation.Dereference)
    requires WellFormed(c) && e < |c| && c[e].action && Under(c, e, a) && v in env && v.InstanceVariable? &&
        v.actionType == env[v].actionType == a && Older(env, next)
    requires !Dead(Down(c, e, a, v, next))
    ensures var d := Down(c, e, a, v, next);
      RunChain(c, d.chain, env, deref).Bound? &&
      Holds(env, RunChain(c, d.chain, env, deref).env, d.variable, e, env[v].instance, env[v].timestamp) &&
      Older(RunChain(c, d.chain, env, deref).env, d.next)
    decreases e
  {
    if e != a {
      var d := Down(c, c[e].parent, a, v, next);
      assert !Dead(d) && c[e].size == 1 by { DownStops(c, e, a, v, next); }
      DownEvaluates(c, c[e].parent, a, v, next, env, deref);
      var w := InstanceVariable(d.next, e);
      assert (d.chain + [ChildDerivation(d.variable, w)])[..|d.chain|] == d.chain;
    }
  }

  /** A way down that does not die has one instance at every step. */
  lemma DownStops(c: Concrete, e: nat, a: nat, v: Variable, next: nat)
    requires WellFormed(c) && e < |c| && c[e].action && Under(c, e, a) && e != a && !Dead(Down(c, e, a, v, next))
    ensures !Dead(Down(c, c[e].parent, a, v, next)) && c[e].size == 1
  {
    var d := Down(c, c[e].parent, a, v, next);
    assert Dead(d.(chain := d.chain + [Failure]));
  }

  lemma ProductOverOne(s: nat, f: nat)
    requires s >= 1 && f >= 1
    ensures s * f > 1 <==> s > 1 || f > 1
  {
    if s > 1 { assert s * f >= s; }
    if f > 1 { assert s * f >= f; }
  }

  lemma TwoInRange(j: nat, f: nat)
    requires f >= 1
    ensures f > 1 ==> InRange(j * f, j, f) && InRange(j * f + 1, j, f)
  {
    assert (j + 1) * f == j * f + f;
  }

  lemma OneInRange(j: nat)
    ensures forall k: nat :: InRange(k, j, 1) <==> k == j
  {
    forall k: nat ensures InRange(k, j, 1) <==> k == j {
      assert j * 1 == j && (j + 1) * 1 == j + 1;
    }
  }

  lemma AncestorsInRange(c: Concrete, e: nat, a: nat, j: nat)
    requires WellFormed(c) && e < |c| && Under(c, e, a)
    ensures forall k: nat :: Ancestor(c, e, a, k) == j <==> InRange(k, j, Factor(c, e, a))
  {
    forall k: nat ensures Ancestor(c, e, a, k) == j <==> InRange(k, j, Factor(c, e, a)) {
      AncestorRange(c, e, a, k, j);
    }
  }

  /** There are two instances of `e` below instance `j` of `a`, or there is just one. */
  lemma FactorCounts(c: Concrete, e: nat, a: nat, j: nat) returns (first: nat)
    requires WellFormed(c) && e < |c| && Under(c, e, a)
    ensures Factor(c, e, a) == 1 ==> forall k: nat :: Ancestor(c, e, a, k) == j <==> k == j
    ensures Factor(c, e, a) > 1 ==> Ancestor(c, e, a, first) == j && Ancestor(c, e, a, first + 1) == j
  {
    first := j * Factor(c, e, a);
    AncestorsInRange(c, e, a, j);
    OneInRange(j);
    TwoInRange(j, Factor(c, e, a));
  }

  /** An instance of `e` in range that has the same ancestor at the common root as `i` of `from`. */
  predicate Matches(c: Concrete, from: nat, e: nat, i: nat, k: nat)
    requires WellFormed(c) && from < |c| && e < |c|
  {
    k < TotalDomain(c, e) && Ancestor(c, e, CommonRoot(c, from, e), k) == Ancestor(c, from, CommonRoot(c, from, e), i)
  }

  /** A dimension adds nothing to the way to its action. */
  lemma ToOwner(c: Concrete, from: nat, to: nat, v: Variable, next: nat)
    requires WellFormed(c) && from < |c| && to < |c| && c[from].action
    ensures CommonRoot(c, from, to) == CommonRoot(c, from, OwnerOf(c, to))
    ensures CommonRootDerivation(c, from, to, v, next) == CommonRootDerivation(c, from, OwnerOf(c, to), v, next)
  {
    if !c[to].action {
      var p := c[to].parent;
      CommonRootOfLeaf(c, from, to);
      var r := CommonRoot(c, from, to);
      UnderActions(c, from, r);
      if from == p {
        assert r == p && Up(c, from, r, v, next).chain == [] && Down(c, p, p, v, next).chain == [];
      }
    }
  }

  lemma {:induction false} CommonRootOfLeaf(c: Concrete, from: nat, to: nat)
    requires WellFormed(c) && from < |c| && to < |c| && c[from].action && !c[to].action
    ensures CommonRoot(c, from, to) == CommonRoot(c, from, c[to].parent)
    decreases from
  {
    if from > to { CommonRootOfLeaf(c, c[from].parent, to); CommonRootUp(c, from, c[to].parent); }
  }

  /** An element that comes later than another is not above it. */
  lemma CommonRootUp(c: Concrete, a: nat, b: nat)
    requires WellFormed(c) && b < a < |c|
    ensures CommonRoot(c, a, b) == CommonRoot(c, c[a].parent, b)
  {
  }

  /** Derivation is correct. From instance `i` of an action, the chain emitted for a target
      leaves in its last variable the only instance of the target's action, in range, that has
      the same ancestor at the lowest common ancestor; and a failure is emitted exactly when there
      is more than one such instance. Nothing set before is changed. */
  lemma DerivationTheorem(c: Concrete, from: nat, to: nat, v: Variable, next: nat, env: Evaluation.Environment,
          deref: Evaluation.Dereference)
    requires WellFormed(c) && from < |c| && to < |c| && c[from].action
    requires v in env && v.InstanceVariable? && v.actionType == env[v].actionType == from &&
        env[v].instance < TotalDomain(c, from) && Older(env, next)
    ensures var e, i, d := OwnerOf(c, to), env[v].instance, CommonRootDerivation(c, from, to, v, next);
      && (Dead(d) <==> exists k, l :: k != l && Matches(c, from, e, i, k) && Matches(c, from, e, i, l))
      && (!Dead(d) ==>
            RunChain(c, d.chain, env, deref).Bound? &&
            var more := RunChain(c, d.chain, env, deref).env;
            Older(more, d.next) && d.variable in more && Matches(c, from, e, i, more[d.variable].instance) &&
            Holds(env, more, d.variable, e, more[d.variable].instance, env[v].timestamp) &&
            forall k :: Matches(c, from, e, i, k) ==> k == more[d.variable].instance)
  {
    ToOwner(c, from, to, v, next);
    ActionDerivation(c, from, OwnerOf(c, to), v, next, env, deref);
  }

  /** The instances that match are those whose ancestor is `j`, all of them in range. */
  lemma MatchesAre(c: Concrete, from: nat, e: nat, i: nat, k: nat)
    requires WellFormed(c) && from < |c| && e < |c| && i < TotalDomain(c, from)
    ensures var r := CommonRoot(c, from, e);
        Matches(c, from, e, i, k) <==> Ancestor(c, e, r, k) == Ancestor(c, from, r, i)
  {
    var r := CommonRoot(c, from, e);
    AncestorInRange(c, from, r, i);
    AncestorInRange(c, e, r, k);
  }

  /** More than one instance matches exactly when an action on the way down has several. */
  lemma MatchesCount(c: Concrete, from: nat, e: nat, i: nat)
    requires WellFormed(c) && from < |c| && e < |c| && i < TotalDomain(c, from)
    ensures var r := CommonRoot(c, from, e); var j := Ancestor(c, from, r, i);
      (Factor(c, e, r) > 1 <==> exists k, l :: k != l && Matches(c, from, e, i, k) && Matches(c, from, e, i, l)) &&
      (Factor(c, e, r) == 1 ==> forall k: nat :: Matches(c, from, e, i, k) <==> k == j)
  {
    var r := CommonRoot(c, from, e);
    var j := Ancestor(c, from, r, i);
    var first := FactorCounts(c, e, r, j);
    forall k: nat ensures Matches(c, from, e, i, k) <==> Ancestor(c, e, r, k) == j {
      MatchesAre(c, from, e, i, k);
    }
    if Factor(c, e, r) > 1 {
      var second := first + 1;
      assert Matches(c, from, e, i, first) && Matches(c, from, e, i, second);
    }
  }

  lemma ActionDerivation(c: Concrete, from: nat, e: nat, v: Variable, next: nat, env: Evaluation.Environment,
          deref: Evaluation.Dereference)
    requires WellFormed(c) && from < |c| && e < |c| && c[from].action && c[e].action
    requires v in env && v.InstanceVariable? && v.actionType == env[v].actionType == from &&
        env[v].instance < TotalDomain(c, from) && Older(env, next)
    ensures var i, d := env[v].instance, CommonRootDerivation(c, from, e, v, next);
      && (Dead(d) <==> exists k, l :: k != l && Matches(c, from, e, i, k) && Matches(c, from, e, i, l))
      && (!Dead(d) ==>
            RunChain(c, d.chain, env, deref).Bound? &&
            var more := RunChain(c, d.chain, env, deref).env;
            Older(more, d.next) && d.variable in more && Matches(c, from, e, i, more[d.variable].instance) &&
            Holds(env, more, d.variable, e, more[d.variable].instance, env[v].timestamp) &&
            forall k :: Matches(c, from, e, i, k) ==> k == more[d.variable].instance)
  {
    var i := env[v].instance;
    MatchesCount(c, from, e, i);
    var r := CommonRoot(c, from, e);
    if from != e {
      var u := Up(c, from, r, v, next);
      UpEvaluates(c, from, r, v, next, env, deref);
      var mid := RunChain(c, u.chain, env, deref).env;
      var d := Down(c, e, r, u.variable, u.next);
      DownDead(c, e, r, u.variable, u.next);
      if !Dead(d) { DownEvaluates(c, e, r, u.variable, u.next, mid, deref); }
      RunConcat(c, u.chain, d.chain, env, deref);
      UpAlive(c, from, r, v, next);
      assert Dead(CommonRootDerivation(c, from, e, v, next)) <==> Dead(d);
    }
  }

  lemma {:induction false} UpAlive(c: Concrete, e: nat, a: nat, v: Variable, next: nat)
    requires WellFormed(c) && e < |c| && Under(c, e, a)
    ensures forall i :: 0 <= i < |Up(c, e, a, v, next).chain| ==> Up(c, e, a, v, next).chain[i].ParentDerivation?
    decreases e
  {
    if e != a { UpAlive(c, c[e].parent, a, InstanceVariable(next, c[e].parent), next + 1); }
  }

  // ---- ranges ----

  predicate InRange(k: nat, i: nat, m: nat) {
    i * m <= k < (i + 1) * m
  }

  lemma RangeBounds(i: nat, m: nat, t: nat)
    requires i < t && m >= 1
    ensures i * m < (i + 1) * m <= t * m && m <= t * m
  {
    assert (i + 1) * m == i * m + m;
    assert (i + 1) * m <= t * m;
    assert 1 * m <= t * m;
  }

  /** The range of an enumeration is exact: the numbers from `i * m` up to `(i + 1) * m` are
      exactly the instances of the target below instance `i`, they are all in range, and no
      product the evaluation computes exceeds the number of instances of the target. */
  lemma RangeTheorem(c: Concrete, action: nat, target: nat, i: nat)
    requires WellFormed(c) && target < |c| && Under(c, target, action) && action < |c| && i < TotalDomain(c, action)
    ensures var m := Factor(c, target, action);
      (forall k: nat :: InRange(k, i, m) <==> k < TotalDomain(c, target) && Ancestor(c, target, action, k) == i) &&
      m <= TotalDomain(c, target) && i * m < (i + 1) * m <= TotalDomain(c, target)
  {
    TotalFactor(c, target, action);
    RangeBounds(i, Factor(c, target, action), TotalDomain(c, action));
    AncestorsInRange(c, target, action, i);
    forall k: nat ensures Ancestor(c, target, action, k) == i ==> k < TotalDomain(c, target) {
      AncestorInRange(c, target, action, k);
    }
  }

  lemma TileAt(c: Concrete, action: nat, target: nat, k: nat, i: nat)
    requires WellFormed(c) && target < |c| && Under(c, target, action) && action < |c|
    ensures InRange(k, i, Factor(c, target, action)) <==> i == Ancestor(c, target, action, k)
    ensures k < TotalDomain(c, target) ==> Ancestor(c, target, action, k) < TotalDomain(c, action)
  {
    AncestorRange(c, target, action, k, i);
    AncestorInRange(c, target, action, k);
  }

  /** Over all instances of the enumeration action the ranges follow one another without gap or
      overlap, from zero to the number of instances of the target: every instance of the target
      is in the range of one instance of the action, and of no other. */
  lemma RangesTile(c: Concrete, action: nat, target: nat)
    requires WellFormed(c) && target < |c| && Under(c, target, action) && action < |c|
    ensures TotalDomain(c, action) * Factor(c, target, action) == TotalDomain(c, target)
    ensures forall k: nat :: k < TotalDomain(c, target) ==>
      Ancestor(c, target, action, k) < TotalDomain(c, action) &&
        InRange(k, Ancestor(c, target, action, k), Factor(c, target, action))
    ensures forall k: nat, i: nat :: InRange(k, i, Factor(c, target, action)) ==> i == Ancestor(c, target, action, k)
  {
    TotalFactor(c, target, action);
    forall k: nat, i: nat
      ensures InRange(k, i, Factor(c, target, action)) <==> i == Ancestor(c, target, action, k)
      ensures k < TotalDomain(c, target) ==> Ancestor(c, target, action, k) < TotalDomain(c, action)
    {
      TileAt(c, action, target, k, i);
    }
  }

  lemma Bounds(i: nat, m: nat, low: nat, high: nat)
    requires low == i * m && high == (i + 1) * m
    ensures forall k: nat :: InRange(k, i, m) <==> low <= k < high
  {
  }

  /** The loop that computes the multiplier, and the sub-range it gives: no product computed on the
      way exceeds the total domain of the target. */
  method SubRange(c: Concrete, action: nat, target: nat, i: nat) returns (low: nat, high: nat, ghost products: seq<nat>)
    requires WellFormed(c) && target < |c| && Under(c, target, action) && action < |c| && i < TotalDomain(c, action)
    ensures forall k: nat :: low <= k < high <==> k < TotalDomain(c, target) && Ancestor(c, target, action, k) == i
    ensures low < high <= TotalDomain(c, target) &&
        forall k :: 0 <= k < |products| ==> products[k] <= TotalDomain(c, target)
  {
    var m;
    m, products := GetObjectDomainFactor(c, target, action);
    low, high := i * m, (i + 1) * m;
    products := products + [low, high];
    NotSmaller(m, i + 1);
    RangeTheorem(c, action, target, i);
    Bounds(i, m, low, high);
  }
}
