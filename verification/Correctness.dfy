/** What an evaluated invocation does is what its names say: the compiler, from the names to the
    operation that is carried out, keeps their meaning. */
module Correctness {
  import opened Instructions
  import opened EliminationSpec
  import opened Derivation
  import opened Builder
  import opened BuiltShape
  import C = ConcreteTree
  import Compilation
  import Evaluation

  // ---- the meaning of names ----

  /** What is carried out: an operation for a target, on one instance of an action. */
  datatype Effect = Effect(kind: OperationKind, target: nat, action: int, instance: nat)

  /** `k` is the one instance of `e` that belongs to instance `i` of `from`. */
  ghost predicate TheInstance(c: C.Concrete, from: nat, e: nat, i: nat, k: nat)
    requires C.WellFormed(c) && from < |c| && e < |c|
  {
    Matches(c, from, e, i, k) && forall l :: Matches(c, from, e, i, l) ==> l == k
  }

  /** A name, read from instance `i` of an action: a terminal names its effect on the one instance
      that belongs to `i`; a reference is dereferenced there; any other name stands for its one
      instance, and one of the names after it goes on. */
  ghost predicate Says(c: C.Concrete, op: OperationID, from: nat, i: nat, time: nat, n: Name,
          deref: Evaluation.Dereference, e: Effect)
    requires C.WellFormed(c) && from < |c| && Buildable(c, op, n)
    decreases n, 1
  {
    if n.children == [] then
      Performs(op, c[n.element], e.kind) && e.target == n.element &&
      e.action == ActsOn(c, e.kind, n.element) && 0 <= e.action < |c| &&
      TheInstance(c, from, e.action, i, e.instance)
    else
      var action := OwnerOf(c, n.element);
      exists k :: TheInstance(c, from, action, i, k) &&
        if n.reference then
          SaysTypes(c, op, n.children, deref(Evaluation.Reference(k, action, time), n.element), deref, e)
        else SaysOneOf(c, op, n, k, time, deref, e)
  }

  ghost predicate SaysOneOf(c: C.Concrete, op: OperationID, n: Name, i: nat, time: nat, deref: Evaluation.Dereference,
          e: Effect)
    requires C.WellFormed(c) && Buildable(c, op, n)
    decreases n, 0
  {
    exists j :: 0 <= j < |n.children| && Says(c, op, n.element, i, time, n.children[j], deref, e)
  }

  /** The first of the names that has the type of the reference goes on. */
  ghost predicate SaysTypes(c: C.Concrete, op: OperationID, ns: seq<Name>, r: Evaluation.Reference,
          deref: Evaluation.Dereference, e: Effect)
    requires C.WellFormed(c) && AllBuildable(c, op, ns)
    decreases ns, 1
  {
    exists j :: 0 <= j < |ns| && IsFirst(ns, r.actionType, j) && SaysType(c, op, ns[j], r, deref, e)
  }

  /** Where nothing comes after it, the operation is for the instance referred to. */
  ghost predicate SaysType(c: C.Concrete, op: OperationID, n: Name, r: Evaluation.Reference,
          deref: Evaluation.Dereference, e: Effect)
    requires C.WellFormed(c) && Buildable(c, op, n)
    decreases n, 1
  {
    if n.children == [] then
      Performs(op, c[n.element], e.kind) && e.target == n.element && e.instance == r.instance &&
      e.action == n.element == ActsOn(c, e.kind, n.element)
    else SaysOneOf(c, op, n, r.instance, r.timestamp, deref, e)
  }

  /** References are dimensions, all other names that go on are actions, and so are the types of a reference. */
  predicate Sensible(c: C.Concrete, op: OperationID, n: Name)
    requires C.WellFormed(c)
    decreases n, 0
  {
    n.element < |c| && (n.children != [] ==> (n.reference <==> !c[n.element].action)) &&
    if n.reference then SensibleTypes(c, op, n.element, n.children)
      else forall j :: 0 <= j < |n.children| ==> Sensible(c, op, n.children[j])
  }

  predicate SensibleTypes(c: C.Concrete, op: OperationID, prev: int, ns: seq<Name>)
    requires C.WellFormed(c)
    decreases ns
  {
    forall i :: 0 <= i < |ns| ==> SensibleType(c, op, prev, ns[i])
  }

  predicate SensibleType(c: C.Concrete, op: OperationID, prev: int, n: Name)
    requires C.WellFormed(c)
    decreases n
  {
    n.element < |c| && c[n.element].action && (n.children == [] ==> FinalFits(c, op, prev, n.element)) &&
      forall j :: 0 <= j < |n.children| ==> Sensible(c, op, n.children[j])
  }

  // ---- final dereferences ----

  /** What a final dereference is derived by: the builder starts from the dimension, as if it held an
      instance of the dimension's action, while its variable is of the type referred to. */
  function FinalRoot(c: C.Concrete, dimension: nat, action: nat): (root: nat)
    requires C.WellFormed(c) && dimension < |c| && action < |c| && !c[dimension].action && c[action].action
    ensures C.Under(c, c[dimension].parent, root) && C.Under(c, action, root) && root < |c| && root != dimension
  {
    var root := C.CommonRoot(c, dimension, action);
    C.UnderActions(c, action, root);
    root
  }

  /** A final dereference reaches the instance referred to, whichever it is, or nothing: there is one
      instance of the type in its parent, and one way from the dimension's action up to what is
      above both; or the way is blocked. The names of contexts are not derived at all. */
  predicate FinalFits(c: C.Concrete, op: OperationID, prev: int, action: nat)
    requires C.WellFormed(c)
  {
    !Starts(op) &&
    (prev == -1 ||
     (0 <= prev < |c| && action < |c| && !c[prev].action && c[action].action &&
      (WayBlocked(c, prev, action) || Straight(c, prev, action))))
  }

  predicate Straight(c: C.Concrete, dimension: nat, action: nat)
    requires C.WellFormed(c) && dimension < |c| && action < |c|
  {
    !c[dimension].action && c[action].action && c[action].size == 1 &&
    C.Factor(c, c[dimension].parent, FinalRoot(c, dimension, action)) == 1
  }

  /** The instance that is reached, whatever was referred to. */
  function FinalInstance(c: C.Concrete, dimension: nat, action: nat, i: nat): nat
    requires C.WellFormed(c) && dimension < |c| && action < |c| && !c[dimension].action && c[action].action
  {
    C.Ancestor(c, c[dimension].parent, FinalRoot(c, dimension, action), i / c[action].size)
  }

  /** It is the instance referred to exactly when that is the first one, or the way is straight. */
  lemma FinalExact(c: C.Concrete, dimension: nat, action: nat, i: nat)
    requires C.WellFormed(c) && dimension < |c| && action < |c| && !c[dimension].action && c[action].action
    ensures FinalInstance(c, dimension, action, i) == i <==> i == 0 || Straight(c, dimension, action)
  {
    var s, f := c[action].size, C.Factor(c, c[dimension].parent, FinalRoot(c, dimension, action));
    C.AncestorRange(c, c[dimension].parent, FinalRoot(c, dimension, action), i / s, i);
    QuotientIsSelf(i, s, f);
  }

  lemma QuotientIsSelf(i: nat, s: nat, f: nat)
    requires s >= 1 && f >= 1
    ensures i * f <= i / s < (i + 1) * f <==> i == 0 || (s == 1 && f == 1)
  {
    if i == 0 {
      assert 0 * f == 0 && (0 + 1) * f == f;
    } else {
      C.QuotientBound(i, s, i * f);
      if s > 1 || f > 1 {
        NotBelow(i, f, s);
      } else {
        assert i * 1 == i && (i + 1) * 1 == i + 1;
      }
    }
  }

  lemma NotBelow(i: nat, f: nat, s: nat)
    requires i >= 1 && f >= 1 && s >= 1 && (s > 1 || f > 1)
    ensures (i * f) * s > i
  {
    if s > 1 {
      assert i * f >= i;
      assert (i * f) * s >= (i * f) * 2;
    } else {
      assert i * f >= i * 2;
    }
  }

  /** References are to instances there are. */
  ghost predicate InDomain(c: C.Concrete, deref: Evaluation.Dereference)
    requires C.WellFormed(c)
  {
    forall r: Evaluation.Reference, e: nat :: Exists(c, deref(r, e))
  }

  predicate Exists(c: C.Concrete, r: Evaluation.Reference)
    requires C.WellFormed(c)
  {
    r.actionType < |c| ==> r.instance < C.TotalDomain(c, r.actionType)
  }

  // ---- resolutions of a tree ----

  /** Below a chain, only what hangs below is left to choose; and the chain does not fail. */
  lemma {:induction false} NestPicks(chain: seq<Instruction>, t: Tree, d: Tree) returns (below: Tree)
    requires Picks(Nest(chain, t), d) && forall i :: 0 <= i < |chain| ==> !chain[i].Elimination?
    ensures d == Nest(chain, below) && Picks(t, below)
    ensures forall i :: 0 <= i < |chain| ==> !chain[i].Failure?
    decreases |chain|
  {
    if chain == [] {
      below := d;
    } else {
      var n := |chain| - 1;
      var last := NestPicks(chain[..n], Node(chain[n], [t]), d);
      assert last == Node(chain[n], [last.children[0]]) && Picks([t][0], last.children[0]);
      below := last.children[0];
    }
  }

  // ---- where evaluation stands ----

  /** The variable holds an instance of the action. */
  predicate Stands(c: C.Concrete, env: Evaluation.Environment, v: Variable, action: nat, next: nat)
    requires C.WellFormed(c)
  {
    action < |c| && c[action].action && v in env && v.InstanceVariable? &&
      v.actionType == env[v].actionType == action &&
    env[v].instance < C.TotalDomain(c, action) && Derivation.Older(env, next)
  }

  /** The evaluation has the effect. */
  predicate Carries(r: Evaluation.Result, e: Effect) {
    r.Reached? && r.operation.Operation? && r.operation.kind == e.kind && r.operation.target == e.target &&
    r.operation.instance in r.env &&
    r.env[r.operation.instance].actionType == e.action && r.env[r.operation.instance].instance == e.instance
  }

  /** A derivation that does not fail leaves its variable on the one instance that belongs to where
      it started, and the rest is evaluated from there. */
  lemma DeriveStep(c: C.Concrete, from: nat, to: nat, v: Variable, next: nat, t: Tree, d: Tree,
          env: Evaluation.Environment, deref: Evaluation.Dereference)
    returns (below: Tree, more: Evaluation.Environment)
    requires C.WellFormed(c) && to < |c| && Stands(c, env, v, from, next)
    requires Picks(Nest(CommonRootDerivation(c, from, to, v, next).chain, t), d)
    ensures Picks(t, below) && Evaluation.Evaluate(c, d, env, deref) == Evaluation.Evaluate(c, below, more, deref)
    ensures var s := CommonRootDerivation(c, from, to, v, next);
      !Dead(s) && d == Nest(s.chain, below) && Stands(c, more, s.variable, OwnerOf(c, to), s.next) &&
      more[s.variable].timestamp == env[v].timestamp &&
        TheInstance(c, from, OwnerOf(c, to), env[v].instance, more[s.variable].instance)
  {
    hide Matches, Evaluation.Evaluate, CommonRootDerivation, RunChain, Nest, WayStart, WayBlocked, Picks;
    hide C.TotalDomain, C.WellFormed;
    var s := CommonRootDerivation(c, from, to, v, next);
    OwnerIsAction(c, to);
    WayMeets(c, from, to, v, next);
    assert forall i :: 0 <= i < |s.chain| ==> !s.chain[i].Elimination?;
    below := NestPicks(s.chain, t, d);
    DerivationTheorem(c, from, to, v, next, env, deref);
    Compilation.ChainBinds(c, from, to, v, next);
    NestEvaluates(c, s.chain, below, env, deref);
    more := RunChain(c, s.chain, env, deref).env;
    MatchesInDomain(c, from, OwnerOf(c, to), env[v].instance, more[s.variable].instance);
  }

  lemma OwnerIsAction(c: C.Concrete, e: nat)
    requires C.WellFormed(c) && e < |c|
    ensures OwnerOf(c, e) < |c| && c[OwnerOf(c, e)].action
  {
  }

  lemma MatchesInDomain(c: C.Concrete, from: nat, e: nat, i: nat, k: nat)
    requires C.WellFormed(c) && from < |c| && e < |c| && Matches(c, from, e, i, k)
    ensures k < C.TotalDomain(c, e)
  {
  }

  // ---- the compiler keeps the meaning ----

  /** What every step of the visitor promises: any resolution of what it builds, evaluated, has an
      effect that the name says. */
  lemma {:induction false} NameCorrect(c: C.Concrete, op: OperationID, from: nat, n: Name, v: Variable, next: nat,
          d: Tree, env: Evaluation.Environment, deref: Evaluation.Dereference)
    returns (e: Effect)
    requires C.WellFormed(c) && Buildable(c, op, n) && Runs(c, op, n, deref) && Sensible(c, op, n) && InDomain(c, deref)
    requires Stands(c, env, v, from, next) && Picks(BuildName(c, op, from, n, v, next).0, d)
    ensures Carries(Evaluation.Evaluate(c, d, env, deref), e) &&
        Says(c, op, from, env[v].instance, env[v].timestamp, n, deref, e)
    decreases n, 2
  {
    if n.children == [] {
      e := TerminalCorrect(c, op, from, n, v, next, d, env, deref);
    } else {
      var s := CommonRootDerivation(c, from, n.element, v, next);
      var t := if n.reference then BuildReference(c, op, n, s.variable, s.next)
        else BuildChoice(c, op, n, s.variable, s.next);
      var below, more := DeriveStep(c, from, n.element, v, next, t.0, d, env, deref);
      if n.reference {
        e := ReferenceCorrect(c, op, n, s.variable, s.next, below, more, deref);
      } else {
        e := ChoiceCorrect(c, op, n, s.variable, s.next, below, more, deref);
      }
    }
  }

  lemma TerminalCorrect(c: C.Concrete, op: OperationID, from: nat, n: Name, v: Variable, next: nat, d: Tree,
          env: Evaluation.Environment, deref: Evaluation.Dereference)
    returns (e: Effect)
    requires C.WellFormed(c) && Buildable(c, op, n) && Runs(c, op, n, deref) && n.children == []
    requires Stands(c, env, v, from, next) && Picks(BuildName(c, op, from, n, v, next).0, d)
    ensures Carries(Evaluation.Evaluate(c, d, env, deref), e) &&
        Says(c, op, from, env[v].instance, env[v].timestamp, n, deref, e)
  {
    var x := n.element;
    var target := if c[x].action && Starts(op) then c[x].parent else x;
    var s := CommonRootDerivation(c, from, target, v, next);
    var leaf := Node(Operation(KindOf(c, op, x), s.next, s.variable, x), []);
    var below, more := DeriveStep(c, from, target, v, next, leaf, d, env, deref);
    assert below == leaf;
    KindExact(c, op, x);
    assert OwnerOf(c, target) == ActsOn(c, KindOf(c, op, x), x);
    e := Effect(KindOf(c, op, x), x, OwnerOf(c, target), more[s.variable].instance);
  }

  lemma {:induction false} ChoiceCorrect(c: C.Concrete, op: OperationID, n: Name, v: Variable, next: nat, d: Tree,
          env: Evaluation.Environment, deref: Evaluation.Dereference)
    returns (e: Effect)
    requires C.WellFormed(c) && Buildable(c, op, n) && Runs(c, op, n, deref) && n.children != [] && InDomain(c, deref)
    requires forall j :: 0 <= j < |n.children| ==> Sensible(c, op, n.children[j])
    requires Stands(c, env, v, n.element, next) && Picks(BuildChoice(c, op, n, v, next).0, d)
    ensures Carries(Evaluation.Evaluate(c, d, env, deref), e) &&
        SaysOneOf(c, op, n, env[v].instance, env[v].timestamp, deref, e)
    decreases n, 1
  {
    var all := BuildNames(c, op, n.element, n.children, v, next).0;
    var j := ChosenName(c, op, n, v, next, d);
    var m := NamesAt(c, op, n.element, n.children, v, next, j);
    assert Stands(c, env, v, n.element, m);
    e := NameCorrect(c, op, n.element, n.children[j], v, m, d, env, deref);
  }

  lemma ChosenName(c: C.Concrete, op: OperationID, n: Name, v: Variable, next: nat, d: Tree) returns (j: nat)
    requires C.WellFormed(c) && Buildable(c, op, n) && n.children != [] && Picks(BuildChoice(c, op, n, v, next).0, d)
    ensures j < |n.children| && Picks(BuildNames(c, op, n.element, n.children, v, next).0[j], d)
  {
    var all := BuildNames(c, op, n.element, n.children, v, next).0;
    if |n.children| > 1 {
      assert Picks(Node(Elimination, all), d);
      j :| 0 <= j < |all| && Picks(all[j], d);
    } else {
      j := 0;
    }
  }

  /** Each name is built on its own, with later numbers. */
  lemma {:induction false} NamesAt(c: C.Concrete, op: OperationID, prev: int, ns: seq<Name>, v: Variable, next: nat,
          j: nat) returns (m: nat)
    requires C.WellFormed(c) && -1 <= prev < |c| && AllBuildable(c, op, ns) && j < |ns|
    ensures next <= m && BuildNames(c, op, prev, ns, v, next).0[j] == BuildName(c, op, prev, ns[j], v, m).0
  {
    var n := |ns| - 1;
    if j == n {
      m := BuildNames(c, op, prev, ns[..n], v, next).1;
    } else {
      m := NamesAt(c, op, prev, ns[..n], v, next, j);
    }
  }

  lemma {:induction false} CasesAt(c: C.Concrete, op: OperationID, prev: int, ns: seq<Name>, reference: Variable,
          next: nat, j: nat) returns (m: nat)
    requires C.WellFormed(c) && -1 <= prev < |c| && AllBuildable(c, op, ns) && j < |ns|
    ensures next <= m
    ensures var v := InstanceVariable(m, ns[j].element);
      BuildCases(c, op, prev, ns, reference, next).0[j] ==
        Node(PolyCase(reference, v), [BuildType(c, op, prev, ns[j], v, m + 1).0])
  {
    var n := |ns| - 1;
    if j == n {
      m := BuildCases(c, op, prev, ns[..n], reference, next).1;
    } else {
      m := CasesAt(c, op, prev, ns[..n], reference, next, j);
    }
  }

  lemma {:induction false} ReferenceCorrect(c: C.Concrete, op: OperationID, n: Name, v: Variable, next: nat, d: Tree,
          env: Evaluation.Environment, deref: Evaluation.Dereference)
    returns (e: Effect)
    requires C.WellFormed(c) && Buildable(c, op, n) && Runs(c, op, n, deref) && n.children != [] && n.reference
    requires SensibleTypes(c, op, n.element, n.children) && InDomain(c, deref)
    requires Stands(c, env, v, OwnerOf(c, n.element), next) && Picks(BuildReference(c, op, n, v, next).0, d)
    ensures Carries(Evaluation.Evaluate(c, d, env, deref), e) &&
        SaysTypes(c, op, n.children, deref(env[v], n.element), deref, e)
    decreases n, 1
  {
    var reference := ReferenceVariable(next, Elements(n.children));
    var inner := BuildDereference(c, op, n.element, n.children, reference, next + 1).0;
    var below := OnlyPick(DimensionRead(v, reference, n.element), inner, d);
    assert reference !in env;
    var more := env[reference := deref(env[v], n.element)];
    assert Evaluation.Evaluate(c, d, env, deref) == Evaluation.Evaluate(c, below, more, deref);
    e := DereferenceCorrect(c, op, n.element, n.children, reference, next + 1, below, more, deref);
  }

  lemma OnlyPick(i: Instruction, t: Tree, d: Tree) returns (below: Tree)
    requires !i.Elimination? && Picks(Node(i, [t]), d)
    ensures d == Node(i, [below]) && Picks(t, below)
  {
    assert Picks([t][0], d.children[0]);
    below := d.children[0];
  }

  /** The variable holds a reference of one of the types of the names. */
  predicate Refers(c: C.Concrete, env: Evaluation.Environment, reference: Variable, ns: seq<Name>, next: nat)
    requires C.WellFormed(c)
  {
    reference in env && env[reference].actionType in Elements(ns) && Exists(c, env[reference]) &&
      Derivation.Older(env, next)
  }

  lemma FirstOf(ns: seq<Name>, action: nat) returns (j: nat)
    requires action in Elements(ns)
    ensures IsFirst(ns, action, j)
  {
    j := 0;
    while ns[j].element != action
      invariant j < |ns| && (forall l :: 0 <= l < j ==> ns[l].element != action) && action in Elements(ns)[j..]
      decreases |ns| - j
    {
      j := j + 1;
    }
  }

  lemma {:induction false} DereferenceCorrect(c: C.Concrete, op: OperationID, prev: int, ns: seq<Name>,
          reference: Variable, next: nat, d: Tree, env: Evaluation.Environment, deref: Evaluation.Dereference)
    returns (e: Effect)
    requires C.WellFormed(c) && -1 <= prev < |c| && ns != [] && AllBuildable(c, op, ns) && AllRun(c, op, ns, deref)
    requires SensibleTypes(c, op, prev, ns) && InDomain(c, deref) && Refers(c, env, reference, ns, next)
    requires Picks(BuildDereference(c, op, prev, ns, reference, next).0, d)
    ensures Carries(Evaluation.Evaluate(c, d, env, deref), e) && SaysTypes(c, op, ns, env[reference], deref, e)
    decreases ns, 1
  {
    var r := env[reference];
    var j := FirstOf(ns, r.actionType);
    if |ns| > 1 {
      e := CaseCorrect(c, op, prev, ns, reference, next, j, d, env, deref);
    } else {
      var v := InstanceVariable(next, ns[0].element);
      var below := OnlyPick(MonoReference(reference, v), BuildType(c, op, prev, ns[0], v, next + 1).0, d);
      assert v !in env;
      var more := env[v := r];
      assert Evaluation.Evaluate(c, d, env, deref) == Evaluation.Evaluate(c, below, more, deref);
      e := TypeCorrect(c, op, prev, ns[0], v, next + 1, below, more, deref);
    }
  }

  lemma {:induction false} CaseCorrect(c: C.Concrete, op: OperationID, prev: int, ns: seq<Name>, reference: Variable,
          next: nat, j: nat, d: Tree, env: Evaluation.Environment, deref: Evaluation.Dereference)
    returns (e: Effect)
    requires C.WellFormed(c) && -1 <= prev < |c| && |ns| > 1 && AllBuildable(c, op, ns) && AllRun(c, op, ns, deref)
    requires SensibleTypes(c, op, prev, ns) && InDomain(c, deref) && Refers(c, env, reference, ns, next) &&
        IsFirst(ns, env[reference].actionType, j)
    requires Picks(Node(PolyBranch(reference), BuildCases(c, op, prev, ns, reference, next).0), d)
    ensures Carries(Evaluation.Evaluate(c, d, env, deref), e) &&
        SaysType(c, op, ns[j], env[reference], deref, e)
    decreases ns, 0
  {
    hide Evaluation.EvaluateCases, Picks, BuildCases, BuildType;
    var r := env[reference];
    var m := CasesAt(c, op, prev, ns, reference, next, j);
    var v := InstanceVariable(m, ns[j].element);
    CasesTyped(c, op, prev, ns, reference, next, d);
    var below := OnlyPick(PolyCase(reference, v), BuildType(c, op, prev, ns[j], v, m + 1).0, d.children[j]);
    CasesSelect(c, d, 0, j, r.actionType, env, deref);
    assert v !in env;
    var more := env[v := r];
    assert Evaluation.Evaluate(c, d.children[j], env, deref) == Evaluation.Evaluate(c, below, more, deref);
    e := TypeCorrect(c, op, prev, ns[j], v, m + 1, below, more, deref);
  }

  /** Whatever is chosen below a branch, its cases are those of the names. */
  lemma CasesTyped(c: C.Concrete, op: OperationID, prev: int, ns: seq<Name>, reference: Variable, next: nat, d: Tree)
    requires C.WellFormed(c) && -1 <= prev < |c| && AllBuildable(c, op, ns)
    requires Picks(Node(PolyBranch(reference), BuildCases(c, op, prev, ns, reference, next).0), d)
    ensures d.instr == PolyBranch(reference) && |d.children| == |ns|
    ensures forall i :: 0 <= i < |ns| ==>
      Picks(BuildCases(c, op, prev, ns, reference, next).0[i], d.children[i]) &&
      d.children[i].instr.PolyCase? && Evaluation.CaseType(d.children[i].instr) == ns[i].element
  {
    hide BuildCases, BuildType;
    var all := BuildCases(c, op, prev, ns, reference, next).0;
    forall i | 0 <= i < |ns| ensures d.children[i].instr.PolyCase? &&
      Evaluation.CaseType(d.children[i].instr) == ns[i].element {
      assert Picks(all[i], d.children[i]);
      var m := CasesAt(c, op, prev, ns, reference, next, i);
      var v := InstanceVariable(m, ns[i].element);
      var below := OnlyPick(PolyCase(reference, v), BuildType(c, op, prev, ns[i], v, m + 1).0, d.children[i]);
    }
  }

  lemma {:induction false} CasesSelect(c: C.Concrete, d: Tree, i: nat, j: nat, action: nat, env: Evaluation.Environment,
          deref: Evaluation.Dereference)
    requires C.WellFormed(c) && i <= j < |d.children|
    requires forall l :: 0 <= l < |d.children| ==> d.children[l].instr.PolyCase?
    requires Evaluation.CaseType(d.children[j].instr) == action
    requires forall l :: i <= l < j ==> Evaluation.CaseType(d.children[l].instr) != action
    ensures Evaluation.EvaluateCases(c, d, i, action, env, deref) == Evaluation.Evaluate(c, d.children[j], env, deref)
    decreases j - i
  {
    if i < j { CasesSelect(c, d, i + 1, j, action, env, deref); }
  }

  lemma {:induction false} TypeCorrect(c: C.Concrete, op: OperationID, prev: int, n: Name, v: Variable, next: nat,
          d: Tree, env: Evaluation.Environment, deref: Evaluation.Dereference)
    returns (e: Effect)
    requires C.WellFormed(c) && -1 <= prev < |c| && Buildable(c, op, n) && Runs(c, op, n, deref) &&
        SensibleType(c, op, prev, n) && InDomain(c, deref)
    requires Stands(c, env, v, n.element, next) && Picks(BuildType(c, op, prev, n, v, next).0, d)
    ensures Carries(Evaluation.Evaluate(c, d, env, deref), e) && SaysType(c, op, n, env[v], deref, e)
    decreases n, 2
  {
    if n.children != [] {
      e := ChoiceCorrect(c, op, n, v, next, d, env, deref);
    } else {
      if prev == -1 {
        ContextReached(c, op, n.element, v, next, d, env, deref);
      } else {
        FinalReached(c, op, prev, n.element, v, next, d, env, deref);
        FinalExact(c, prev, n.element, env[v].instance);
      }
      KindExact(c, op, n.element);
      e := Effect(KindOf(c, op, n.element), n.element, n.element, env[v].instance);
    }
  }

  lemma ContextReached(c: C.Concrete, op: OperationID, action: nat, v: Variable, next: nat, d: Tree,
          env: Evaluation.Environment, deref: Evaluation.Dereference)
    requires C.WellFormed(c) && Stands(c, env, v, action, next) && !Starts(op) && Operable(c, op, action)
    requires Picks(BuildOperation(c, op, -1, action, v, next).0, d)
    ensures Carries(Evaluation.Evaluate(c, d, env, deref),
        Effect(KindOf(c, op, action), action, action, env[v].instance))
  {
    assert Nest([], Node(Operation(KindOf(c, op, action), next, v, action), [])).children == [];
  }

  /** What a final dereference that does not fail is carried out on. */
  lemma FinalReached(c: C.Concrete, op: OperationID, dimension: nat, action: nat, v: Variable, next: nat, d: Tree,
          env: Evaluation.Environment, deref: Evaluation.Dereference)
    requires C.WellFormed(c) && dimension < |c| && !c[dimension].action && Stands(c, env, v, action, next)
    requires !Starts(op) && Operable(c, op, action)
    requires Picks(BuildOperation(c, op, dimension, action, v, next).0, d)
    ensures !WayBlocked(c, dimension, action)
    ensures var k := FinalInstance(c, dimension, action, env[v].instance);
      Carries(Evaluation.Evaluate(c, d, env, deref), Effect(KindOf(c, op, action), action, action, k))
  {
    hide Evaluation.Evaluate, CommonRootDerivation, RunChain, Nest, WayStart, WayBlocked, Picks, C.WellFormed;
    var s := CommonRootDerivation(c, dimension, action, v, next);
    var leaf := Node(Operation(KindOf(c, op, action), s.next, s.variable, action), []);
    WayMeets(c, dimension, action, v, next);
    assert forall i :: 0 <= i < |s.chain| ==> !s.chain[i].Elimination?;
    var below := NestPicks(s.chain, leaf, d);
    LeafPick(leaf, below);
    Compilation.ChainBinds(c, dimension, action, v, next);
    FinalDerived(c, dimension, action, v, next, env, deref);
    NestEvaluates(c, s.chain, leaf, env, deref);
    LeafReached(c, leaf, RunChain(c, s.chain, env, deref).env, deref);
  }

  lemma LeafPick(leaf: Tree, d: Tree)
    requires leaf.instr.Operation? && leaf.children == [] && Picks(leaf, d)
    ensures d == leaf
  {
  }

  lemma LeafReached(c: C.Concrete, leaf: Tree, env: Evaluation.Environment, deref: Evaluation.Dereference)
    requires C.WellFormed(c) && leaf.instr.Operation? && leaf.instr.instance in env
    ensures Evaluation.Evaluate(c, leaf, env, deref) == Evaluation.Reached(leaf.instr, env)
  {
  }

  /** The way from an instance of one action up to a root and down to another action. */
  lemma {:induction false} WayRuns(c: C.Concrete, p: nat, root: nat, action: nat, w: Variable, next: nat,
          env: Evaluation.Environment, deref: Evaluation.Dereference)
    requires C.WellFormed(c) && p < |c| && action < |c| && c[action].action && C.Under(c, p, root) &&
        C.Under(c, action, root)
    requires w in env && w.InstanceVariable? && w.actionType == env[w].actionType == p && Derivation.Older(env, next)
    requires var u := Up(c, p, root, w, next); !Dead(Down(c, action, root, u.variable, u.next))
    ensures var u := Up(c, p, root, w, next);
      var d := Down(c, action, root, u.variable, u.next);
      RunChain(c, u.chain + d.chain, env, deref).Bound? &&
      Holds(env, RunChain(c, u.chain + d.chain, env, deref).env, d.variable, action,
        C.Ancestor(c, p, root, env[w].instance), env[w].timestamp)
  {
    hide Up, Down, RunChain, Dead, C.WellFormed;
    var u := Up(c, p, root, w, next);
    UpEvaluates(c, p, root, w, next, env, deref);
    var after := RunChain(c, u.chain, env, deref).env;
    var d := Down(c, action, root, u.variable, u.next);
    DownEvaluates(c, action, root, u.variable, u.next, after, deref);
    RunConcat(c, u.chain, d.chain, env, deref);
  }

  lemma {:induction false} FinalDerived(c: C.Concrete, dimension: nat, action: nat, v: Variable, next: nat,
          env: Evaluation.Environment, deref: Evaluation.Dereference)
    requires C.WellFormed(c) && dimension < |c| && !c[dimension].action && Stands(c, env, v, action, next)
    requires !Dead(CommonRootDerivation(c, dimension, action, v, next))
    ensures var s := CommonRootDerivation(c, dimension, action, v, next);
      RunChain(c, s.chain, env, deref).Bound? &&
      Holds(env, RunChain(c, s.chain, env, deref).env, s.variable, action,
        FinalInstance(c, dimension, action, env[v].instance), env[v].timestamp)
  {
    hide RunChain, Down;
    var root, p := FinalRoot(c, dimension, action), c[dimension].parent;
    var w := InstanceVariable(next, p);
    var step := [ParentDerivation(v, w)];
    var more := env[w := Evaluation.Reference(env[v].instance / c[action].size, p, env[v].timestamp)];
    StepRuns(c, v, w, env, deref);
    var up := Up(c, p, root, w, next + 1);
    var down := Down(c, action, root, up.variable, up.next);
    assert Up(c, dimension, root, v, next).chain == step + up.chain;
    DeadBelow(step + up.chain, down.chain);
    WayRuns(c, p, root, action, w, next + 1, more, deref);
    RunConcat(c, step, up.chain + down.chain, env, deref);
    assert step + up.chain + down.chain == step + (up.chain + down.chain);
  }

  lemma StepRuns(c: C.Concrete, v: Variable, w: Variable, env: Evaluation.Environment, deref: Evaluation.Dereference)
    requires C.WellFormed(c) && v in env && v.InstanceVariable? && v.actionType < |c| && w.InstanceVariable? &&
        w !in env
    ensures RunChain(c, [ParentDerivation(v, w)], env, deref) ==
      Evaluation.Bound(env[w :=
        Evaluation.Reference(env[v].instance / c[v.actionType].size, w.actionType, env[v].timestamp)])
  {
    var step := [ParentDerivation(v, w)];
    assert step[..0] == [];
    assert RunChain(c, step[..0], env, deref) == Evaluation.Bound(env);
  }

  lemma DeadBelow(a: seq<Instruction>, b: seq<Instruction>)
    ensures b != [] ==> (a + b)[|a + b| - 1] == b[|b| - 1]
  {
  }

  /** Any resolution of the built tree, evaluated for any reference to a context, has an effect that
      the names say. */
  lemma ResolutionCorrect(c: C.Concrete, op: OperationID, context: seq<Name>, candidates: Candidates, d: Tree,
          r: Evaluation.Reference, deref: Evaluation.Dereference)
    returns (e: Effect)
    requires C.WellFormed(c) && context != [] && AllBuildable(c, op, context) && AllRun(c, op, context, deref)
    requires SensibleTypes(c, op, -1, context) && InDomain(c, deref) && r.actionType in Elements(context) &&
        Exists(c, r)
    requires Ways(Build(c, op, context).root, Exactly(d), candidates) > 0
    ensures Carries(Evaluation.Evaluate(c, d, map[Build(c, op, context).context := r], deref), e)
    ensures SaysTypes(c, op, context, r, deref, e)
  {
    var b := Build(c, op, context);
    WaysExact(b.root, d, candidates);
    var inner := BuildDereference(c, op, -1, context, b.context, 1).0;
    var below := OnlyPick(Root(b.context), inner, d);
    var env := map[b.context := r];
    assert Evaluation.Evaluate(c, d, env, deref) == Evaluation.Evaluate(c, below, env, deref);
    e := DereferenceCorrect(c, op, -1, context, b.context, 1, below, env, deref);
  }

  /** The compiler is correct: what a success of one run leaves, where no failure is left in it, has,
      evaluated, an effect that the names say; and so has what the second stage leaves. */
  lemma CompilerTheorem(c: C.Concrete, op: OperationID, context: seq<Name>, ids: set<nat>, r: Evaluation.Reference,
          deref: Evaluation.Dereference)
    requires C.WellFormed(c) && context != [] && AllBuildable(c, op, context) && AllRun(c, op, context, deref)
    requires SensibleTypes(c, op, -1, context) && InDomain(c, deref) && r.actionType in Elements(context) &&
        Exists(c, r)
    requires TypesFit(c, op, context, false)
    ensures var b := Build(c, op, context);
      var (t1, o1) := Eliminate(b.root, AnyOperation);
      var (t2, o2) := Eliminate(t1, Only(ids));
      && (o1.Success? && Resolved(t1, AnyOperation) ==> Correct(c, op, context, b.context, t1, r, deref))
      && (o2.Success? && Resolved(t2, Only(ids)) ==> Correct(c, op, context, b.context, t2, r, deref))
  {
    var b := Build(c, op, context);
    var (t1, o1) := Eliminate(b.root, AnyOperation);
    var (t2, o2) := Eliminate(t1, Only(ids));
    BuildShape(c, op, context, false);
    EliminationTheorem(b.root, AnyOperation);
    TwoStageTheorem(b.root, ids);
    if o1.Success? && Resolved(t1, AnyOperation) {
      var e := ResolutionCorrect(c, op, context, AnyOperation, t1, r, deref);
    }
    if o2.Success? && Resolved(t2, Only(ids)) {
      var e := ResolutionCorrect(c, op, context, Only(ids), t2, r, deref);
    }
  }

  ghost predicate Correct(c: C.Concrete, op: OperationID, context: seq<Name>, v: Variable, d: Tree,
          r: Evaluation.Reference, deref: Evaluation.Dereference)
    requires C.WellFormed(c) && AllBuildable(c, op, context)
  {
    exists e :: Carries(Evaluation.Evaluate(c, d, map[v := r], deref), e) && SaysTypes(c, op, context, r, deref, e)
  }
}
