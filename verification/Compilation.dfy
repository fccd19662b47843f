/** From names to an evaluated operation: what the builder, the elimination pass and the
    interpreter guarantee together. */
module Compilation {
  import opened Instructions
  import opened EliminationSpec
  import opened Builder
  import opened BuiltShape
  import Derivation
  import Evaluation
  import EvaluationSafety
  import C = ConcreteTree

  /** A compiled invocation never gets stuck. Of names the pass can take, a success of one run
      settles the built tree; no failure is left in it unless some alternative is blocked from
      the start; and where none is left, then for every context reference of a context type, and
      whatever dereferencing gives among the resolved types, evaluation reaches one operation of
      the finished tree, with every variable on the way set once and before it is read. */
  lemma CompiledTheorem(c: C.Concrete, op: OperationID, context: seq<Name>, r: Evaluation.Reference,
          deref: Evaluation.Dereference)
    requires C.WellFormed(c) && context != [] && AllBuildable(c, op, context) && AllRun(c, op, context, deref)
    requires TypesFit(c, op, context, false) && r.actionType in Elements(context)
    requires Eliminate(Build(c, op, context).root, AnyOperation).1.Success?
    ensures var b := Build(c, op, context);
      var final, env := Eliminate(b.root, AnyOperation).0, map[b.context := r];
      && Settles(b.root, final, AnyOperation)
      && (TypesFit(c, op, context, true) ==> Resolved(final, AnyOperation))
      && (Resolved(final, AnyOperation) ==>
        EvaluationSafety.Ends(final, env, Evaluation.Evaluate(c, final, env, deref)))
  {
    var b := Build(c, op, context);
    var final := Eliminate(b.root, AnyOperation).0;
    BuildShape(c, op, context, false);
    BuildShape(c, op, context, true);
    BuildScoped(c, op, context, deref);
    EliminationTheorem(b.root, AnyOperation);
    if TypesFit(c, op, context, true) { StrictBelow(b.root, AnyOperation); }
    if Resolved(final, AnyOperation) {
      EvaluationSafety.EvaluationTheorem(c, b.root, AnyOperation, b.context, r, deref);
    }
  }

  /** The same after the second stage, and then the operation is one of the candidates. */
  lemma CompiledInTwoStages(c: C.Concrete, op: OperationID, context: seq<Name>, ids: set<nat>, r: Evaluation.Reference,
          deref: Evaluation.Dereference)
    requires C.WellFormed(c) && context != [] && AllBuildable(c, op, context) && AllRun(c, op, context, deref)
    requires TypesFit(c, op, context, false) && r.actionType in Elements(context)
    requires Eliminate(Eliminate(Build(c, op, context).root, AnyOperation).0, Only(ids)).1.Success?
    ensures var b := Build(c, op, context);
      var final, env := Eliminate(Eliminate(b.root, AnyOperation).0, Only(ids)).0, map[b.context := r];
      var result := Evaluation.Evaluate(c, final, env, deref);
      && Settles(b.root, final, Only(ids))
      && (TypesFit(c, op, context, true) ==> Resolved(final, Only(ids)))
      && (Resolved(final, Only(ids)) ==> EvaluationSafety.Ends(final, env, result) && result.operation.id in ids)
  {
    var b := Build(c, op, context);
    BuildShape(c, op, context, false);
    BuildShape(c, op, context, true);
    BuildScoped(c, op, context, deref);
    TwoStageTheorem(b.root, ids);
    if TypesFit(c, op, context, true) { StrictBelow(b.root, AnyOperation); }
    if Resolved(Eliminate(Eliminate(b.root, AnyOperation).0, Only(ids)).0, Only(ids)) {
      EvaluationSafety.SecondStageEvaluationTheorem(c, b.root, ids, b.context, r, deref);
    }
  }

  // ---- what a terminal name becomes ----

  lemma {:induction false} DownAlive(c: C.Concrete, e: nat, a: nat, v: Variable, next: nat)
    requires C.WellFormed(c) && e < |c| && C.Under(c, e, a) && !Derivation.Dead(Derivation.Down(c, e, a, v, next))
    ensures var d := Derivation.Down(c, e, a, v, next); forall i :: 0 <= i < |d.chain| ==> d.chain[i].ChildDerivation?
    decreases e
  {
    if e != a {
      var d := Derivation.Down(c, c[e].parent, a, v, next);
      if Derivation.Dead(d) {
      } else {
        DownAlive(c, c[e].parent, a, v, next);
        assert c[e].action && c[e].size != 1 ==> Derivation.Dead(d.(chain := d.chain + [Failure]));
      }
    }
  }

  lemma ChainBinds(c: C.Concrete, from: nat, to: nat, v: Variable, next: nat)
    requires C.WellFormed(c) && from < |c| && to < |c| &&
        !Derivation.Dead(Derivation.CommonRootDerivation(c, from, to, v, next))
    ensures var d := Derivation.CommonRootDerivation(c, from, to, v, next);
      forall i :: 0 <= i < |d.chain| ==> Evaluation.Binds(d.chain[i])
  {
    if from != to {
      var r := C.CommonRoot(c, from, to);
      var u := Derivation.Up(c, from, r, v, next);
      var d := Derivation.Down(c, to, r, u.variable, u.next);
      Derivation.UpAlive(c, from, r, v, next);
      assert Derivation.Dead(d) ==> Derivation.Dead(Derivation.CommonRootDerivation(c, from, to, v, next)) by {
        assert d.chain != [] ==> (u.chain + d.chain)[|u.chain + d.chain| - 1] == d.chain[|d.chain| - 1];
      }
      DownAlive(c, to, r, u.variable, u.next);
    }
  }

  /** The instructions of a terminal name carry out its operation on the one instance that
      belongs to the instance they start from: of the target, of the action of a dimension, or,
      where something is started, of the parent. */
  lemma TerminalTheorem(c: C.Concrete, op: OperationID, from: nat, e: nat, v: Variable, next: nat,
          env: Evaluation.Environment, deref: Evaluation.Dereference)
    requires C.WellFormed(c) && from < |c| && c[from].action && e < |c| && Operable(c, op, e)
    requires v in env && v.InstanceVariable? && v.actionType == env[v].actionType == from &&
        env[v].instance < C.TotalDomain(c, from) && Derivation.Older(env, next)
    requires var target := if c[e].action && Starts(op) then c[e].parent else e;
      !Derivation.Dead(Derivation.CommonRootDerivation(c, from, target, v, next))
    ensures var r := Evaluation.Evaluate(c, BuildOperation(c, op, from, e, v, next).0, env, deref);
      r.Reached? && r.operation.Operation? && r.operation.target == e && Performs(op, c[e], r.operation.kind) &&
      var on := ActsOn(c, r.operation.kind, e);
      0 <= on < |c| &&
      r.operation.instance in r.env && r.operation.instance.InstanceVariable? &&
        r.operation.instance.actionType == on &&
      var k := r.env[r.operation.instance].instance;
      Derivation.Matches(c, from, on, env[v].instance, k) &&
      forall l :: Derivation.Matches(c, from, on, env[v].instance, l) ==> l == k
  {
    var target := if c[e].action && Starts(op) then c[e].parent else e;
    KindExact(c, op, e);
    var d := Derivation.CommonRootDerivation(c, from, target, v, next);
    Derivation.DerivationTheorem(c, from, target, v, next, env, deref);
    ChainBinds(c, from, target, v, next);
    Derivation.NestEvaluates(c, d.chain, Node(Operation(KindOf(c, op, e), d.next, d.variable, e), []), env, deref);
  }

  // ---- the shape is not guaranteed ----

  /** A terminal name whose way is blocked from the start: the first thing the builder emits is a failure. */
  lemma DeadTerminal(c: C.Concrete, op: OperationID, from: nat, x: Name, v: Variable, next: nat) returns (leaf: Tree)
    requires C.WellFormed(c) && from < |c| && Buildable(c, op, x) && x.children == []
    requires WayStart(c, from, BuiltShape.Target(c, op, x)).Block?
    ensures leaf.instr.Operation? && leaf.instr.target == x.element && leaf.children == []
    ensures BuildName(c, op, from, x, v, next).0 == Node(Failure, [leaf])
  {
    hide Derivation.CommonRootDerivation, WayStart, WayBlocked, Derivation.Nest, Walk;
    var target := BuiltShape.Target(c, op, x);
    var d := Derivation.CommonRootDerivation(c, from, target, v, next);
    WayMeets(c, from, target, v, next);
    BlockedChain(d.chain);
    leaf := Node(Operation(KindOf(c, op, x.element), d.next, d.variable, x.element), []);
    NestOne(Failure, leaf);
  }

  lemma BlockedChain(chain: seq<Instruction>)
    requires Walk(chain) && chain != [] && chain[0].Failure?
    ensures chain == [Failure]
  {
    if |chain| > 1 { WalkStart(chain); }
  }

  lemma NestOne(i: Instruction, t: Tree)
    ensures Derivation.Nest([i], t) == Node(i, [t])
  {
    assert [i][..0] == [];
    assert Derivation.Nest([], Node(i, [t])) == Node(i, [t]);
  }

  lemma WalkStart(chain: seq<Instruction>)
    requires Walk(chain) && |chain| > 1
    ensures IsStep(chain[0])
  {
    assert IsStep(chain[..|chain| - 1][0]);
  }

  /** A way that is blocked behind a step fails as it should. */
  lemma BlockedTerminal(c: C.Concrete, op: OperationID, from: nat, y: Name, v: Variable, next: nat)
    requires C.WellFormed(c) && from < |c| && Buildable(c, op, y) && y.children == []
    requires WayStart(c, from, BuiltShape.Target(c, op, y)).Step? && WayBlocked(c, from, BuiltShape.Target(c, op, y))
    ensures var t := BuildName(c, op, from, y, v, next).0;
      Alternative(t, false) && Eliminate(t, AnyOperation).1.Failed?
  {
    var target := BuiltShape.Target(c, op, y);
    var d := Derivation.CommonRootDerivation(c, from, target, v, next);
    var leaf := Node(Operation(KindOf(c, op, y.element), d.next, d.variable, y.element), []);
    var n := |d.chain| - 1;
    OperationShape(c, op, from, y.element, v, next, false);
    WayMeets(c, from, target, v, next);
    StepsFail(d.chain[..n], Node(Failure, [leaf]));
  }

  lemma {:induction false} StepsFail(steps: seq<Instruction>, t: Tree)
    requires steps != [] && AllSteps(steps) && !t.instr.Prune? && EliminateChild(t, AnyOperation).1.Failed?
    ensures Eliminate(Derivation.Nest(steps, t), AnyOperation).1.Failed?
    decreases |steps|
  {
    var n := |steps| - 1;
    var above := Node(steps[n], [t]);
    SingletonRuns(t, AnyOperation, Success);
    assert Eliminate(above, AnyOperation).1.Failed?;
    if n > 0 { StepsFail(steps[..n], above); }
  }

  /** So the builder can put a failure straight under an elimination node, and the pass then counts
      it as a success: of two names after another, one whose way is blocked from the start and one
      that fails otherwise, there is no resolution, and still the pass returns eSuccess, with the
      failure instruction left in the tree. */
  lemma DeadAlternative(c: C.Concrete, op: OperationID, n: Name, v: Variable, next: nat)
    requires C.WellFormed(c) && Buildable(c, op, n) && |n.children| == 2 && n.children[0].children == []
    requires WayStart(c, n.element, BuiltShape.Target(c, op, n.children[0])).Block?
    requires var b := BuildNames(c, op, n.element, n.children, v, next).0;
        Alternative(b[1], false) && Eliminate(b[1], AnyOperation).1.Failed?
    ensures var t := BuildChoice(c, op, n, v, next).0;
      t.instr.Elimination? && Total(t, AnyOperation) == 0 &&
      EliminateChild(t, AnyOperation).1.Success? && EliminateChild(t, AnyOperation).0.instr.Failure?
  {
    var ns := n.children;
    var all := BuildNames(c, op, n.element, ns, v, next).0;
    assert ns[..|ns| - 1] == [ns[0]] && [ns[0]][..0] == [];
    assert BuildNames(c, op, n.element, [], v, next) == ([], next);
    assert BuildNames(c, op, n.element, [ns[0]], v, next).0 == [] + [BuildName(c, op, n.element, ns[0], v, next).0];
    var leaf := DeadTerminal(c, op, n.element, ns[0], v, next);
    assert all == [Node(Failure, [leaf]), all[1]];
    FailureFirst(leaf, all[1]);
  }

  /** Two terminal names do, where one way is blocked from the start and the other one behind a step. */
  lemma DeadTerminals(c: C.Concrete, op: OperationID, n: Name, v: Variable, next: nat)
    requires C.WellFormed(c) && Buildable(c, op, n) && |n.children| == 2
    requires n.children[0].children == [] && n.children[1].children == []
    requires WayStart(c, n.element, BuiltShape.Target(c, op, n.children[0])).Block?
    requires var y := BuiltShape.Target(c, op, n.children[1]);
        WayStart(c, n.element, y).Step? && WayBlocked(c, n.element, y)
    ensures var t := BuildChoice(c, op, n, v, next).0;
      t.instr.Elimination? && Total(t, AnyOperation) == 0 &&
      EliminateChild(t, AnyOperation).1.Success? && EliminateChild(t, AnyOperation).0.instr.Failure?
  {
    var before := BuildNames(c, op, n.element, n.children[..1], v, next);
    BlockedTerminal(c, op, n.element, n.children[1], v, before.1);
    DeadAlternative(c, op, n, v, next);
  }

  /** And then the whole invocation is compiled with success, although it has no resolution. */
  lemma DeadInvocation(c: C.Concrete, op: OperationID, n: Name)
    requires C.WellFormed(c) && Buildable(c, op, n) && |n.children| == 2
    requires n.children[0].children == [] && n.children[1].children == []
    requires WayStart(c, n.element, BuiltShape.Target(c, op, n.children[0])).Block?
    requires var y := BuiltShape.Target(c, op, n.children[1]);
        WayStart(c, n.element, y).Step? && WayBlocked(c, n.element, y)
    ensures var b := Build(c, op, [n]);
      b.Compiled? && Total(b.root, AnyOperation) == 0 &&
      Eliminate(b.root, AnyOperation).1.Success? && !Resolved(Eliminate(b.root, AnyOperation).0, AnyOperation)
  {
    hide BuildChoice, Eliminate, Total, Resolved;
    var r, v := ReferenceVariable(0, Elements([n])), InstanceVariable(1, n.element);
    var t := BuildChoice(c, op, n, v, 2).0;
    DeadTerminals(c, op, n, v, 2);
    assert AllBuildable(c, op, [n]);
    assert BuildType(c, op, -1, n, v, 2).0 == t;
    assert BuildDereference(c, op, -1, [n], r, 1).0 == Node(MonoReference(r, v), [t]);
    assert Build(c, op, [n]) == Compiled(Node(Root(r), [Node(MonoReference(r, v), [t])]), r);
    OnlyAlternative(Root(r), MonoReference(r, v), t);
  }

  lemma OnlyAlternative(root: Instruction, mono: Instruction, t: Tree)
    requires root.Root? && mono.MonoReference? && t.instr.Elimination? && Total(t, AnyOperation) == 0
    requires EliminateChild(t, AnyOperation).1.Success? && EliminateChild(t, AnyOperation).0.instr.Failure?
    ensures var whole := Node(root, [Node(mono, [t])]);
      Total(whole, AnyOperation) == 0 && Eliminate(whole, AnyOperation).1.Success? &&
      !Resolved(Eliminate(whole, AnyOperation).0, AnyOperation)
  {
    hide EliminateChild, Eliminate;
    var left := EliminateChild(t, AnyOperation).0;
    OnlyChildLeft(mono, t);
    OnlyChildLeft(root, Node(mono, [t]));
    assert !Resolved(Node(mono, [left]), AnyOperation) by { assert !Resolved([left][0], AnyOperation); }
    assert !Resolved([Node(mono, [left])][0], AnyOperation);
  }

  /** A node with one child counts and succeeds as its child does. */
  lemma OnlyChildLeft(i: Instruction, t: Tree)
    requires i.Root? || i.MonoReference?
    requires !t.instr.Prune? && Total(t, AnyOperation) == 0 && EliminateChild(t, AnyOperation).1.Success?
    ensures Total(Node(i, [t]), AnyOperation) == 0
    ensures Eliminate(Node(i, [t]), AnyOperation) == (Node(i, [EliminateChild(t, AnyOperation).0]), Success)
    ensures EliminateChild(Node(i, [t]), AnyOperation) == Eliminate(Node(i, [t]), AnyOperation)
  {
    hide Times;
    SingletonRuns(t, AnyOperation, Success);
    var targets := ChildTargets(Anything, 1);
    assert [t][..0] == [] && targets[..0] == [];
    assert WaysProduct([t], targets, AnyOperation) == Times(1, 0);
  }

  lemma FailureFirst(leaf: Tree, y: Tree)
    requires leaf.instr.Operation? && leaf.children == [] && Alternative(y, false) &&
        Eliminate(y, AnyOperation).1.Failed?
    ensures var x := Node(Failure, [leaf]); var t := Node(Elimination, [x, y]);
      Total(t, AnyOperation) == 0 && EliminateChild(t, AnyOperation) == (x, Success)
  {
    var x := Node(Failure, [leaf]);
    var ts := [x, y];
    LeafUnderFailure(leaf);
    assert ts[..|ts| - 1] == [x];
    EliminatePreserves(y, Anything, AnyOperation, AnyOperation);
    SingletonCounts(x, Anything, AnyOperation);
    SingletonRuns(x, AnyOperation, Success);
    SingletonRuns(x, AnyOperation, Ambiguous);
    SelectStep(ts, AnyOperation, Success);
    SelectStep(ts, AnyOperation, Ambiguous);
    assert Select(ts, AnyOperation, Success) == [x] + [] == [x];
    assert Select(ts, AnyOperation, Ambiguous) == [] + [] == [];
    assert EliminateChild(Node(Elimination, ts), AnyOperation) == (x, Success);
    assert WaysSum(ts, Anything, AnyOperation) ==
      WaysSum([x], Anything, AnyOperation) + Ways(y, Anything, AnyOperation) == 0;
  }

  lemma LeafUnderFailure(leaf: Tree)
    requires leaf.instr.Operation? && leaf.children == []
    ensures Eliminate(Node(Failure, [leaf]), AnyOperation) == (Node(Failure, [leaf]), Success)
    ensures Total(Node(Failure, [leaf]), AnyOperation) == 0
  {
    SingletonRuns(leaf, AnyOperation, Success);
    assert Eliminate(leaf, AnyOperation) == (leaf, Success);
  }
}
