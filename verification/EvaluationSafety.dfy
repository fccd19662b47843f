/** A tree that was scoped before it was eliminated, and eliminated with success, is evaluated
    without ever getting stuck. */
module EvaluationSafety {
  import opened Instructions
  import opened EliminationSpec
  import opened Evaluation
  import C = ConcreteTree

  // ---- elimination keeps scoping ----

  lemma {:induction false} EliminateScoped(k: C.Concrete, t: Tree, c: Candidates, bound: set<Variable>,
          deref: Dereference)
    requires Scoped(k, t, bound, deref)
    ensures Scoped(k, Eliminate(t, c).0, bound, deref)
    decreases t, 1
  {
    if c.Accepts(t.instr) {
      if t.instr.Operation? {
        assert t.children == [];
      } else if Binds(t.instr) {
        ChildrenScoped(k, t.children, c, bound + {Assigned(t.instr)}, deref);
      } else if !t.instr.Failure? {
        ChildrenScoped(k, t.children, c, bound, deref);
        if t.instr.PolyBranch? {
        }
      }
    }
  }

  /** Children keep their number and, but for elimination nodes, their heads. */
  lemma {:induction false} ChildrenScoped(k: C.Concrete, ts: seq<Tree>, c: Candidates, bound: set<Variable>,
          deref: Dereference)
    requires forall i :: 0 <= i < |ts| ==> Scoped(k, ts[i], bound, deref)
    ensures var e := EliminateChildren(ts, c).0;
      |e| == |ts| && forall i :: 0 <= i < |ts| ==>
        Scoped(k, e[i], bound, deref) && (ts[i].instr.PolyCase? ==> e[i].instr == ts[i].instr)
    decreases ts, 0
  {
    if ts != [] {
      var n := |ts| - 1;
      ChildrenScoped(k, ts[..n], c, bound, deref);
      ChildScoped(k, ts[n], c, bound, deref);
      assert Scoped(k, ts[n], bound, deref);
    }
  }

  lemma {:induction false} ChildScoped(k: C.Concrete, t: Tree, c: Candidates, bound: set<Variable>, deref: Dereference)
    requires Scoped(k, t, bound, deref)
    ensures Scoped(k, EliminateChild(t, c).0, bound, deref)
    ensures t.instr.PolyCase? ==> EliminateChild(t, c).0.instr == t.instr
    decreases t, 2
  {
    if t.instr.Elimination? {
      var a, s := Select(t.children, c, Ambiguous), Select(t.children, c, Success);
      SelectScoped(k, t.children, c, Ambiguous, bound, deref);
      SelectScoped(k, t.children, c, Success, bound, deref);
    } else if !t.instr.Failure? {
      EliminateScoped(k, t, c, bound, deref);
    }
  }

  lemma {:induction false} SelectScoped(k: C.Concrete, ts: seq<Tree>, c: Candidates, o: Outcome, bound: set<Variable>,
          deref: Dereference)
    requires forall i :: 0 <= i < |ts| ==> Scoped(k, ts[i], bound, deref)
    ensures AllScoped(k, Select(ts, c, o), bound, deref)
    decreases ts, 0
  {
    if ts != [] {
      SelectStep(ts, c, o);
      SelectScoped(k, ts[..|ts| - 1], c, o, bound, deref);
      EliminateScoped(k, ts[|ts| - 1], c, bound, deref);
    }
  }

  // ---- evaluation ----

  /** What evaluation ends with: an operation of the tree, its variable set, and no variable set
      before with another value. */
  predicate Ends(t: Tree, env: Environment, r: Result) {
    r.Reached? && r.operation.Operation? && r.operation.id in Operations(t) && r.operation.instance in r.env &&
    env.Keys <= r.env.Keys && forall v :: v in env ==> r.env[v] == env[v]
  }

  lemma OperationsOfMember(ts: seq<Tree>, i: nat, id: nat)
    requires i < |ts| && id in Operations(ts[i])
    ensures id in OperationsOf(ts)
  {
    if i < |ts| - 1 { OperationsOfMember(ts[..|ts| - 1], i, id); }
  }

  lemma {:induction false} EvaluateReaches(k: C.Concrete, t: Tree, c: Candidates, env: Environment, deref: Dereference)
    requires C.WellFormed(k) && Scoped(k, t, env.Keys, deref) && Resolved(t, c) && WellTyped(env)
    ensures Ends(t, env, Evaluate(k, t, env, deref))
    decreases t, |t.children| + 1
  {
    if t.instr.Root? {
      EvaluateReaches(k, t.children[0], c, env, deref);
    } else if t.instr.PolyBranch? {
      var types, ty := t.instr.from.types, env[t.instr.from].actionType;
      assert ty in types;
      var j :| 0 <= j < |types| && types[j] == ty;
      assert HasCase(t.children, types[j]);
      var i :| 0 <= i < |t.children| && t.children[i].instr.PolyCase? && CaseType(t.children[i].instr) == ty;
      CasesReach(k, t, c, 0, i, ty, env, deref);
    } else if Binds(t.instr) {
      BindStep(k, t.instr, env, deref);
      var more := Bind(k, t.instr, env, deref).env;
      EvaluateReaches(k, t.children[0], c, more, deref);
    }
  }

  lemma BindStep(k: C.Concrete, i: Instruction, env: Environment, deref: Dereference)
    requires C.WellFormed(k) && Binds(i) && Typed(k, i) && Delivers(i, deref) && Used(i) in env &&
        Assigned(i) !in env && WellTyped(env)
    ensures var b := Bind(k, i, env, deref);
      b.Bound? && b.env.Keys == env.Keys + {Assigned(i)} && WellTyped(b.env) &&
        forall v :: v in env ==> b.env[v] == env[v]
  {
  }

  lemma {:induction false} CasesReach(k: C.Concrete, t: Tree, c: Candidates, i: nat, j: nat, ty: nat, env: Environment,
          deref: Dereference)
    requires C.WellFormed(k) && t.instr.PolyBranch? && Scoped(k, t, env.Keys, deref) && Resolved(t, c) && WellTyped(env)
    requires i <= j < |t.children| && CaseType(t.children[j].instr) == ty
    ensures Ends(t, env, EvaluateCases(k, t, i, ty, env, deref))
    decreases t, |t.children| - i
  {
    if CaseType(t.children[i].instr) == ty {
      EvaluateReaches(k, t.children[i], c, env, deref);
      OperationsOfMember(t.children, i, EvaluateCases(k, t, i, ty, env, deref).operation.id);
    } else {
      CasesReach(k, t, c, i + 1, j, ty, env, deref);
    }
  }

  /** An invocation that compiles is always evaluated to the end: a scoped generic tree that has
      one resolution and that one run of the pass settles is evaluated to one of its operations,
      whatever the context reference and whatever dereferencing gives, as long as their types are
      among those the tree was built for. Every variable on the way is set once, before it is
      read. */
  lemma EvaluationTheorem(k: C.Concrete, t: Tree, c: Candidates, context: Variable, r: Reference, deref: Dereference)
    requires C.WellFormed(k) && Alternative(t, false) && !t.instr.Failure? && Scoped(k, t, {context}, deref)
    requires context.ReferenceVariable? && r.actionType in context.types
    requires Eliminate(t, c).1.Success? && Total(t, c) == 1
    ensures Ends(Eliminate(t, c).0, map[context := r], Evaluate(k, Eliminate(t, c).0, map[context := r], deref))
  {
    EliminateScoped(k, t, c, {context}, deref);
    EliminationTheorem(t, c);
    var env := map[context := r];
    assert env.Keys == {context};
    EvaluateReaches(k, Eliminate(t, c).0, c, env, deref);
  }

  /** The same when the second stage settles what the first left ambiguous. */
  lemma SecondStageEvaluationTheorem(k: C.Concrete, t: Tree, ids: set<nat>, context: Variable, r: Reference,
          deref: Dereference)
    requires C.WellFormed(k) && Alternative(t, false) && !t.instr.Failure? && Scoped(k, t, {context}, deref)
    requires context.ReferenceVariable? && r.actionType in context.types
    requires Eliminate(Eliminate(t, AnyOperation).0, Only(ids)).1.Success? && Total(t, Only(ids)) == 1
    ensures var final := Eliminate(Eliminate(t, AnyOperation).0, Only(ids)).0;
      var result := Evaluate(k, final, map[context := r], deref);
      Ends(final, map[context := r], result) && result.operation.id in ids
  {
    var t1 := Eliminate(t, AnyOperation).0;
    EliminateScoped(k, t, AnyOperation, {context}, deref);
    EliminateShape(t, AnyOperation, false);
    TwoStageTheorem(t, ids);
    EliminatePreserves(t, Anything, AnyOperation, Only(ids));
    EvaluationTheorem(k, t1, Only(ids), context, r, deref);
    ResolvedOperations(Eliminate(t1, Only(ids)).0, ids);
  }

  lemma {:induction false} ResolvedOperations(t: Tree, ids: set<nat>)
    requires Resolved(t, Only(ids))
    ensures forall id :: id in Operations(t) ==> id in ids
    decreases t, 1
  {
    if !t.instr.Operation? { ResolvedOperationsOf(t.children, ids); }
  }

  lemma {:induction false} ResolvedOperationsOf(ts: seq<Tree>, ids: set<nat>)
    requires forall i :: 0 <= i < |ts| ==> Resolved(ts[i], Only(ids))
    ensures forall id :: id in OperationsOf(ts) ==> id in ids
    decreases ts, 0
  {
    if ts != [] {
      ResolvedOperationsOf(ts[..|ts| - 1], ids);
      ResolvedOperations(ts[|ts| - 1], ids);
    }
  }
}
