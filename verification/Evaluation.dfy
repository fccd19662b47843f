/** The interpreter of finished instruction trees. */
module Evaluation {
  import opened Instructions
  import C = ConcreteTree

  datatype Reference = Reference(instance: nat, actionType: nat, timestamp: nat)

  /** Values of variables; a variable is set once and read only when set. */
  type Environment = map<Variable, Reference>

  /** What dereferencing a dimension of an action gives. */
  type Dereference = (Reference, nat) -> Reference

  datatype Binding = Bound(env: Environment) | Unbound

  function Set(env: Environment, v: Variable, r: Reference): Binding {
    if v in env then Unbound else Bound(env[v := r])
  }

  /** The instructions that set one variable and go on with their only child. */
  predicate Binds(i: Instruction) {
    i.ParentDerivation? || i.ChildDerivation? || i.MonoReference? || i.DimensionRead? || i.PolyCase?
  }

  function Bind(c: C.Concrete, i: Instruction, env: Environment, deref: Dereference): Binding
    requires C.WellFormed(c)
  {
    match i
    case ParentDerivation(f, t) =>
      if f in env && f.InstanceVariable? && f.actionType < |c| && t.InstanceVariable? then
        Set(env, t, Reference(env[f].instance / c[f.actionType].size, t.actionType, env[f].timestamp))
      else Unbound
    case ChildDerivation(f, t) =>
      if f in env && t.InstanceVariable? then Set(env, t, Reference(env[f].instance, t.actionType, env[f].timestamp))
        else Unbound
    case MonoReference(f, t) => if f in env then Set(env, t, env[f]) else Unbound
    case PolyCase(f, t) => if f in env then Set(env, t, env[f]) else Unbound
    case DimensionRead(f, t, dimension) => if f in env then Set(env, t, deref(env[f], dimension)) else Unbound
    case _ => Unbound
  }

  /** The operation that evaluation arrives at, and the variables set on the way to it. It is then
      carried out; a write to a link throws instead. */
  datatype Result = Reached(operation: Instruction, env: Environment) | Stuck

  function Evaluate(c: C.Concrete, t: Tree, env: Environment, deref: Dereference): Result
    requires C.WellFormed(c)
    decreases t, |t.children| + 1
  {
    match t.instr
    case Operation(_, _, v, _) => if v in env then Reached(t.instr, env) else Stuck
    case Root(_) => if |t.children| == 1 then Evaluate(c, t.children[0], env, deref) else Stuck
    case PolyBranch(from) => if from in env then EvaluateCases(c, t, 0, env[from].actionType, env, deref) else Stuck
    case _ =>
      match Bind(c, t.instr, env, deref)
      case Unbound => Stuck
      case Bound(more) => if |t.children| == 1 then Evaluate(c, t.children[0], more, deref) else Stuck
  }

  /** The first case of the type of the reference, from the `i`-th on. */
  function EvaluateCases(c: C.Concrete, t: Tree, i: nat, actionType: nat, env: Environment, deref: Dereference): Result
    requires C.WellFormed(c) && i <= |t.children|
    decreases t, |t.children| - i
  {
    if i == |t.children| || !t.children[i].instr.PolyCase? then Stuck
    else if CaseType(t.children[i].instr) == actionType then Evaluate(c, t.children[i], env, deref)
    else EvaluateCases(c, t, i + 1, actionType, env, deref)
  }

  function CaseType(i: Instruction): nat
    requires i.PolyCase?
  {
    match i.to
    case InstanceVariable(_, actionType) => actionType
    case _ => 0
  }

  // ---- the interpreter as it runs ----

  class RuntimeEvaluator {
    var variables: Environment

    constructor ()
      ensures variables == map[]
    {
      variables := map[];
    }

    method SetVarValue(v: Variable, r: Reference) returns (ok: bool)
      modifies this
      ensures ok <==> v !in old(variables)
      ensures variables == if ok then old(variables)[v := r] else old(variables)
    {
      ok := v !in variables;
      if ok {
        variables := variables[v := r];
      }
    }

    /** One instruction that sets a variable. */
    method BindOne(c: C.Concrete, i: Instruction, deref: Dereference) returns (ok: bool)
      requires C.WellFormed(c) && Binds(i)
      modifies this
      ensures Bind(c, i, old(variables), deref) == if ok then Bound(variables) else Unbound
    {
      var from := Used(i);
      if from !in variables {
        return false;
      }
      var value := variables[from];
      match i {
        case ParentDerivation(f, t) =>
          if !f.InstanceVariable? || f.actionType >= |c| || !t.InstanceVariable? { return false; }
          ok := SetVarValue(t, Reference(value.instance / c[f.actionType].size, t.actionType, value.timestamp));
        case ChildDerivation(_, t) =>
          if !t.InstanceVariable? { return false; }
          ok := SetVarValue(t, Reference(value.instance, t.actionType, value.timestamp));
        case MonoReference(_, t) => ok := SetVarValue(t, value);
        case PolyCase(_, t) => ok := SetVarValue(t, value);
        case DimensionRead(_, t, dimension) => ok := SetVarValue(t, deref(value, dimension));
      }
    }

    /** Runs a tree, setting variables as it goes. */
    method Run(c: C.Concrete, t: Tree, deref: Dereference) returns (r: Result)
      requires C.WellFormed(c)
      modifies this
      ensures r == Evaluate(c, t, old(variables), deref)
      ensures r.Reached? ==> r.env == variables
      decreases t
    {
      if t.instr.Operation? {
        r := if t.instr.instance in variables then Reached(t.instr, variables) else Stuck;
      } else if t.instr.Root? {
        if |t.children| == 1 { r := Run(c, t.children[0], deref); } else { r := Stuck; }
      } else if t.instr.PolyBranch? {
        var from := t.instr.from;
        if from !in variables { return Stuck; }
        var ty, i := variables[from].actionType, 0;
        while i != |t.children| && t.children[i].instr.PolyCase? && CaseType(t.children[i].instr) != ty
          invariant i <= |t.children| && variables == old(variables)
          invariant EvaluateCases(c, t, i, ty, variables, deref) == Evaluate(c, t, old(variables), deref)
          decreases |t.children| - i
        {
          i := i + 1;
        }
        if i != |t.children| && t.children[i].instr.PolyCase? {
          r := Run(c, t.children[i], deref);
        } else {
          r := Stuck;
        }
      } else if !Binds(t.instr) {
        r := Stuck;
      } else {
        var ok := BindOne(c, t.instr, deref);
        if ok && |t.children| == 1 { r := Run(c, t.children[0], deref); } else { r := Stuck; }
      }
    }
  }

  // ---- trees that never get stuck ----

  function Assigned(i: Instruction): Variable
    requires Binds(i)
  {
    match i
    case ParentDerivation(_, t) => t
    case ChildDerivation(_, t) => t
    case MonoReference(_, t) => t
    case PolyCase(_, t) => t
    case DimensionRead(_, t, _) => t
  }

  function Used(i: Instruction): Variable
    requires Binds(i)
  {
    match i
    case ParentDerivation(f, _) => f
    case ChildDerivation(f, _) => f
    case MonoReference(f, _) => f
    case PolyCase(f, _) => f
    case DimensionRead(f, _, _) => f
  }

  /** The kinds of variable an instruction works on. */
  predicate Typed(c: C.Concrete, i: Instruction)
    requires Binds(i)
  {
    match i
    case ParentDerivation(f, t) => f.InstanceVariable? && f.actionType < |c| && t.InstanceVariable?
    case ChildDerivation(f, t) => f.InstanceVariable? && t.InstanceVariable?
    case MonoReference(f, t) => f.ReferenceVariable? && t.InstanceVariable?
    case PolyCase(f, t) => f.ReferenceVariable? && t.InstanceVariable?
    case DimensionRead(f, t, _) => f.InstanceVariable? && t.ReferenceVariable?
  }

  /** Dereferencing a dimension gives one of the types its reference variable is declared with. */
  ghost predicate Delivers(i: Instruction, deref: Dereference) {
    i.DimensionRead? && i.reference.ReferenceVariable? ==>
      forall r: Reference :: deref(r, i.dimension).actionType in i.reference.types
  }

  /** On every path each variable is set before it is read and set only once; every node that
      does not branch has one child; a branch has a case for every type of its reference.
      Nothing is asked below a failure. */
  ghost predicate Scoped(c: C.Concrete, t: Tree, bound: set<Variable>, deref: Dereference)
    decreases t
  {
    match t.instr
    case Operation(_, _, v, _) => v in bound && t.children == []
    case Root(context) => |t.children| == 1 && Scoped(c, t.children[0], bound, deref)
    case Failure => true
    case Elimination => forall i :: 0 <= i < |t.children| ==> Scoped(c, t.children[i], bound, deref)
    case PolyBranch(from) =>
      from in bound && from.ReferenceVariable? && Covers(t.children, from.types) &&
      (forall i :: 0 <= i < |t.children| ==> t.children[i].instr.PolyCase? && Scoped(c, t.children[i], bound, deref))
    case _ =>
      Binds(t.instr) && Typed(c, t.instr) && Delivers(t.instr, deref) && Used(t.instr) in bound &&
        Assigned(t.instr) !in bound &&
      |t.children| == 1 && Scoped(c, t.children[0], bound + {Assigned(t.instr)}, deref)
  }

  predicate HasCase(ts: seq<Tree>, ty: nat) {
    exists i :: 0 <= i < |ts| && ts[i].instr.PolyCase? && CaseType(ts[i].instr) == ty
  }

  predicate Covers(ts: seq<Tree>, types: seq<nat>) {
    forall k :: 0 <= k < |types| ==> HasCase(ts, types[k])
  }

  /** References have one of the types of their variable, where dereferencing gives such references. */
  predicate WellTyped(env: Environment) {
    forall v :: v in env && v.ReferenceVariable? ==> env[v].actionType in v.types
  }

  ghost predicate AllScoped(c: C.Concrete, ts: seq<Tree>, bound: set<Variable>, deref: Dereference) {
    forall i :: 0 <= i < |ts| ==> Scoped(c, ts[i], bound, deref)
  }
}
