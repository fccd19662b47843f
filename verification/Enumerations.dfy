/** Range invocations: from names to instruction trees, and from those to the instances visited. */
module Enumerations {
  import opened Instructions
  import opened EliminationSpec
  import opened Derivation
  import opened Builder
  import C = ConcreteTree
  import Evaluation

  // ---- the visitor ----

  /** The trees appended below the instruction built so far; or the names are refused. */
  datatype Answer = Trees(trees: seq<Tree>, next: nat) | Refused

  /** `targetDerivation`: one derivation for every action below `a` down to `e`. */
  function EnumChain(c: C.Concrete, e: nat, a: nat, v: Variable, next: nat): Derived
    requires C.WellFormed(c) && e < |c| && C.Under(c, e, a)
    decreases e
  {
    if e == a then Derived([], v, next)
    else
      var d := EnumChain(c, c[e].parent, a, v, next);
      var w := InstanceVariable(d.next, e);
      Derived(d.chain + [EnumDerivation(d.variable, w)], w, d.next + 1)
  }

  /** Trees below a chain; where the chain is empty they are appended one after the other. */
  function Hang(chain: seq<Instruction>, ts: seq<Tree>): seq<Tree> {
    if chain == [] then ts else [Nest(chain[..|chain| - 1], Node(chain[|chain| - 1], ts))]
  }

  /** A name is refused that is a reference, is no action, or does not lie below the name before it. */
  predicate Enumerable(c: C.Concrete, prev: nat, n: Name)
    requires C.WellFormed(c)
  {
    !n.reference && n.element < |c| && c[n.element].action && C.Under(c, n.element, prev)
  }

  function BuildEnum(c: C.Concrete, kind: OperationKind, prev: nat, n: Name, v: Variable, next: nat): Answer
    requires C.WellFormed(c)
    decreases n, 1
  {
    if !Enumerable(c, prev, n) then Refused
    else
      var d := EnumChain(c, n.element, prev, v, next);
      if n.children == [] then
        Trees(Hang(d.chain, [Node(Operation(kind, d.next, d.variable, n.element), [])]), d.next + 1)
      else
        match BuildEnums(c, kind, n.element, n.children, d.variable, d.next)
        case Refused => Refused
        case Trees(ts, after) => Trees(Hang(d.chain, ts), after)
  }

  function BuildEnums(c: C.Concrete, kind: OperationKind, prev: nat, ns: seq<Name>, v: Variable, next: nat): Answer
    requires C.WellFormed(c)
    decreases ns, 0
  {
    if ns == [] then Trees([], next)
    else
      match BuildEnums(c, kind, prev, ns[..|ns| - 1], v, next)
      case Refused => Refused
      case Trees(before, m) =>
        match BuildEnum(c, kind, prev, ns[|ns| - 1], v, m)
        case Refused => Refused
        case Trees(ts, after) => Trees(before + ts, after)
  }

  /** Below each context type an enumeration, and below that the alternatives, to be pruned. */
  function TypeTree(head: Instruction, v: Variable, alternatives: seq<Tree>): Tree {
    Node(head, [Node(Enumeration(v), [Node(Prune, alternatives)])])
  }

  function BuildTypes(c: C.Concrete, kind: OperationKind, ns: seq<Name>, reference: Variable, mono: bool,
          next: nat): Answer
    requires C.WellFormed(c)
  {
    if ns == [] then Trees([], next)
    else
      match BuildTypes(c, kind, ns[..|ns| - 1], reference, mono, next)
      case Refused => Refused
      case Trees(before, m) =>
        var n := ns[|ns| - 1];
        var v := InstanceVariable(m, n.element);
        match BuildEnums(c, kind, n.element, n.children, v, m + 1)
        case Refused => Refused
        case Trees(ts, after) =>
          Trees(before + [TypeTree(if mono then MonoReference(reference, v) else PolyCase(reference, v), v, ts)], after)
  }

  datatype Invocation = Enumerated(root: Tree, context: Variable) | Invalid

  function BuildEnumeration(c: C.Concrete, kind: OperationKind, context: seq<Name>): Invocation
    requires C.WellFormed(c)
  {
    var v := ReferenceVariable(0, Elements(context));
    match BuildTypes(c, kind, context, v, |context| == 1, 1)
    case Refused => Invalid
    case Trees(ts, _) => Enumerated(Node(Root(v), if |context| == 1 then ts else [Node(PolyBranch(v), ts)]), v)
  }

  // ---- what the names ask for ----

  /** The elements of the terminal names, in order. */
  function Terminals(n: Name): seq<nat>
    decreases n, 1
  {
    if n.children == [] then [n.element] else TerminalsOf(n.children)
  }

  function TerminalsOf(ns: seq<Name>): seq<nat>
    decreases ns, 0
  {
    if ns == [] then [] else TerminalsOf(ns[..|ns| - 1]) + Terminals(ns[|ns| - 1])
  }

  /** The targets of the operations of a tree, in the order `getOperations` visits them. */
  function Targets(t: Tree): seq<nat>
    decreases t, 1
  {
    if t.instr.Operation? then [t.instr.target] else TargetsOf(t.children)
  }

  function TargetsOf(ts: seq<Tree>): seq<nat>
    decreases ts, 0
  {
    if ts == [] then [] else TargetsOf(ts[..|ts| - 1]) + Targets(ts[|ts| - 1])
  }

  lemma {:induction false} TargetsConcat(a: seq<Tree>, b: seq<Tree>)
    ensures TargetsOf(a + b) == TargetsOf(a) + TargetsOf(b)
  {
    if b == [] {
      assert a + b == a;
    } else {
      var n := |b| - 1;
      assert (a + b)[..|a| + n] == a + b[..n] && (a + b)[|a| + n] == b[n];
      TargetsConcat(a, b[..n]);
    }
  }

  predicate AllResolved(ts: seq<Tree>) {
    forall i :: 0 <= i < |ts| ==> Resolved(ts[i], AnyOperation)
  }

  predicate AllDerive(chain: seq<Instruction>) {
    forall i :: 0 <= i < |chain| ==> chain[i].EnumDerivation?
  }

  /** What hangs below a chain of derivations. */
  lemma {:induction false} NestTargets(chain: seq<Instruction>, t: Tree)
    requires AllDerive(chain)
    ensures Targets(Nest(chain, t)) == Targets(t)
    ensures Resolved(t, AnyOperation) ==> Resolved(Nest(chain, t), AnyOperation)
    decreases |chain|
  {
    if chain != [] {
      var n := |chain| - 1;
      var above := Node(chain[n], [t]);
      assert [t][..0] == [] && TargetsOf([t]) == [] + Targets(t);
      NestTargets(chain[..n], above);
    }
  }

  lemma HangTargets(chain: seq<Instruction>, ts: seq<Tree>)
    requires AllDerive(chain) && ts != []
    ensures TargetsOf(Hang(chain, ts)) == TargetsOf(ts) && Hang(chain, ts) != []
    ensures AllResolved(ts) ==> AllResolved(Hang(chain, ts))
  {
    if chain != [] {
      var n := |chain| - 1;
      var t := Nest(chain[..n], Node(chain[n], ts));
      NestTargets(chain[..n], Node(chain[n], ts));
      assert [t][..0] == [] && TargetsOf([t]) == [] + Targets(t);
    }
  }

  lemma {:induction false} EnumChainSteps(c: C.Concrete, e: nat, a: nat, v: Variable, next: nat)
    requires C.WellFormed(c) && e < |c| && C.Under(c, e, a)
    ensures AllDerive(EnumChain(c, e, a, v, next).chain)
    decreases e
  {
    if e != a { EnumChainSteps(c, c[e].parent, a, v, next); }
  }

  lemma {:induction false} UnderTransitive(c: C.Concrete, e: nat, b: nat, a: nat)
    requires C.WellFormed(c) && e < |c| && b < |c| && C.Under(c, e, b) && C.Under(c, b, a)
    ensures C.Under(c, e, a)
    decreases e
  {
    if e != b { UnderTransitive(c, c[e].parent, b, a); }
  }

  predicate AllUnder(c: C.Concrete, targets: seq<nat>, a: nat)
    requires C.WellFormed(c)
  {
    forall k :: 0 <= k < |targets| ==> targets[k] < |c| && c[targets[k]].action && C.Under(c, targets[k], a)
  }

  /** What is built for a name has the operations of its terminals, in order, all of them below the
      name before it, and leaves no choice but the one to be pruned. */
  predicate Built(c: C.Concrete, prev: nat, ts: seq<Tree>, targets: seq<nat>)
    requires C.WellFormed(c)
  {
    AllResolved(ts) && TargetsOf(ts) == targets && AllUnder(c, targets, prev)
  }

  lemma {:induction false} EnumBuilt(c: C.Concrete, kind: OperationKind, prev: nat, n: Name, v: Variable, next: nat)
    requires C.WellFormed(c) && BuildEnum(c, kind, prev, n, v, next).Trees?
    ensures var ts := BuildEnum(c, kind, prev, n, v, next).trees; ts != [] && Built(c, prev, ts, Terminals(n))
    decreases n, 1
  {
    var d := EnumChain(c, n.element, prev, v, next);
    EnumChainSteps(c, n.element, prev, v, next);
    if n.children == [] {
      var leaf := Node(Operation(kind, d.next, d.variable, n.element), []);
      assert [leaf][..0] == [] && TargetsOf([leaf]) == [] + Targets(leaf) == [n.element];
      HangTargets(d.chain, [leaf]);
    } else {
      var below := BuildEnums(c, kind, n.element, n.children, d.variable, d.next);
      EnumsBuilt(c, kind, n.element, n.children, d.variable, d.next);
      HangTargets(d.chain, below.trees);
      forall k | 0 <= k < |Terminals(n)| ensures C.Under(c, Terminals(n)[k], prev) {
        UnderTransitive(c, Terminals(n)[k], n.element, prev);
      }
    }
  }

  lemma {:induction false} EnumsBuilt(c: C.Concrete, kind: OperationKind, prev: nat, ns: seq<Name>, v: Variable,
          next: nat)
    requires C.WellFormed(c) && BuildEnums(c, kind, prev, ns, v, next).Trees?
    ensures var ts := BuildEnums(c, kind, prev, ns, v, next).trees;
      (ns != [] ==> ts != []) && Built(c, prev, ts, TerminalsOf(ns))
    decreases ns, 0
  {
    if ns != [] {
      var n := |ns| - 1;
      var before := BuildEnums(c, kind, prev, ns[..n], v, next);
      EnumsBuilt(c, kind, prev, ns[..n], v, next);
      EnumBuilt(c, kind, prev, ns[n], v, before.next);
      TargetsConcat(before.trees, BuildEnum(c, kind, prev, ns[n], v, before.next).trees);
    }
  }

  // ---- the pass ----

  /** The pass leaves a finished derivation alone. */
  lemma {:induction false} ResolvedStays(t: Tree)
    requires Resolved(t, AnyOperation)
    ensures Eliminate(t, AnyOperation) == (t, Success)
    decreases t, 1
  {
    ResolvedChildrenStay(t.children);
  }

  lemma {:induction false} ResolvedChildrenStay(ts: seq<Tree>)
    requires AllResolved(ts)
    ensures EliminateChildren(ts, AnyOperation) == (ts, Success)
    ensures Select(ts, AnyOperation, Success) == ts
    decreases ts, 0
  {
    if ts != [] {
      var n := |ts| - 1;
      ResolvedChildrenStay(ts[..n]);
      ResolvedStays(ts[n]);
      SelectStep(ts, AnyOperation, Success);
      assert ts == ts[..n] + [ts[n]];
    }
  }

  function SettledTree(head: Instruction, v: Variable, alternatives: seq<Tree>): Tree {
    Node(head, [Node(Enumeration(v), alternatives)])
  }

  /** The prune node gives way to the alternatives, all of which live. */
  lemma TypeSettles(head: Instruction, v: Variable, alternatives: seq<Tree>)
    requires !ChoiceNode(head) && !head.Operation? && alternatives != [] && AllResolved(alternatives)
    ensures EliminateChild(TypeTree(head, v, alternatives), AnyOperation) ==
        (SettledTree(head, v, alternatives), Success)
  {
    hide Resolved, AllResolved, Select;
    var prune := Node(Prune, alternatives);
    var enumeration := Node(Enumeration(v), [prune]);
    ResolvedChildrenStay(alternatives);
    PruneOnly(prune, AnyOperation);
    SingletonRuns(enumeration, AnyOperation, Success);
    assert Eliminate(enumeration, AnyOperation) == (Node(Enumeration(v), alternatives), Success);
  }

  // ---- evaluation ----

  /** One sub-range: a target, its first instance and the one behind its last. */
  datatype SubRange = SubRange(target: nat, low: nat, high: nat)

  /** Exactly the instances of the target below instance `i` of the action. */
  ghost predicate Covers(c: C.Concrete, action: nat, i: nat, s: SubRange)
    requires C.WellFormed(c) && s.target < |c| && C.Under(c, s.target, action)
  {
    s.low < s.high <= C.TotalDomain(c, s.target) &&
    forall k: nat :: s.low <= k < s.high <==> k < C.TotalDomain(c, s.target) && C.Ancestor(c, s.target, action, k) == i
  }

  ghost predicate CoversAll(c: C.Concrete, action: nat, i: nat, targets: seq<nat>, ranges: seq<SubRange>)
    requires C.WellFormed(c) && AllUnder(c, targets, action)
  {
    |ranges| == |targets| && forall k :: 0 <= k < |ranges| ==>
      ranges[k].target == targets[k] && Covers(c, action, i, ranges[k])
  }

  /** `EnumerationInstruction::evaluate`: one sub-range for every operation. */
  method EvaluateEnumeration(c: C.Concrete, action: nat, i: nat, targets: seq<nat>) returns (ranges: seq<SubRange>)
    requires C.WellFormed(c) && action < |c| && i < C.TotalDomain(c, action) && AllUnder(c, targets, action)
    ensures CoversAll(c, action, i, targets, ranges)
  {
    ranges := [];
    for k := 0 to |targets|
      invariant AllUnder(c, targets[..k], action) && CoversAll(c, action, i, targets[..k], ranges)
    {
      var low, high, _ := Derivation.SubRange(c, action, targets[k], i);
      ranges := ranges + [SubRange(targets[k], low, high)];
    }
    assert targets[..|targets|] == targets;
  }

  /** The way to the enumeration of the type of the context reference: where it is and what it
      enumerates. */
  datatype Visit = Visit(action: nat, instance: nat, targets: seq<nat>) | Stuck

  function Reach(t: Tree, env: Evaluation.Environment): Visit
    decreases t, |t.children| + 1
  {
    match t.instr
    case Root(_) => if |t.children| == 1 then Reach(t.children[0], env) else Stuck
    case MonoReference(f, v) =>
      if f in env && v !in env && |t.children| == 1 then Reach(t.children[0], env[v := env[f]]) else Stuck
    case PolyCase(f, v) =>
      if f in env && v !in env && |t.children| == 1 then Reach(t.children[0], env[v := env[f]]) else Stuck
    case PolyBranch(f) => if f in env then ReachCase(t, 0, env[f].actionType, env) else Stuck
    case Enumeration(v) =>
      if v in env && v.InstanceVariable? then Visit(v.actionType, env[v].instance, TargetsOf(t.children)) else Stuck
    case _ => Stuck
  }

  function ReachCase(t: Tree, i: nat, action: nat, env: Evaluation.Environment): Visit
    requires i <= |t.children|
    decreases t, |t.children| - i
  {
    if i == |t.children| || !t.children[i].instr.PolyCase? then Stuck
    else if Evaluation.CaseType(t.children[i].instr) == action then Reach(t.children[i], env)
    else ReachCase(t, i + 1, action, env)
  }

  // ---- the whole invocation ----

  /** One settled type tree, built from a name of the context. */
  predicate SettledType(c: C.Concrete, t: Tree, n: Name, reference: Variable, mono: bool)
    requires C.WellFormed(c)
  {
    |t.children| == 1 && t.children[0].instr.Enumeration? &&
    var v := t.children[0].instr.context;
    v.InstanceVariable? && v.actionType == n.element &&
    t.instr == (if mono then MonoReference(reference, v) else PolyCase(reference, v)) &&
    TargetsOf(t.children[0].children) == TerminalsOf(n.children) && AllUnder(c, TerminalsOf(n.children), n.element)
  }

  predicate SettledTypes(c: C.Concrete, ts: seq<Tree>, ns: seq<Name>, reference: Variable, mono: bool)
    requires C.WellFormed(c)
  {
    |ts| == |ns| && forall i :: 0 <= i < |ts| ==> SettledType(c, ts[i], ns[i], reference, mono)
  }

  lemma {:induction false} TypesSettle(c: C.Concrete, kind: OperationKind, ns: seq<Name>, reference: Variable,
          mono: bool, next: nat)
    requires C.WellFormed(c) && BuildTypes(c, kind, ns, reference, mono, next).Trees?
    requires forall i :: 0 <= i < |ns| ==> ns[i].children != []
    ensures var e := EliminateChildren(BuildTypes(c, kind, ns, reference, mono, next).trees, AnyOperation);
      e.1.Success? && SettledTypes(c, e.0, ns, reference, mono)
  {
    hide SettledType, BuildTypes, TypeTree, EliminateChild, EliminateChildren, C.WellFormed;
    if ns == [] {
      NoTypes(c, kind, ns, reference, mono, next);
    } else {
      var k := |ns| - 1;
      var before, t := LastType(c, kind, ns, reference, mono, next);
      TypesSettle(c, kind, ns[..k], reference, mono, next);
      OneTypeSettles(c, kind, ns[k], reference, mono, before.next);
      ChildrenSnoc(before.trees, t);
      var settled := EliminateChildren(before.trees, AnyOperation).0;
      SettledSnoc(c, settled, EliminateChild(t, AnyOperation).0, ns, reference, mono);
    }
  }

  lemma NoTypes(c: C.Concrete, kind: OperationKind, ns: seq<Name>, reference: Variable, mono: bool, next: nat)
    requires C.WellFormed(c) && ns == []
    ensures BuildTypes(c, kind, ns, reference, mono, next) == Trees([], next) &&
        EliminateChildren([], AnyOperation) == ([], Success)
  {
  }

  lemma LastType(c: C.Concrete, kind: OperationKind, ns: seq<Name>, reference: Variable, mono: bool, next: nat)
    returns (before: Answer, t: Tree)
    requires C.WellFormed(c) && ns != [] && BuildTypes(c, kind, ns, reference, mono, next).Trees?
    ensures before == BuildTypes(c, kind, ns[..|ns| - 1], reference, mono, next) && before.Trees?
    ensures var n := ns[|ns| - 1];
      var v := InstanceVariable(before.next, n.element);
      var below := BuildEnums(c, kind, n.element, n.children, v, before.next + 1);
      var head := if mono then MonoReference(reference, v) else PolyCase(reference, v);
      below.Trees? && t == TypeTree(head, v, below.trees) &&
      BuildTypes(c, kind, ns, reference, mono, next).trees == before.trees + [t]
  {
    hide BuildEnums, TypeTree;
    before := BuildTypes(c, kind, ns[..|ns| - 1], reference, mono, next);
    var all := BuildTypes(c, kind, ns, reference, mono, next).trees;
    t := all[|all| - 1];
  }

  lemma ChildrenSnoc(ts: seq<Tree>, t: Tree)
    requires !t.instr.Prune?
    ensures var r, k := EliminateChildren(ts, AnyOperation), EliminateChild(t, AnyOperation);
      EliminateChildren(ts + [t], AnyOperation) == (r.0 + [k.0], Join(r.1, k.1))
  {
    hide EliminateChild;
    assert (ts + [t])[..|ts|] == ts;
  }

  lemma SettledSnoc(c: C.Concrete, ts: seq<Tree>, t: Tree, ns: seq<Name>, reference: Variable, mono: bool)
    requires C.WellFormed(c) && ns != [] && SettledTypes(c, ts, ns[..|ns| - 1], reference, mono) &&
        SettledType(c, t, ns[|ns| - 1], reference, mono)
    ensures SettledTypes(c, ts + [t], ns, reference, mono)
  {
    hide SettledType;
  }

  lemma OneTypeSettles(c: C.Concrete, kind: OperationKind, n: Name, reference: Variable, mono: bool, next: nat)
    requires C.WellFormed(c) && n.children != []
    requires BuildEnums(c, kind, n.element, n.children, InstanceVariable(next, n.element), next + 1).Trees?
    ensures var v := InstanceVariable(next, n.element);
      var head := if mono then MonoReference(reference, v) else PolyCase(reference, v);
      var t := TypeTree(head, v, BuildEnums(c, kind, n.element, n.children, v, next + 1).trees);
      var (after, o) := EliminateChild(t, AnyOperation);
      !t.instr.Prune? && o.Success? && SettledType(c, after, n, reference, mono)
  {
    hide EliminateChild, Resolved;
    var v := InstanceVariable(next, n.element);
    var head := if mono then MonoReference(reference, v) else PolyCase(reference, v);
    EnumsBuilt(c, kind, n.element, n.children, v, next + 1);
    TypeSettles(head, v, BuildEnums(c, kind, n.element, n.children, v, next + 1).trees);
  }

  lemma TypeReached(c: C.Concrete, t: Tree, n: Name, reference: Variable, mono: bool, r: Evaluation.Reference)
    requires C.WellFormed(c) && SettledType(c, t, n, reference, mono) && reference.ReferenceVariable?
    ensures Reach(t, map[reference := r]) == Visit(n.element, r.instance, TerminalsOf(n.children))
    ensures !mono ==> t.instr.PolyCase? && Evaluation.CaseType(t.instr) == n.element
  {
    var v := t.children[0].instr.context;
    assert v !in map[reference := r];
    assert Reach(t, map[reference := r]) == Reach(t.children[0], map[reference := r][v := r]);
  }

  lemma {:induction false} TypesLength(c: C.Concrete, kind: OperationKind, ns: seq<Name>, reference: Variable,
          mono: bool, next: nat)
    requires C.WellFormed(c) && BuildTypes(c, kind, ns, reference, mono, next).Trees?
    ensures |BuildTypes(c, kind, ns, reference, mono, next).trees| == |ns|
  {
    if ns != [] { TypesLength(c, kind, ns[..|ns| - 1], reference, mono, next); }
  }

  lemma {:induction false} CaseReached(c: C.Concrete, t: Tree, ns: seq<Name>, reference: Variable, i: nat, j: nat,
          r: Evaluation.Reference)
    requires C.WellFormed(c) && SettledTypes(c, t.children, ns, reference, false) && reference.ReferenceVariable?
    requires i <= j && IsFirst(ns, r.actionType, j)
    ensures ReachCase(t, i, r.actionType, map[reference := r]) ==
        Visit(ns[j].element, r.instance, TerminalsOf(ns[j].children))
    decreases j - i
  {
    hide SettledType, TerminalsOf;
    TypeReached(c, t.children[i], ns[i], reference, false, r);
    if i < j { CaseReached(c, t, ns, reference, i + 1, j, r); }
  }

  /** An enumeration that is built is never refused by the pass, and what is then evaluated, for any
      reference to a context, is the enumeration of the terminal names below the context of that type,
      in order, each of which has its instances below the instance referred to. */
  lemma EnumerationTheorem(c: C.Concrete, kind: OperationKind, context: seq<Name>, r: Evaluation.Reference, j: nat)
    requires C.WellFormed(c) && context != [] && BuildEnumeration(c, kind, context).Enumerated?
    requires (forall i :: 0 <= i < |context| ==> context[i].children != []) && IsFirst(context, r.actionType, j)
    ensures var b := BuildEnumeration(c, kind, context);
      var (final, o) := Eliminate(b.root, AnyOperation);
      var targets := TerminalsOf(context[j].children);
      o.Success? && AllUnder(c, targets, r.actionType) &&
        Reach(final, map[b.context := r]) == Visit(r.actionType, r.instance, targets)
  {
    hide SettledType, TerminalsOf, BuildTypes, TypeTree;
    var v := ReferenceVariable(0, Elements(context));
    var mono := |context| == 1;
    var types := BuildTypes(c, kind, context, v, mono, 1).trees;
    TypesSettle(c, kind, context, v, mono, 1);
    TypesLength(c, kind, context, v, mono, 1);
    var settled := EliminateChildren(types, AnyOperation).0;
    TypeUnder(c, settled[j], context[j], v, mono);
    if mono {
      TypeReached(c, settled[0], context[0], v, true, r);
    } else {
      SingletonRuns(Node(PolyBranch(v), types), AnyOperation, Success);
      CaseReached(c, Node(PolyBranch(v), settled), context, v, 0, j, r);
    }
  }

  lemma TypeUnder(c: C.Concrete, t: Tree, n: Name, reference: Variable, mono: bool)
    requires C.WellFormed(c) && SettledType(c, t, n, reference, mono)
    ensures AllUnder(c, TerminalsOf(n.children), n.element)
  {
  }
}
