/** Which names a range invocation is refused for, and what its instructions read and set. */
module EnumerationScopes {
  import opened Instructions
  import opened Derivation
  import opened Builder
  import opened Enumerations
  import C = ConcreteTree

  // ---- refused names ----

  /** `x` comes after an instance of action `p`, somewhere in the names that come after one of `prev`. */
  ghost predicate ComesAfter(ns: seq<Name>, prev: nat, p: nat, x: Name)
    decreases ns
  {
    exists i :: 0 <= i < |ns| && ((x == ns[i] && p == prev) || ComesAfter(ns[i].children, ns[i].element, p, x))
  }

  /** A range is of actions below the one before, reached without a reference. */
  predicate NoRange(c: C.Concrete, p: nat, x: Name)
    requires C.WellFormed(c)
  {
    x.reference || x.element >= |c| || !c[x.element].action || !C.Under(c, x.element, p)
  }

  lemma {:induction false} EnumRefused(c: C.Concrete, kind: OperationKind, prev: nat, n: Name, v: Variable, next: nat)
    requires C.WellFormed(c)
    ensures BuildEnum(c, kind, prev, n, v, next).Refused? <==>
      NoRange(c, prev, n) || exists p, x :: ComesAfter(n.children, n.element, p, x) && NoRange(c, p, x)
    decreases n, 1
  {
    if !NoRange(c, prev, n) {
      var d := EnumChain(c, n.element, prev, v, next);
      EnumsRefused(c, kind, n.element, n.children, d.variable, d.next);
    }
  }

  lemma {:induction false} EnumsRefused(c: C.Concrete, kind: OperationKind, prev: nat, ns: seq<Name>, v: Variable,
          next: nat)
    requires C.WellFormed(c)
    ensures BuildEnums(c, kind, prev, ns, v, next).Refused? <==>
      exists p, x :: ComesAfter(ns, prev, p, x) && NoRange(c, p, x)
    decreases ns, 0
  {
    hide BuildEnum, NoRange;
    if ns != [] {
      var n := |ns| - 1;
      EnumsRefused(c, kind, prev, ns[..n], v, next);
      ComesAfterSnoc(ns, prev);
      if BuildEnums(c, kind, prev, ns[..n], v, next).Trees? {
        EnumRefused(c, kind, prev, ns[n], v, BuildEnums(c, kind, prev, ns[..n], v, next).next);
      }
    }
  }

  lemma ComesAfterSnoc(ns: seq<Name>, prev: nat)
    requires ns != []
    ensures var n := |ns| - 1;
      forall p, x :: ComesAfter(ns, prev, p, x) <==>
        ComesAfter(ns[..n], prev, p, x) || (x == ns[n] && p == prev) ||
        ComesAfter(ns[n].children, ns[n].element, p, x)
  {
    var n := |ns| - 1;
    forall p, x
      ensures ComesAfter(ns, prev, p, x) <==>
        ComesAfter(ns[..n], prev, p, x) || (x == ns[n] && p == prev) ||
        ComesAfter(ns[n].children, ns[n].element, p, x)
    {
      if i :| 0 <= i < |ns| && ((x == ns[i] && p == prev) || ComesAfter(ns[i].children, ns[i].element, p, x)) {
        if i < n { assert ns[..n][i] == ns[i]; }
      }
      assert forall i :: 0 <= i < n ==> ns[..n][i] == ns[i];
    }
  }

  /** A range invocation is refused exactly for such a name below some context. */
  lemma {:induction false} TypesRefused(c: C.Concrete, kind: OperationKind, ns: seq<Name>, reference: Variable,
          mono: bool, next: nat)
    requires C.WellFormed(c)
    ensures BuildTypes(c, kind, ns, reference, mono, next).Refused? <==>
      exists i, p, x :: 0 <= i < |ns| && ComesAfter(ns[i].children, ns[i].element, p, x) && NoRange(c, p, x)
  {
    hide BuildEnums, NoRange, ComesAfter;
    if ns != [] {
      var n := |ns| - 1;
      TypesRefused(c, kind, ns[..n], reference, mono, next);
      assert forall i :: 0 <= i < n ==> ns[..n][i] == ns[i];
      var before := BuildTypes(c, kind, ns[..n], reference, mono, next);
      if before.Trees? {
        var v := InstanceVariable(before.next, ns[n].element);
        EnumsRefused(c, kind, ns[n].element, ns[n].children, v, before.next + 1);
      }
    }
  }

  lemma EnumerationRefused(c: C.Concrete, kind: OperationKind, context: seq<Name>)
    requires C.WellFormed(c)
    ensures BuildEnumeration(c, kind, context).Invalid? <==>
      exists i, p, x ::
        0 <= i < |context| && ComesAfter(context[i].children, context[i].element, p, x) && NoRange(c, p, x)
  {
    TypesRefused(c, kind, context, ReferenceVariable(0, Elements(context)), |context| == 1, 1);
  }

  // ---- what is read and set ----

  /** Every instruction reads a variable that is set above it and sets one that is not; a derivation goes from an
      action to one in it; and every operation is of the kind asked for, on a variable of its target. */
  predicate Scoped(c: C.Concrete, kind: OperationKind, t: Tree, bound: set<Variable>)
    decreases t
  {
    match t.instr
    case Operation(k, _, v, e) =>
      k == kind && v in bound && v.InstanceVariable? && v.actionType == e && t.children == []
    case EnumDerivation(f, to) =>
      Derives(c, t.instr, bound) && forall i :: 0 <= i < |t.children| ==> Scoped(c, kind, t.children[i], bound + {to})
    case MonoReference(f, v) =>
      f in bound && v !in bound && forall i :: 0 <= i < |t.children| ==> Scoped(c, kind, t.children[i], bound + {v})
    case PolyCase(f, v) =>
      f in bound && v !in bound && forall i :: 0 <= i < |t.children| ==> Scoped(c, kind, t.children[i], bound + {v})
    case Enumeration(v) => v in bound && forall i :: 0 <= i < |t.children| ==> Scoped(c, kind, t.children[i], bound)
    case PolyBranch(f) => f in bound && forall i :: 0 <= i < |t.children| ==> Scoped(c, kind, t.children[i], bound)
    case Root(_) => forall i :: 0 <= i < |t.children| ==> Scoped(c, kind, t.children[i], bound)
    case Prune => forall i :: 0 <= i < |t.children| ==> Scoped(c, kind, t.children[i], bound)
    case _ => false
  }

  predicate Derives(c: C.Concrete, i: Instruction, bound: set<Variable>) {
    i.EnumDerivation? && i.from in bound && i.to !in bound && i.from.InstanceVariable? && i.to.InstanceVariable? &&
    i.to.actionType < |c| && c[i.to.actionType].parent == i.from.actionType
  }

  predicate AllScoped(c: C.Concrete, kind: OperationKind, ts: seq<Tree>, bound: set<Variable>) {
    forall i :: 0 <= i < |ts| ==> Scoped(c, kind, ts[i], bound)
  }

  function SetBy(chain: seq<Instruction>): set<Variable>
    requires AllDerive(chain)
  {
    if chain == [] then {} else SetBy(chain[..|chain| - 1]) + {chain[|chain| - 1].to}
  }

  predicate ChainScoped(c: C.Concrete, chain: seq<Instruction>, bound: set<Variable>) {
    AllDerive(chain) &&
    (chain == [] ||
     (ChainScoped(c, chain[..|chain| - 1], bound) &&
      Derives(c, chain[|chain| - 1], bound + SetBy(chain[..|chain| - 1]))))
  }

  lemma {:induction false} NestScoped(c: C.Concrete, kind: OperationKind, chain: seq<Instruction>, t: Tree,
          bound: set<Variable>)
    requires ChainScoped(c, chain, bound) && Scoped(c, kind, t, bound + SetBy(chain))
    ensures Scoped(c, kind, Nest(chain, t), bound)
    decreases |chain|
  {
    if chain == [] {
      assert bound + {} == bound;
    } else {
      var n := |chain| - 1;
      assert bound + SetBy(chain) == bound + SetBy(chain[..n]) + {chain[n].to};
      NestScoped(c, kind, chain[..n], Node(chain[n], [t]), bound);
    }
  }

  lemma HangScoped(c: C.Concrete, kind: OperationKind, chain: seq<Instruction>, ts: seq<Tree>, bound: set<Variable>)
    requires ChainScoped(c, chain, bound) && AllScoped(c, kind, ts, bound + SetBy(chain))
    ensures AllScoped(c, kind, Hang(chain, ts), bound)
  {
    if chain == [] {
      assert bound + {} == bound;
    } else {
      var n := |chain| - 1;
      assert bound + SetBy(chain) == bound + SetBy(chain[..n]) + {chain[n].to};
      NestScoped(c, kind, chain[..n], Node(chain[n], ts), bound);
    }
  }

  /** The variable a chain ends with holds an instance of the action it leads to. */
  lemma {:induction false} ChainFits(c: C.Concrete, e: nat, a: nat, v: Variable, next: nat, bound: set<Variable>)
    requires C.WellFormed(c) && e < |c| && C.Under(c, e, a)
    requires v in bound && v.InstanceVariable? && v.actionType == a && NumberedBelow(bound, next)
    ensures var d := EnumChain(c, e, a, v, next);
      ChainScoped(c, d.chain, bound) && next <= d.next && NumberedBelow(bound + SetBy(d.chain), d.next) &&
      d.variable in bound + SetBy(d.chain) && d.variable.InstanceVariable? && d.variable.actionType == e
    decreases e
  {
    if e != a {
      ChainFits(c, c[e].parent, a, v, next, bound);
      var before, d := EnumChain(c, c[e].parent, a, v, next), EnumChain(c, e, a, v, next);
      assert d.chain[..|before.chain|] == before.chain;
    }
  }

  lemma {:induction false} EnumScoped(c: C.Concrete, kind: OperationKind, prev: nat, n: Name, v: Variable, next: nat,
          bound: set<Variable>)
    requires C.WellFormed(c) && BuildEnum(c, kind, prev, n, v, next).Trees?
    requires v in bound && v.InstanceVariable? && v.actionType == prev && NumberedBelow(bound, next)
    ensures var b := BuildEnum(c, kind, prev, n, v, next); AllScoped(c, kind, b.trees, bound) && next <= b.next
    decreases n, 1
  {
    hide Scoped, ChainScoped, NumberedBelow;
    var d := EnumChain(c, n.element, prev, v, next);
    ChainFits(c, n.element, prev, v, next, bound);
    var inner := bound + SetBy(d.chain);
    if n.children == [] {
      var leaf := Node(Operation(kind, d.next, d.variable, n.element), []);
      LeafScoped(c, kind, leaf, inner);
      HangScoped(c, kind, d.chain, [leaf], bound);
    } else {
      EnumsScoped(c, kind, n.element, n.children, d.variable, d.next, inner);
      HangScoped(c, kind, d.chain, BuildEnums(c, kind, n.element, n.children, d.variable, d.next).trees, bound);
    }
  }

  lemma LeafScoped(c: C.Concrete, kind: OperationKind, leaf: Tree, bound: set<Variable>)
    requires leaf.instr.Operation? && leaf.children == [] && leaf.instr.kind == kind && leaf.instr.instance in bound
    requires leaf.instr.instance.InstanceVariable? && leaf.instr.instance.actionType == leaf.instr.target
    ensures Scoped(c, kind, leaf, bound)
  {
  }

  lemma {:induction false} EnumsScoped(c: C.Concrete, kind: OperationKind, prev: nat, ns: seq<Name>, v: Variable,
          next: nat, bound: set<Variable>)
    requires C.WellFormed(c) && BuildEnums(c, kind, prev, ns, v, next).Trees?
    requires v in bound && v.InstanceVariable? && v.actionType == prev && NumberedBelow(bound, next)
    ensures var b := BuildEnums(c, kind, prev, ns, v, next); AllScoped(c, kind, b.trees, bound) && next <= b.next
    decreases ns, 0
  {
    hide Scoped, BuildEnum;
    if ns != [] {
      var n := |ns| - 1;
      EnumsScoped(c, kind, prev, ns[..n], v, next, bound);
      var before := BuildEnums(c, kind, prev, ns[..n], v, next);
      assert NumberedBelow(bound, before.next);
      EnumScoped(c, kind, prev, ns[n], v, before.next, bound);
    }
  }

  lemma {:induction false} TypesScoped(c: C.Concrete, kind: OperationKind, ns: seq<Name>, reference: Variable,
          mono: bool, next: nat)
    requires C.WellFormed(c) && BuildTypes(c, kind, ns, reference, mono, next).Trees?
    requires reference.ReferenceVariable? && reference.id < next
    ensures var b := BuildTypes(c, kind, ns, reference, mono, next);
      AllScoped(c, kind, b.trees, {reference}) && next <= b.next
  {
    hide Scoped, BuildEnums;
    if ns != [] {
      var n := |ns| - 1;
      TypesScoped(c, kind, ns[..n], reference, mono, next);
      var before := BuildTypes(c, kind, ns[..n], reference, mono, next);
      var v := InstanceVariable(before.next, ns[n].element);
      var below := BuildEnums(c, kind, ns[n].element, ns[n].children, v, before.next + 1);
      EnumsScoped(c, kind, ns[n].element, ns[n].children, v, before.next + 1, {reference, v});
      TypeScoped(c, kind, if mono then MonoReference(reference, v)
        else PolyCase(reference, v), reference, v, below.trees);
    }
  }

  lemma TypeScoped(c: C.Concrete, kind: OperationKind, head: Instruction, reference: Variable, v: Variable,
          alternatives: seq<Tree>)
    requires head == MonoReference(reference, v) || head == PolyCase(reference, v)
    requires reference != v && AllScoped(c, kind, alternatives, {reference, v})
    ensures Scoped(c, kind, TypeTree(head, v, alternatives), {reference})
  {
    var prune := Node(Prune, alternatives);
    assert {reference} + {v} == {reference, v};
    assert Scoped(c, kind, prune, {reference, v});
    assert Scoped(c, kind, Node(Enumeration(v), [prune]), {reference, v});
  }

  /** What is built for a range invocation is scoped, and all its operations are of its kind. */
  lemma EnumerationScoped(c: C.Concrete, kind: OperationKind, context: seq<Name>)
    requires C.WellFormed(c) && BuildEnumeration(c, kind, context).Enumerated?
    ensures var b := BuildEnumeration(c, kind, context); Scoped(c, kind, b.root, {b.context})
  {
    hide BuildTypes;
    var v := ReferenceVariable(0, Elements(context));
    TypesScoped(c, kind, context, v, |context| == 1, 1);
    var types := BuildTypes(c, kind, context, v, |context| == 1, 1).trees;
    assert Scoped(c, kind, Node(PolyBranch(v), types), {v});
  }
}
