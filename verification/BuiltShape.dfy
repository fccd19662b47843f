/** Which names give a tree the elimination pass can take: read off the names and the concrete
    tree alone, without building anything. */
module BuiltShape {
  import opened Instructions
  import opened EliminationSpec
  import opened Derivation
  import opened Builder
  import C = ConcreteTree

  // ---- ways between elements ----

  /** What a derivation emits first. */
  datatype Start = Nothing | Step | Block

  /** On the way down, dimensions are passed over, and an action with several instances ends it. */
  function DownStart(c: C.Concrete, e: nat, a: nat): Start
    requires C.WellFormed(c) && e < |c| && C.Under(c, e, a)
    decreases e
  {
    if e == a then Nothing
    else
      var s := DownStart(c, c[e].parent, a);
      if !s.Nothing? || !c[e].action then s else if c[e].size != 1 then Block else Step
  }

  predicate DownBlocked(c: C.Concrete, e: nat, a: nat)
    requires C.WellFormed(c) && e < |c| && C.Under(c, e, a)
    decreases e
  {
    e != a && ((c[e].action && c[e].size != 1) || DownBlocked(c, c[e].parent, a))
  }

  /** A way that goes up first starts with a step, any other one as its way down does. */
  function WayStart(c: C.Concrete, from: int, to: nat): Start
    requires C.WellFormed(c) && -1 <= from < |c| && to < |c|
  {
    if from == -1 || from == to then Nothing
    else if C.CommonRoot(c, from, to) != from then Step
    else DownStart(c, to, from)
  }

  predicate WayBlocked(c: C.Concrete, from: int, to: nat)
    requires C.WellFormed(c) && -1 <= from < |c| && to < |c|
  {
    from != -1 && from != to && DownBlocked(c, to, C.CommonRoot(c, from, to))
  }

  // ---- names ----

  /** Where the derivation of a name goes. */
  function Target(c: C.Concrete, op: OperationID, n: Name): nat
    requires C.WellFormed(c) && Buildable(c, op, n)
  {
    if n.children == [] && c[n.element].action && Starts(op) then c[n.element].parent else n.element
  }

  /** A name that is no alternative to another: whatever comes after a blocked way is never looked at. */
  predicate NameFits(c: C.Concrete, op: OperationID, prev: int, n: Name, strict: bool)
    requires C.WellFormed(c) && -1 <= prev < |c| && Buildable(c, op, n)
    decreases n, 2
  {
    n.children == [] || WayBlocked(c, prev, n.element) || BelowFits(c, op, n, strict)
  }

  predicate BelowFits(c: C.Concrete, op: OperationID, n: Name, strict: bool)
    requires C.WellFormed(c) && Buildable(c, op, n)
    decreases n, 1
  {
    if n.reference then TypesFit(c, op, n.children, strict) else ChoiceFits(c, op, n, strict)
  }

  predicate TypesFit(c: C.Concrete, op: OperationID, ns: seq<Name>, strict: bool)
    requires C.WellFormed(c) && AllBuildable(c, op, ns)
    decreases ns
  {
    forall i :: 0 <= i < |ns| ==> ChoiceFits(c, op, ns[i], strict)
  }

  predicate ChoiceFits(c: C.Concrete, op: OperationID, n: Name, strict: bool)
    requires C.WellFormed(c) && Buildable(c, op, n)
    decreases n, 0
  {
    forall i :: 0 <= i < |n.children| ==>
      if |n.children| > 1 then AlternativeFits(c, op, n.element, n.children[i], strict)
      else NameFits(c, op, n.element, n.children[i], strict)
  }

  /** One of several names after another. It must not come to a further choice without a step
      between; strictly, its way must not be blocked from the start. */
  predicate AlternativeFits(c: C.Concrete, op: OperationID, prev: int, n: Name, strict: bool)
    requires C.WellFormed(c) && -1 <= prev < |c| && Buildable(c, op, n)
    decreases n, 3
  {
    match WayStart(c, prev, Target(c, op, n))
    case Step => NameFits(c, op, prev, n, strict)
    case Block => !strict && BelowFits(c, op, n, strict)
    case Nothing => n.children == [] || BelowIsAlternative(c, op, n, strict)
  }

  predicate BelowIsAlternative(c: C.Concrete, op: OperationID, n: Name, strict: bool)
    requires C.WellFormed(c) && Buildable(c, op, n) && n.children != []
    decreases n, 2
  {
    if n.reference then TypesFit(c, op, n.children, strict)
    else |n.children| == 1 && AlternativeFits(c, op, n.element, n.children[0], strict)
  }

  // ---- chains ----

  predicate IsStep(i: Instruction) {
    i.ParentDerivation? || i.ChildDerivation?
  }

  predicate AllSteps(chain: seq<Instruction>) {
    forall i :: 0 <= i < |chain| ==> IsStep(chain[i])
  }

  /** Steps, and a failure at most at the end. */
  predicate Walk(chain: seq<Instruction>) {
    chain == [] || (AllSteps(chain[..|chain| - 1]) && (IsStep(chain[|chain| - 1]) || chain[|chain| - 1].Failure?))
  }

  /** The chain starts and ends as said. */
  predicate Meets(d: Derived, start: Start, blocked: bool) {
    Walk(d.chain) && (Dead(d) <==> blocked) && (d.chain == [] <==> start.Nothing?) &&
    (d.chain != [] ==> (d.chain[0].Failure? <==> start.Block?))
  }

  lemma {:induction false} UpSteps(c: C.Concrete, e: nat, a: nat, v: Variable, next: nat)
    requires C.WellFormed(c) && e < |c| && C.Under(c, e, a)
    ensures AllSteps(Up(c, e, a, v, next).chain) && (e != a ==> Up(c, e, a, v, next).chain != [])
    decreases e
  {
    if e != a { UpSteps(c, c[e].parent, a, InstanceVariable(next, c[e].parent), next + 1); }
  }

  lemma {:induction false} DownMeets(c: C.Concrete, e: nat, a: nat, v: Variable, next: nat)
    requires C.WellFormed(c) && e < |c| && C.Under(c, e, a)
    ensures Meets(Down(c, e, a, v, next), DownStart(c, e, a), DownBlocked(c, e, a))
    decreases e
  {
    if e != a {
      DownMeets(c, c[e].parent, a, v, next);
      var before, d := Down(c, c[e].parent, a, v, next), Down(c, e, a, v, next);
      if d != before {
        assert d.chain[..|d.chain| - 1] == before.chain && AllSteps(before.chain);
      }
    }
  }

  lemma WayMeets(c: C.Concrete, from: int, to: nat, v: Variable, next: nat)
    requires C.WellFormed(c) && -1 <= from < |c| && to < |c|
    ensures Meets(CommonRootDerivation(c, from, to, v, next), WayStart(c, from, to), WayBlocked(c, from, to))
  {
    if from != -1 && from != to {
      var r := C.CommonRoot(c, from, to);
      var u := Up(c, from, r, v, next);
      var d := Down(c, to, r, u.variable, u.next);
      UpSteps(c, from, r, v, next);
      DownMeets(c, to, r, u.variable, u.next);
      if d.chain == [] {
        assert u.chain + d.chain == u.chain;
      } else {
        assert (u.chain + d.chain)[..|u.chain + d.chain| - 1] == u.chain + d.chain[..|d.chain| - 1];
      }
    }
  }

  /** The shape of a chain with a tree below it. */
  lemma NestShape(d: Derived, t: Tree, start: Start, blocked: bool, strict: bool)
    requires Meets(d, start, blocked)
    ensures Generic(Nest(d.chain, t), strict) <==> blocked || Generic(t, strict)
    ensures Alternative(Nest(d.chain, t), strict) <==>
      match start {
        case Nothing => Alternative(t, strict)
        case Step => blocked || Generic(t, strict)
        case Block => !strict && Generic(t, strict)
      }
  {
    if blocked {
      var n := |d.chain| - 1;
      var dead := Node(Failure, [t]);
      StepsShape(d.chain[..n], dead, strict);
      assert AllGeneric([t], strict) <==> Generic([t][0], strict);
      assert Generic(dead, strict) && (Alternative(dead, strict) <==> !strict && Generic(t, strict));
    } else {
      assert AllSteps(d.chain);
      StepsShape(d.chain, t, strict);
    }
  }

  lemma {:induction false} StepsShape(chain: seq<Instruction>, t: Tree, strict: bool)
    requires AllSteps(chain)
    ensures Generic(Nest(chain, t), strict) <==> Generic(t, strict)
    ensures Alternative(Nest(chain, t), strict) <==> if chain == [] then Alternative(t, strict) else Generic(t, strict)
    decreases |chain|
  {
    if chain != [] {
      var n := |chain| - 1;
      OnlyChildShape(chain[n], t, strict);
      StepsShape(chain[..n], Node(chain[n], [t]), strict);
    }
  }

  /** A node that is no choice has the shape its only child has. */
  lemma OnlyChildShape(i: Instruction, t: Tree, strict: bool)
    requires !ChoiceNode(i)
    ensures Generic(Node(i, [t]), strict) <==> Generic(t, strict)
    ensures Alternative(Node(i, [t]), strict) <==> Generic(t, strict)
  {
    assert Node(i, [t]).children[0] == t;
    assert AllGeneric([t], strict) <==> Generic(t, strict);
  }

  // ---- what is built ----

  lemma OperationShape(c: C.Concrete, op: OperationID, prev: int, e: nat, v: Variable, next: nat, strict: bool)
    requires C.WellFormed(c) && -1 <= prev < |c| && e < |c| && Operable(c, op, e)
    ensures var target := if c[e].action && Starts(op) then c[e].parent else e;
      var t := BuildOperation(c, op, prev, e, v, next).0;
      Generic(t, strict) && (Alternative(t, strict) <==> (WayStart(c, prev, target).Block? ==> !strict))
  {
    var target := if c[e].action && Starts(op) then c[e].parent else e;
    var d := CommonRootDerivation(c, prev, target, v, next);
    var leaf := Node(Operation(KindOf(c, op, e), d.next, d.variable, e), []);
    assert Generic(leaf, strict) && Alternative(leaf, strict);
    WayMeets(c, prev, target, v, next);
    NestShape(d, leaf, WayStart(c, prev, target), WayBlocked(c, prev, target), strict);
  }

  lemma {:induction false} NameShape(c: C.Concrete, op: OperationID, prev: int, n: Name, v: Variable, next: nat,
          strict: bool)
    requires C.WellFormed(c) && -1 <= prev < |c| && Buildable(c, op, n)
    ensures var t := BuildName(c, op, prev, n, v, next).0;
      (Generic(t, strict) <==> NameFits(c, op, prev, n, strict)) &&
      (Alternative(t, strict) <==> AlternativeFits(c, op, prev, n, strict))
    decreases n, 2
  {
    hide BuildReference, BuildChoice, BuildOperation, CommonRootDerivation, WayStart, WayBlocked;
    hide Generic, Alternative, Nest;
    if n.children == [] {
      OperationShape(c, op, prev, n.element, v, next, strict);
      assert BelowFits(c, op, n, strict);
    } else {
      var d := CommonRootDerivation(c, prev, n.element, v, next);
      var below := if n.reference then BuildReference(c, op, n, d.variable, d.next)
        else BuildChoice(c, op, n, d.variable, d.next);
      WayMeets(c, prev, n.element, v, next);
      NestShape(d, below.0, WayStart(c, prev, n.element), WayBlocked(c, prev, n.element), strict);
      if n.reference {
        ReferenceShape(c, op, n, d.variable, d.next, strict);
      } else {
        ChoiceShape(c, op, n, d.variable, d.next, strict);
      }
    }
  }

  lemma {:induction false} ChoiceShape(c: C.Concrete, op: OperationID, n: Name, v: Variable, next: nat, strict: bool)
    requires C.WellFormed(c) && Buildable(c, op, n) && n.children != []
    ensures var t := BuildChoice(c, op, n, v, next).0;
      (Generic(t, strict) <==> ChoiceFits(c, op, n, strict)) &&
      (!n.reference ==> (Alternative(t, strict) <==> BelowIsAlternative(c, op, n, strict)))
    decreases n, 1
  {
    hide NameFits, AlternativeFits, BuildNames, Generic, Alternative, Shaped, ChoiceFits, BelowIsAlternative;
    NamesShape(c, op, n.element, n.children, v, next, strict);
    var all := BuildNames(c, op, n.element, n.children, v, next).0;
    if |n.children| > 1 {
      SeveralShape(all, strict);
      SeveralFit(c, op, n, all, strict);
    } else {
      OneFits(c, op, n, all, strict);
    }
  }

  lemma SeveralFit(c: C.Concrete, op: OperationID, n: Name, all: seq<Tree>, strict: bool)
    requires C.WellFormed(c) && Buildable(c, op, n) && |n.children| > 1
    requires Shaped(c, op, n.element, n.children, all, strict)
    ensures Alternatives(all, strict) <==> ChoiceFits(c, op, n, strict)
    ensures !n.reference ==> !BelowIsAlternative(c, op, n, strict)
  {
    hide NameFits, AlternativeFits, Generic, Alternative;
  }

  lemma OneFits(c: C.Concrete, op: OperationID, n: Name, all: seq<Tree>, strict: bool)
    requires C.WellFormed(c) && Buildable(c, op, n) && |n.children| == 1
    requires Shaped(c, op, n.element, n.children, all, strict)
    ensures |all| == 1 && (Generic(all[0], strict) <==> ChoiceFits(c, op, n, strict))
    ensures !n.reference ==> (Alternative(all[0], strict) <==> BelowIsAlternative(c, op, n, strict))
  {
    hide NameFits, AlternativeFits, Generic, Alternative;
  }

  lemma SeveralShape(all: seq<Tree>, strict: bool)
    ensures Generic(Node(Elimination, all), strict) <==> Alternatives(all, strict)
    ensures !Alternative(Node(Elimination, all), strict)
  {
  }

  /** What is built for each name has the shape the name says. */
  predicate Shaped(c: C.Concrete, op: OperationID, prev: int, ns: seq<Name>, all: seq<Tree>, strict: bool)
    requires C.WellFormed(c) && -1 <= prev < |c| && AllBuildable(c, op, ns)
  {
    |all| == |ns| && forall i :: 0 <= i < |ns| ==>
      (Generic(all[i], strict) <==> NameFits(c, op, prev, ns[i], strict)) &&
      (Alternative(all[i], strict) <==> AlternativeFits(c, op, prev, ns[i], strict))
  }

  lemma {:induction false} NamesShape(c: C.Concrete, op: OperationID, prev: int, ns: seq<Name>, v: Variable, next: nat,
          strict: bool)
    requires C.WellFormed(c) && -1 <= prev < |c| && AllBuildable(c, op, ns)
    ensures Shaped(c, op, prev, ns, BuildNames(c, op, prev, ns, v, next).0, strict)
    decreases ns, 0
  {
    hide Generic, Alternative, NameFits, AlternativeFits, BuildName, Shaped;
    if ns == [] {
      NoneShaped(c, op, prev, ns, strict);
    } else {
      var n := |ns| - 1;
      var before := BuildNames(c, op, prev, ns[..n], v, next);
      NamesShape(c, op, prev, ns[..n], v, next, strict);
      NameShape(c, op, prev, ns[n], v, before.1, strict);
      NamesSnoc(c, op, prev, ns, before.0, BuildName(c, op, prev, ns[n], v, before.1).0, strict);
    }
  }

  lemma NoneShaped(c: C.Concrete, op: OperationID, prev: int, ns: seq<Name>, strict: bool)
    requires C.WellFormed(c) && -1 <= prev < |c| && ns == []
    ensures Shaped(c, op, prev, ns, [], strict)
  {
  }

  lemma NamesSnoc(c: C.Concrete, op: OperationID, prev: int, ns: seq<Name>, before: seq<Tree>, t: Tree, strict: bool)
    requires C.WellFormed(c) && -1 <= prev < |c| && ns != [] && AllBuildable(c, op, ns) &&
        AllBuildable(c, op, ns[..|ns| - 1])
    requires Shaped(c, op, prev, ns[..|ns| - 1], before, strict)
    requires Generic(t, strict) <==> NameFits(c, op, prev, ns[|ns| - 1], strict)
    requires Alternative(t, strict) <==> AlternativeFits(c, op, prev, ns[|ns| - 1], strict)
    ensures Shaped(c, op, prev, ns, before + [t], strict)
  {
    hide Generic, Alternative, NameFits, AlternativeFits;
    assert forall i :: 0 <= i < |ns| - 1 ==> ns[..|ns| - 1][i] == ns[i];
  }

  lemma {:induction false} ReferenceShape(c: C.Concrete, op: OperationID, n: Name, v: Variable, next: nat, strict: bool)
    requires C.WellFormed(c) && Buildable(c, op, n) && n.children != []
    ensures var t := BuildReference(c, op, n, v, next).0;
      (Generic(t, strict) <==> TypesFit(c, op, n.children, strict)) &&
      (Alternative(t, strict) <==> TypesFit(c, op, n.children, strict))
    decreases n, 1
  {
    var reference := ReferenceVariable(next, Elements(n.children));
    DereferenceShape(c, op, n.element, n.children, reference, next + 1, strict);
    OnlyChildShape(DimensionRead(v, reference, n.element),
      BuildDereference(c, op, n.element, n.children, reference, next + 1).0, strict);
  }

  lemma {:induction false} DereferenceShape(c: C.Concrete, op: OperationID, prev: int, ns: seq<Name>,
          reference: Variable, next: nat, strict: bool)
    requires C.WellFormed(c) && -1 <= prev < |c| && AllBuildable(c, op, ns) && ns != []
    ensures Generic(BuildDereference(c, op, prev, ns, reference, next).0, strict) <==> TypesFit(c, op, ns, strict)
    decreases ns, 1
  {
    if |ns| > 1 {
      CasesShape(c, op, prev, ns, reference, next, strict);
    } else {
      var v := InstanceVariable(next, ns[0].element);
      TypeShape(c, op, prev, ns[0], v, next + 1, strict);
      OnlyChildShape(MonoReference(reference, v), BuildType(c, op, prev, ns[0], v, next + 1).0, strict);
    }
  }

  predicate CasesShaped(c: C.Concrete, op: OperationID, ns: seq<Name>, all: seq<Tree>, strict: bool)
    requires C.WellFormed(c) && AllBuildable(c, op, ns)
  {
    |all| == |ns| && forall i :: 0 <= i < |ns| ==>
      !ChoiceNode(all[i].instr) && (Generic(all[i], strict) <==> ChoiceFits(c, op, ns[i], strict))
  }

  lemma {:induction false} CasesShape(c: C.Concrete, op: OperationID, prev: int, ns: seq<Name>, reference: Variable,
          next: nat, strict: bool)
    requires C.WellFormed(c) && -1 <= prev < |c| && AllBuildable(c, op, ns)
    ensures CasesShaped(c, op, ns, BuildCases(c, op, prev, ns, reference, next).0, strict)
    decreases ns, 0
  {
    hide Generic, ChoiceFits, BuildType, ChoiceNode;
    if ns != [] {
      var n := |ns| - 1;
      var before := BuildCases(c, op, prev, ns[..n], reference, next);
      CasesShape(c, op, prev, ns[..n], reference, next, strict);
      CaseShape(c, op, prev, ns[n], reference, before.1, strict);
      ShapedSnoc(c, op, ns, before.0, BuildCases(c, op, prev, ns, reference, next).0[n], strict);
    }
  }

  lemma ShapedSnoc(c: C.Concrete, op: OperationID, ns: seq<Name>, before: seq<Tree>, t: Tree, strict: bool)
    requires C.WellFormed(c) && ns != [] && AllBuildable(c, op, ns) && AllBuildable(c, op, ns[..|ns| - 1])
    requires CasesShaped(c, op, ns[..|ns| - 1], before, strict)
    requires !ChoiceNode(t.instr) && (Generic(t, strict) <==> ChoiceFits(c, op, ns[|ns| - 1], strict))
    ensures CasesShaped(c, op, ns, before + [t], strict)
  {
    hide Generic, ChoiceFits, ChoiceNode;
    assert forall i :: 0 <= i < |ns| - 1 ==> ns[..|ns| - 1][i] == ns[i];
  }

  lemma {:induction false} CaseShape(c: C.Concrete, op: OperationID, prev: int, n: Name, reference: Variable, next: nat,
          strict: bool)
    requires C.WellFormed(c) && -1 <= prev < |c| && Buildable(c, op, n)
    ensures var v := InstanceVariable(next, n.element);
      var t := Node(PolyCase(reference, v), [BuildType(c, op, prev, n, v, next + 1).0]);
      !ChoiceNode(t.instr) && (Generic(t, strict) <==> ChoiceFits(c, op, n, strict))
    decreases n, 3
  {
    var v := InstanceVariable(next, n.element);
    TypeShape(c, op, prev, n, v, next + 1, strict);
    OnlyChildShape(PolyCase(reference, v), BuildType(c, op, prev, n, v, next + 1).0, strict);
  }

  lemma {:induction false} TypeShape(c: C.Concrete, op: OperationID, prev: int, n: Name, v: Variable, next: nat,
          strict: bool)
    requires C.WellFormed(c) && -1 <= prev < |c| && Buildable(c, op, n)
    ensures Generic(BuildType(c, op, prev, n, v, next).0, strict) <==> ChoiceFits(c, op, n, strict)
    decreases n, 2
  {
    if n.children == [] {
      OperationShape(c, op, prev, n.element, v, next, strict);
      assert ChoiceFits(c, op, n, strict);
    } else {
      ChoiceShape(c, op, n, v, next, strict);
    }
  }

  /** The pass may be run on what is built exactly when no name comes to a further choice without
      a step from an earlier one. No alternative is then headed by a failure exactly when no
      alternative is blocked from the start. */
  lemma BuildShape(c: C.Concrete, op: OperationID, context: seq<Name>, strict: bool)
    requires C.WellFormed(c) && context != [] && AllBuildable(c, op, context)
    ensures var b := Build(c, op, context);
      b.Compiled? && !ChoiceNode(b.root.instr) && (Alternative(b.root, strict) <==> TypesFit(c, op, context, strict))
  {
    var v := ReferenceVariable(0, Elements(context));
    DereferenceShape(c, op, -1, context, v, 1, strict);
    OnlyChildShape(Root(v), BuildDereference(c, op, -1, context, v, 1).0, strict);
  }
}
