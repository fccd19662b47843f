/** How the generic visitor turns a tree of names into an instruction tree. */
module Builder {
  import opened Instructions
  import opened Derivation
  import C = ConcreteTree
  import Evaluation

  /** A node of the name tree: the element it stands for, whether it is a reference that is
      followed, and what comes after it. A name without children is terminal. */
  datatype Name = Name(element: nat, reference: bool, children: seq<Name>)

  datatype OperationID = ImpNoParams | ImpParams | OnStart | OnStop | OnPause | OnResume | OnWait | OnGet | OnDone

  function Elements(ns: seq<Name>): (es: seq<nat>)
    ensures |es| == |ns|
  {
    seq(|ns|, i requires 0 <= i < |ns| => ns[i].element)
  }

  /** The first of the names that stands for an element. */
  predicate IsFirst(ns: seq<Name>, element: nat, j: nat) {
    j < |ns| && ns[j].element == element && forall l :: 0 <= l < j ==> ns[l].element != element
  }

  /** The operation on a dimension, where there is one. */
  predicate OnDimension(op: OperationID) {
    op.ImpNoParams? || op.ImpParams? || op.OnGet? || op.OnWait?
  }

  function KindOf(c: C.Concrete, op: OperationID, e: nat): OperationKind
    requires e < |c|
  {
    if c[e].action then
      match op
      case ImpNoParams => Call
      case ImpParams => Call
      case OnStart => Start
      case OnStop => Stop
      case OnPause => Pause
      case OnResume => Resume
      case OnWait => WaitAction
      case OnGet => GetAction
      case OnDone => Done
    else
      match op
      case ImpNoParams => Read
      case ImpParams => if c[e].linked then WriteLink else Write
      case OnGet => GetDimension
      case _ => WaitDimension
  }

  /** A starter derives the parent only. */
  predicate Starts(op: OperationID) {
    op.ImpNoParams? || op.ImpParams? || op.OnStart?
  }

  /** What a terminal name may be: not the root where a parent is derived, and a dimension only
      for the operations dimensions have. */
  predicate Operable(c: C.Concrete, op: OperationID, e: nat)
    requires e < |c|
  {
    if c[e].action then Starts(op) ==> e > 0 else OnDimension(op)
  }

  /** What an operation ID asks for, of an action or of a dimension, kind by kind. */
  predicate Performs(op: OperationID, x: C.Element, kind: OperationKind) {
    (kind.Call? <==> x.action && (op.ImpNoParams? || op.ImpParams?)) &&
    (kind.Start? <==> x.action && op.OnStart?) &&
    (kind.Stop? <==> x.action && op.OnStop?) &&
    (kind.Pause? <==> x.action && op.OnPause?) &&
    (kind.Resume? <==> x.action && op.OnResume?) &&
    (kind.Done? <==> x.action && op.OnDone?) &&
    (kind.WaitAction? <==> x.action && op.OnWait?) &&
    (kind.GetAction? <==> x.action && op.OnGet?) &&
    (kind.Read? <==> !x.action && op.ImpNoParams?) &&
    (kind.Write? <==> !x.action && op.ImpParams? && !x.linked) &&
    (kind.WriteLink? <==> !x.action && op.ImpParams? && x.linked) &&
    (kind.GetDimension? <==> !x.action && op.OnGet?) &&
    (kind.WaitDimension? <==> !x.action && op.OnWait?) &&
    !kind.RangeRaw? && !kind.Range?
  }

  /** The action an operation is given an instance of: what is called or started has none yet, and a
      dimension is its action's. */
  function ActsOn(c: C.Concrete, kind: OperationKind, e: nat): int
    requires e < |c|
  {
    match kind
    case Stop | Pause | Resume | Done | WaitAction | GetAction => e
    case _ => c[e].parent
  }

  /** Where a terminal name may have the operation, it gets what was asked for. */
  lemma KindExact(c: C.Concrete, op: OperationID, e: nat)
    requires C.WellFormed(c) && e < |c| && Operable(c, op, e)
    ensures Performs(op, c[e], KindOf(c, op, e))
    ensures ActsOn(c, KindOf(c, op, e), e) == if c[e].action && !Starts(op) then e else c[e].parent
    ensures 0 <= ActsOn(c, KindOf(c, op, e), e) < |c|
  {
  }

  predicate Buildable(c: C.Concrete, op: OperationID, n: Name)
    decreases n
  {
    n.element < |c| && (n.children == [] ==> Operable(c, op, n.element)) &&
    forall i :: 0 <= i < |n.children| ==> Buildable(c, op, n.children[i])
  }

  predicate AllBuildable(c: C.Concrete, op: OperationID, ns: seq<Name>) {
    forall i :: 0 <= i < |ns| ==> Buildable(c, op, ns[i])
  }

  // ---- the visitor ----

  /** A tree, and the number the next variable or operation gets. */
  type Built = (Tree, nat)

  function BuildOperation(c: C.Concrete, op: OperationID, prev: int, e: nat, v: Variable, next: nat): (built: Built)
    requires C.WellFormed(c) && -1 <= prev < |c| && e < |c| && Operable(c, op, e)
    ensures next <= built.1
  {
    var target := if c[e].action && Starts(op) then c[e].parent else e;
    var d := CommonRootDerivation(c, prev, target, v, next);
    (Nest(d.chain, Node(Operation(KindOf(c, op, e), d.next, d.variable, e), [])), d.next + 1)
  }

  function BuildName(c: C.Concrete, op: OperationID, prev: int, n: Name, v: Variable, next: nat): (built: Built)
    requires C.WellFormed(c) && -1 <= prev < |c| && Buildable(c, op, n)
    ensures next <= built.1
    decreases n, 2
  {
    if n.children == [] then BuildOperation(c, op, prev, n.element, v, next)
    else
      var d := CommonRootDerivation(c, prev, n.element, v, next);
      var below := if n.reference then BuildReference(c, op, n, d.variable, d.next)
        else BuildChoice(c, op, n, d.variable, d.next);
      (Nest(d.chain, below.0), below.1)
  }

  /** The names after one name: behind an elimination node where there are several. */
  function BuildChoice(c: C.Concrete, op: OperationID, n: Name, v: Variable, next: nat): (built: Built)
    requires C.WellFormed(c) && Buildable(c, op, n) && n.children != []
    ensures next <= built.1
    decreases n, 1
  {
    var all := BuildNames(c, op, n.element, n.children, v, next);
    (if |n.children| > 1 then Node(Elimination, all.0) else all.0[0], all.1)
  }

  function BuildNames(c: C.Concrete, op: OperationID, prev: int, ns: seq<Name>, v: Variable,
          next: nat): (all: (seq<Tree>, nat))
    requires C.WellFormed(c) && -1 <= prev < |c| && AllBuildable(c, op, ns)
    ensures |all.0| == |ns| && next <= all.1
    decreases ns, 0
  {
    if ns == [] then ([], next)
    else
      var before := BuildNames(c, op, prev, ns[..|ns| - 1], v, next);
      var last := BuildName(c, op, prev, ns[|ns| - 1], v, before.1);
      (before.0 + [last.0], last.1)
  }

  /** A dimension is read, and a case made for every type the reference may have. */
  function BuildReference(c: C.Concrete, op: OperationID, n: Name, v: Variable, next: nat): (built: Built)
    requires C.WellFormed(c) && Buildable(c, op, n) && n.children != []
    ensures next <= built.1
    decreases n, 1
  {
    var reference := ReferenceVariable(next, Elements(n.children));
    var below := BuildDereference(c, op, n.element, n.children, reference, next + 1);
    (Node(DimensionRead(v, reference, n.element), [below.0]), below.1)
  }

  /** A reference of one type is followed, one of several types branched on. */
  function BuildDereference(c: C.Concrete, op: OperationID, prev: int, ns: seq<Name>, reference: Variable,
          next: nat): (built: Built)
    requires C.WellFormed(c) && -1 <= prev < |c| && AllBuildable(c, op, ns) && ns != []
    ensures next <= built.1
    decreases ns, 1
  {
    if |ns| > 1 then
      var all := BuildCases(c, op, prev, ns, reference, next);
      (Node(PolyBranch(reference), all.0), all.1)
    else
      var v := InstanceVariable(next, ns[0].element);
      var below := BuildType(c, op, prev, ns[0], v, next + 1);
      (Node(MonoReference(reference, v), [below.0]), below.1)
  }

  function BuildCases(c: C.Concrete, op: OperationID, prev: int, ns: seq<Name>, reference: Variable,
          next: nat): (all: (seq<Tree>, nat))
    requires C.WellFormed(c) && -1 <= prev < |c| && AllBuildable(c, op, ns)
    ensures |all.0| == |ns| && next <= all.1
    decreases ns, 0
  {
    if ns == [] then ([], next)
    else
      var before := BuildCases(c, op, prev, ns[..|ns| - 1], reference, next);
      var last := ns[|ns| - 1];
      var v := InstanceVariable(before.1, last.element);
      var below := BuildType(c, op, prev, last, v, before.1 + 1);
      (before.0 + [Node(PolyCase(reference, v), [below.0])], below.1)
  }

  /** What comes after a reference whose type is known. */
  function BuildType(c: C.Concrete, op: OperationID, prev: int, n: Name, v: Variable, next: nat): (built: Built)
    requires C.WellFormed(c) && -1 <= prev < |c| && Buildable(c, op, n)
    ensures next <= built.1
    decreases n, 2
  {
    if n.children == [] then BuildOperation(c, op, prev, n.element, v, next) else BuildChoice(c, op, n, v, next)
  }

  datatype Compiled = Compiled(root: Tree, context: Variable) | NoContext | InvalidTarget

  /** `build` up to the elimination: the root, with the context names below it. Nothing is
      built without a context, or for an operation its target does not have. */
  function Build(c: C.Concrete, op: OperationID, context: seq<Name>): Compiled
    requires C.WellFormed(c)
  {
    if context == [] then NoContext
    else if !AllBuildable(c, op, context) then InvalidTarget
    else
      var v := ReferenceVariable(0, Elements(context));
      Compiled(Node(Root(v), [BuildDereference(c, op, -1, context, v, 1).0]), v)
  }

  // ---- every variable is fresh, and set before it is read ----

  predicate NumberedBelow(bound: set<Variable>, next: nat) {
    forall v :: v in bound ==> v.id < next
  }

  function After(chain: seq<Instruction>, bound: set<Variable>): set<Variable> {
    if chain == [] then bound
    else
      var i := chain[|chain| - 1];
      After(chain[..|chain| - 1], bound) + if Evaluation.Binds(i) then {Evaluation.Assigned(i)} else {}
  }

  predicate InstanceOf(c: C.Concrete, v: Variable) {
    v.InstanceVariable? && v.actionType < |c|
  }

  predicate StepFits(c: C.Concrete, i: Instruction, bound: set<Variable>) {
    (i.ParentDerivation? || i.ChildDerivation?) && Evaluation.Typed(c, i) && Evaluation.Used(i) in bound &&
      Evaluation.Assigned(i) !in bound
  }

  predicate ChainFits(c: C.Concrete, chain: seq<Instruction>, bound: set<Variable>) {
    chain == [] ||
    (ChainFits(c, chain[..|chain| - 1], bound) && StepFits(c, chain[|chain| - 1], After(chain[..|chain| - 1], bound)))
  }

  lemma {:induction false} ChainConcat(c: C.Concrete, a: seq<Instruction>, b: seq<Instruction>, bound: set<Variable>)
    requires ChainFits(c, a, bound) && ChainFits(c, b, After(a, bound))
    ensures ChainFits(c, a + b, bound) && After(a + b, bound) == After(b, After(a, bound))
  {
    if b == [] {
      assert a + b == a;
    } else {
      ChainConcat(c, a, b[..|b| - 1], bound);
      assert (a + b)[..|a| + |b| - 1] == a + b[..|b| - 1];
    }
  }

  lemma {:induction false} NestScoped(c: C.Concrete, chain: seq<Instruction>, t: Tree, bound: set<Variable>,
          deref: Evaluation.Dereference)
    requires ChainFits(c, chain, bound) && Evaluation.Scoped(c, t, After(chain, bound), deref)
    ensures Evaluation.Scoped(c, Nest(chain, t), bound, deref)
    decreases |chain|
  {
    if chain != [] {
      var n := |chain| - 1;
      NestScoped(c, chain[..n], Node(chain[n], [t]), bound, deref);
    }
  }

  /** A derivation whose chain fits up to where it dies; where it does not die, its variable can
      be read below it. */
  predicate DerivedFits(c: C.Concrete, d: Derived, bound: set<Variable>) {
    if Dead(d) then ChainFits(c, d.chain[..|d.chain| - 1], bound)
    else
      ChainFits(c, d.chain, bound) && d.variable in After(d.chain, bound) && InstanceOf(c, d.variable) &&
      NumberedBelow(After(d.chain, bound), d.next)
  }

  lemma {:induction false} UpFits(c: C.Concrete, e: nat, a: nat, v: Variable, next: nat, bound: set<Variable>)
    requires C.WellFormed(c) && e < |c| && C.Under(c, e, a) && v in bound && InstanceOf(c, v) &&
        NumberedBelow(bound, next)
    ensures !Dead(Up(c, e, a, v, next)) && DerivedFits(c, Up(c, e, a, v, next), bound)
    decreases e
  {
    if e != a {
      var w := InstanceVariable(next, c[e].parent);
      var step := [ParentDerivation(v, w)];
      UpFits(c, c[e].parent, a, w, next + 1, bound + {w});
      var d := Up(c, c[e].parent, a, w, next + 1);
      assert step[..0] == [] && After([], bound) == bound && ChainFits(c, [], bound);
      assert After(step, bound) == bound + {w};
      ChainConcat(c, step, d.chain, bound);
    }
  }

  /** One more step down, or the failure there. */
  lemma StepDownFits(c: C.Concrete, d: Derived, e: nat, bound: set<Variable>)
    requires DerivedFits(c, d, bound) && !Dead(d) && e < |c|
    ensures DerivedFits(c, d.(chain := d.chain + [Failure]), bound)
    ensures var w := InstanceVariable(d.next, e);
      DerivedFits(c, Derived(d.chain + [ChildDerivation(d.variable, w)], w, d.next + 1), bound)
  {
    var w := InstanceVariable(d.next, e);
    var more := d.chain + [ChildDerivation(d.variable, w)];
    assert (d.chain + [Failure])[..|d.chain|] == d.chain && more[..|d.chain|] == d.chain;
    assert After(more, bound) == After(d.chain, bound) + {w};
  }

  lemma {:induction false} DownFits(c: C.Concrete, e: nat, a: nat, v: Variable, next: nat, bound: set<Variable>)
    requires C.WellFormed(c) && e < |c| && C.Under(c, e, a) && v in bound && InstanceOf(c, v) &&
        NumberedBelow(bound, next)
    ensures DerivedFits(c, Down(c, e, a, v, next), bound)
    decreases e
  {
    if e != a {
      hide DerivedFits, Dead;
      DownFits(c, c[e].parent, a, v, next, bound);
      var d := Down(c, c[e].parent, a, v, next);
      if !Dead(d) { StepDownFits(c, d, e, bound); }
    } else {
      assert ChainFits(c, [], bound) && After([], bound) == bound;
    }
  }

  lemma NothingFits(c: C.Concrete, v: Variable, next: nat, bound: set<Variable>)
    requires v in bound && InstanceOf(c, v) && NumberedBelow(bound, next)
    ensures DerivedFits(c, Derived([], v, next), bound)
  {
    assert ChainFits(c, [], bound) && After([], bound) == bound;
  }

  lemma DerivationFits(c: C.Concrete, from: int, to: nat, v: Variable, next: nat, bound: set<Variable>)
    requires C.WellFormed(c) && -1 <= from < |c| && to < |c| && v in bound && InstanceOf(c, v) &&
        NumberedBelow(bound, next)
    ensures DerivedFits(c, CommonRootDerivation(c, from, to, v, next), bound)
  {
    hide After, ChainFits, Up, Down, C.CommonRoot;
    if from == -1 || from == to {
      NothingFits(c, v, next, bound);
    } else {
      var r := C.CommonRoot(c, from, to);
      UpFits(c, from, r, v, next, bound);
      var u := Up(c, from, r, v, next);
      DownFits(c, to, r, u.variable, u.next, After(u.chain, bound));
      var d := Down(c, to, r, u.variable, u.next);
      if Dead(d) {
        ChainConcat(c, u.chain, d.chain[..|d.chain| - 1], bound);
        assert (u.chain + d.chain)[..|u.chain + d.chain| - 1] == u.chain + d.chain[..|d.chain| - 1];
      } else {
        ChainConcat(c, u.chain, d.chain, bound);
      }
    }
  }

  /** Below a derivation that fits, whatever fits its variables fits the whole. */
  lemma DerivedScoped(c: C.Concrete, d: Derived, t: Tree, bound: set<Variable>, deref: Evaluation.Dereference)
    requires DerivedFits(c, d, bound) && (!Dead(d) ==> Evaluation.Scoped(c, t, After(d.chain, bound), deref))
    ensures Evaluation.Scoped(c, Nest(d.chain, t), bound, deref)
  {
    if Dead(d) {
      var n := |d.chain| - 1;
      NestScoped(c, d.chain[..n], Node(d.chain[n], [t]), bound, deref);
    } else {
      NestScoped(c, d.chain, t, bound, deref);
    }
  }

  /** What the environment of the compiled program promises: dereferencing a dimension gives one
      of the types resolved for it. */
  ghost predicate Runs(c: C.Concrete, op: OperationID, n: Name, deref: Evaluation.Dereference)
    requires Buildable(c, op, n)
    decreases n
  {
    (n.reference && n.children != [] ==>
      forall r: Evaluation.Reference :: deref(r, n.element).actionType in Elements(n.children)) &&
    forall i :: 0 <= i < |n.children| ==> Runs(c, op, n.children[i], deref)
  }

  ghost predicate AllRun(c: C.Concrete, op: OperationID, ns: seq<Name>, deref: Evaluation.Dereference)
    requires AllBuildable(c, op, ns)
  {
    forall i :: 0 <= i < |ns| ==> Runs(c, op, ns[i], deref)
  }

  lemma OperationScoped(c: C.Concrete, op: OperationID, prev: int, e: nat, v: Variable, next: nat, bound: set<Variable>,
          deref: Evaluation.Dereference)
    requires C.WellFormed(c) && -1 <= prev < |c| && e < |c| && Operable(c, op, e)
    requires v in bound && InstanceOf(c, v) && NumberedBelow(bound, next)
    ensures Evaluation.Scoped(c, BuildOperation(c, op, prev, e, v, next).0, bound, deref)
  {
    var target := if c[e].action && Starts(op) then c[e].parent else e;
    var d := CommonRootDerivation(c, prev, target, v, next);
    DerivationFits(c, prev, target, v, next, bound);
    DerivedScoped(c, d, Node(Operation(KindOf(c, op, e), d.next, d.variable, e), []), bound, deref);
  }

  lemma {:induction false} NameScoped(c: C.Concrete, op: OperationID, prev: int, n: Name, v: Variable, next: nat,
          bound: set<Variable>, deref: Evaluation.Dereference)
    requires C.WellFormed(c) && -1 <= prev < |c| && Buildable(c, op, n) && Runs(c, op, n, deref)
    requires v in bound && InstanceOf(c, v) && NumberedBelow(bound, next)
    ensures Evaluation.Scoped(c, BuildName(c, op, prev, n, v, next).0, bound, deref)
    decreases n, 2
  {
    if n.children == [] {
      OperationScoped(c, op, prev, n.element, v, next, bound, deref);
    } else {
      DerivationFits(c, prev, n.element, v, next, bound);
      var d := CommonRootDerivation(c, prev, n.element, v, next);
      var below := if n.reference then BuildReference(c, op, n, d.variable, d.next)
        else BuildChoice(c, op, n, d.variable, d.next);
      if !Dead(d) && n.reference {
        ReferenceScoped(c, op, n, d.variable, d.next, After(d.chain, bound), deref);
      } else if !Dead(d) {
        ChoiceScoped(c, op, n, d.variable, d.next, After(d.chain, bound), deref);
      }
      DerivedScoped(c, d, below.0, bound, deref);
    }
  }

  lemma {:induction false} ChoiceScoped(c: C.Concrete, op: OperationID, n: Name, v: Variable, next: nat,
          bound: set<Variable>, deref: Evaluation.Dereference)
    requires C.WellFormed(c) && Buildable(c, op, n) && n.children != [] && Runs(c, op, n, deref)
    requires v in bound && InstanceOf(c, v) && NumberedBelow(bound, next)
    ensures Evaluation.Scoped(c, BuildChoice(c, op, n, v, next).0, bound, deref)
    decreases n, 1
  {
    NamesScoped(c, op, n.element, n.children, v, next, bound, deref);
  }

  lemma {:induction false} NamesScoped(c: C.Concrete, op: OperationID, prev: int, ns: seq<Name>, v: Variable, next: nat,
          bound: set<Variable>, deref: Evaluation.Dereference)
    requires C.WellFormed(c) && -1 <= prev < |c| && AllBuildable(c, op, ns) && AllRun(c, op, ns, deref)
    requires v in bound && InstanceOf(c, v) && NumberedBelow(bound, next)
    ensures Evaluation.AllScoped(c, BuildNames(c, op, prev, ns, v, next).0, bound, deref)
    decreases ns, 0
  {
    if ns != [] {
      NamesScoped(c, op, prev, ns[..|ns| - 1], v, next, bound, deref);
      NameScoped(c, op, prev, ns[|ns| - 1], v, BuildNames(c, op, prev, ns[..|ns| - 1], v, next).1, bound, deref);
    }
  }

  lemma {:induction false} ReferenceScoped(c: C.Concrete, op: OperationID, n: Name, v: Variable, next: nat,
          bound: set<Variable>, deref: Evaluation.Dereference)
    requires C.WellFormed(c) && Buildable(c, op, n) && n.children != [] && n.reference && Runs(c, op, n, deref)
    requires v in bound && InstanceOf(c, v) && NumberedBelow(bound, next)
    ensures Evaluation.Scoped(c, BuildReference(c, op, n, v, next).0, bound, deref)
    decreases n, 1
  {
    var reference := ReferenceVariable(next, Elements(n.children));
    DereferenceScoped(c, op, n.element, n.children, reference, next + 1, bound + {reference}, deref);
  }

  lemma {:induction false} DereferenceScoped(c: C.Concrete, op: OperationID, prev: int, ns: seq<Name>,
          reference: Variable, next: nat, bound: set<Variable>, deref: Evaluation.Dereference)
    requires C.WellFormed(c) && -1 <= prev < |c| && AllBuildable(c, op, ns) && ns != [] && AllRun(c, op, ns, deref)
    requires reference in bound && reference.ReferenceVariable? && reference.types == Elements(ns) &&
        NumberedBelow(bound, next)
    ensures Evaluation.Scoped(c, BuildDereference(c, op, prev, ns, reference, next).0, bound, deref)
    decreases ns, 1
  {
    if |ns| > 1 {
      CasesScoped(c, op, prev, ns, reference, next, bound, deref);
      var all := BuildCases(c, op, prev, ns, reference, next).0;
      forall k | 0 <= k < |ns| ensures Evaluation.HasCase(all, Elements(ns)[k]) {
        assert CaseFits(c, all[k], ns[k].element, bound, deref);
      }
    } else {
      var v := InstanceVariable(next, ns[0].element);
      assert Buildable(c, op, ns[0]);
      TypeScoped(c, op, prev, ns[0], v, next + 1, bound + {v}, deref);
    }
  }

  ghost predicate CaseFits(c: C.Concrete, t: Tree, element: nat, bound: set<Variable>, deref: Evaluation.Dereference) {
    t.instr.PolyCase? && Evaluation.CaseType(t.instr) == element && Evaluation.Scoped(c, t, bound, deref)
  }

  /** What is built for each name is a case for it. */
  ghost predicate CasesFit(c: C.Concrete, ns: seq<Name>, ts: seq<Tree>, bound: set<Variable>,
          deref: Evaluation.Dereference) {
    |ts| == |ns| && forall i :: 0 <= i < |ns| ==> CaseFits(c, ts[i], ns[i].element, bound, deref)
  }

  lemma CasesSnoc(c: C.Concrete, ns: seq<Name>, ts: seq<Tree>, t: Tree, bound: set<Variable>,
          deref: Evaluation.Dereference)
    requires ns != [] && CasesFit(c, ns[..|ns| - 1], ts, bound, deref)
    requires CaseFits(c, t, ns[|ns| - 1].element, bound, deref)
    ensures CasesFit(c, ns, ts + [t], bound, deref)
  {
    hide CaseFits;
    assert forall i :: 0 <= i < |ns| - 1 ==> ns[..|ns| - 1][i] == ns[i];
  }

  lemma {:induction false} CasesScoped(c: C.Concrete, op: OperationID, prev: int, ns: seq<Name>, reference: Variable,
          next: nat, bound: set<Variable>, deref: Evaluation.Dereference)
    requires C.WellFormed(c) && -1 <= prev < |c| && AllBuildable(c, op, ns) && AllRun(c, op, ns, deref)
    requires reference in bound && reference.ReferenceVariable? && NumberedBelow(bound, next)
    ensures CasesFit(c, ns, BuildCases(c, op, prev, ns, reference, next).0, bound, deref)
    decreases ns, 0
  {
    hide BuildType, CasesFit, CaseFits, Buildable, Runs;
    if ns == [] {
      assert CasesFit(c, [], [], bound, deref) by { NoCases(c, bound, deref); }
    } else {
      var n := |ns| - 1;
      var before := BuildCases(c, op, prev, ns[..n], reference, next);
      assert Buildable(c, op, ns[n]) && Runs(c, op, ns[n], deref);
      CasesScoped(c, op, prev, ns[..n], reference, next, bound, deref);
      CaseFitsOne(c, op, prev, ns[n], reference, before.1, bound, deref);
      CasesSnoc(c, ns, before.0, BuildCases(c, op, prev, ns, reference, next).0[n], bound, deref);
    }
  }

  lemma NoCases(c: C.Concrete, bound: set<Variable>, deref: Evaluation.Dereference)
    ensures CasesFit(c, [], [], bound, deref)
  {
  }

  lemma {:induction false} CaseFitsOne(c: C.Concrete, op: OperationID, prev: int, n: Name, reference: Variable,
          next: nat, bound: set<Variable>, deref: Evaluation.Dereference)
    requires C.WellFormed(c) && -1 <= prev < |c| && Buildable(c, op, n) && Runs(c, op, n, deref)
    requires reference in bound && reference.ReferenceVariable? && NumberedBelow(bound, next)
    ensures var v := InstanceVariable(next, n.element);
      CaseFits(c, Node(PolyCase(reference, v), [BuildType(c, op, prev, n, v, next + 1).0]), n.element, bound, deref)
    decreases n, 3
  {
    var v := InstanceVariable(next, n.element);
    TypeScoped(c, op, prev, n, v, next + 1, bound + {v}, deref);
  }

  lemma {:induction false} TypeScoped(c: C.Concrete, op: OperationID, prev: int, n: Name, v: Variable, next: nat,
          bound: set<Variable>, deref: Evaluation.Dereference)
    requires C.WellFormed(c) && -1 <= prev < |c| && Buildable(c, op, n) && Runs(c, op, n, deref)
    requires v in bound && InstanceOf(c, v) && NumberedBelow(bound, next)
    ensures Evaluation.Scoped(c, BuildType(c, op, prev, n, v, next).0, bound, deref)
    decreases n, 2
  {
    if n.children == [] {
      OperationScoped(c, op, prev, n.element, v, next, bound, deref);
    } else {
      ChoiceScoped(c, op, n, v, next, bound, deref);
    }
  }

  /** The builder makes trees in which every variable is set before it is read, once, and every
      branch covers the types of its reference. */
  lemma BuildScoped(c: C.Concrete, op: OperationID, context: seq<Name>, deref: Evaluation.Dereference)
    requires C.WellFormed(c) && AllBuildable(c, op, context) && AllRun(c, op, context, deref) && context != []
    ensures var b := Build(c, op, context);
      b.Compiled? && b.context.ReferenceVariable? && b.context.types == Elements(context) &&
      Evaluation.Scoped(c, b.root, {b.context}, deref)
  {
    var v := ReferenceVariable(0, Elements(context));
    DereferenceScoped(c, op, -1, context, v, 1, {v}, deref);
  }
}
