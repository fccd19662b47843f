/** Two whole invocations, from the elements of a program to what is compiled and evaluated, that go
    wrong. */
module ConcreteInvocations {
  import opened NameResolution
  import opened Builder
  import opened Names
  import BuiltShape
  import C = ConcreteTree
  import Compilation
  import Correctness
  import Derivation
  import EliminationSpec
  import Evaluation
  import I = Instructions
  import Pruning

  // ---- an invocation that has no resolution and is compiled all the same ----

  /** An object with two instances of one action, which has another below it, and one of a second
      action, which has two of another below it. */
  function BlockedTree(): C.Concrete {
    [C.Element(true, -1, 1, false),
     C.Element(true, 0, 2, false), C.Element(true, 1, 1, false),
     C.Element(true, 0, 1, false), C.Element(true, 3, 2, false)]
  }

  function BlockedSpace(): Space {
    Space(BlockedTree(), e => false, e => [])
  }

  /** Its resolved names: both inner actions, after the object. */
  function BlockedNodes(): Nodes {
    [Node(-1, false, true, [1]), Node(0, false, false, [2, 3]), Node(2, false, false, []), Node(4, false, false, [])]
  }

  lemma BlockedResolves()
    ensures WellFormedSpace(BlockedSpace())
    ensures ResolveAll(BlockedSpace(), [0], [[2, 4]], false) == (Done, BlockedNodes())
  {
    hide Extend;
    var s := BlockedSpace();
    BlockedExtends();
    assert [[2, 4]][..0] == [];
    assert ResolveTo(s, [0], []) == (Done, Start([0]));
  }

  lemma BlockedExtends()
    ensures WellFormedSpace(BlockedSpace())
    ensures Ordered(Start([0])) && Start([0]) != []
    ensures Extend(BlockedSpace(), Start([0]), [2, 4]) == (Done, BlockedNodes())
  {
    hide AddAll, Grow, MembersOf, Visited, PruneOnly, Prune, Expand;
    var s, path, start := BlockedSpace(), [2, 4], Start([0]);
    BlockedStart();
    BlockedGrows();
    StartOrdered([0]);
    NothingToExpand(s, start, 2);
    assert GrowFirst(s, start, 0, path) == start && GrowFirst(s, start, 1, path) == start;
    RoundsOrdered(s, start, path);
    Pruning.ExtendGrows(s, start, path);
    Pruning.NothingMarked(BlockedNodes());
  }

  lemma BlockedStart()
    ensures Start([0]) == [Node(-1, false, true, [1]), Node(0, false, false, [])]
  {
    hide AddAll;
    var one := [Node(-1, false, true, [])];
    AddAllDoes(one, 0, [0], false);
    assert Fresh(one, 1) == [1];
  }

  lemma BlockedGrows()
    ensures var s, start := BlockedSpace(), Start([0]);
      |start| == 2 && Grow(s, start, 0, [2, 4]) == start && Grow(s, start, 1, [2, 4]) == BlockedNodes()
  {
    hide AddAll, MembersOf;
    var start := Start([0]);
    BlockedStart();
    NoMembers(BlockedSpace(), 0, [2, 4]);
    AddAllDoes(start, 1, [2, 4], false);
    assert Fresh(start, 2) == [2, 3];
  }

  lemma {:induction false} NoMembers(s: Space, action: int, path: seq<nat>)
    requires forall e :: e in path ==> !IsMember(s, action, e)
    ensures MembersOf(s, action, path) == []
  {
    if path != [] { NoMembers(s, action, path[..|path| - 1]); }
  }

  lemma BlockedNames()
    ensures Ordered(BlockedNodes())
    ensures NamesBelow(BlockedNodes(), 0) == [Name(0, false, [Name(2, false, []), Name(4, false, [])])]
  {
    var nodes := BlockedNodes();
    forall i | 0 <= i < |nodes| ensures OrderedAt(nodes, i) {
    }
    assert NamesBelow(nodes, 2) == [] && NamesBelow(nodes, 3) == [];
    assert NameAt(nodes, 2) == Name(2, false, []) && NameAt(nodes, 3) == Name(4, false, []);
    assert NamesBelow(nodes, 1) == [NameAt(nodes, 2), NameAt(nodes, 3)];
    assert NamesBelow(nodes, 0) == [NameAt(nodes, 1)];
  }

  lemma BlockedWays()
    ensures var c := BlockedTree();
      C.WellFormed(c) &&
      BuiltShape.WayStart(c, 0, 2).Block? && BuiltShape.WayStart(c, 0, 4).Step? && BuiltShape.WayBlocked(c, 0, 4)
  {
    var c := BlockedTree();
    assert C.CommonRoot(c, 0, 0) == 0 && C.CommonRoot(c, 0, 1) == 0 && C.CommonRoot(c, 0, 3) == 0;
    assert C.CommonRoot(c, 0, 2) == 0 && C.CommonRoot(c, 0, 4) == 0;
    assert BuiltShape.DownStart(c, 1, 0).Block? && BuiltShape.DownStart(c, 3, 0).Step?;
  }

  /** Stopping either of the inner actions from the object: names that resolution gives, neither of
      which can be derived, and a compilation that succeeds with a failure left in the tree. */
  lemma BlockedInvocation()
    ensures var s := BlockedSpace();
      WellFormedSpace(s) && ResolveAll(s, [0], [[2, 4]], false).0.Done? &&
      var ns := NamesBelow(ResolveAll(s, [0], [[2, 4]], false).1, 0);
      AllBuildable(s.tree, OnStop, ns) && ns != [] &&
      var root := Build(s.tree, OnStop, ns).root;
      EliminationSpec.Total(root, EliminationSpec.AnyOperation) == 0 &&
      var (final, o) := EliminationSpec.Eliminate(root, EliminationSpec.AnyOperation);
      o.Success? && !EliminationSpec.Resolved(final, EliminationSpec.AnyOperation)
  {
    hide EliminationSpec.Total, EliminationSpec.Eliminate, EliminationSpec.Resolved, ResolveAll, NamesBelow, Build;
    BlockedResolves();
    BlockedNames();
    BlockedWays();
    var n := Name(0, false, [Name(2, false, []), Name(4, false, [])]);
    assert Buildable(BlockedTree(), OnStop, n);
    Compilation.DeadInvocation(BlockedTree(), OnStop, n);
  }

  // ---- a final dereference that reaches the wrong instance ----

  /** An action with two instances and a dimension that refers to one of them. */
  function LinkedTree(): C.Concrete {
    [C.Element(true, -1, 1, false), C.Element(true, 0, 2, false), C.Element(false, 1, 1, false)]
  }

  function LinkedSpace(): Space {
    Space(LinkedTree(), e => e == 2, e => if e == 2 then [1] else [])
  }

  /** The resolved names of what its dimension leads to: the path has one member, which is then dereferenced. */
  function LinkedNodes(): Nodes {
    [Node(-1, true, true, [1]), Node(1, true, false, [2]), Node(2, true, true, [3]), Node(1, false, false, [])]
  }

  function GrownNodes(): Nodes {
    [Node(-1, false, true, [1]), Node(1, false, false, [2]), Node(2, true, false, [])]
  }

  function PrunedNodes(): Nodes {
    [Node(-1, true, true, [1]), Node(1, true, false, [2]), Node(2, true, false, [])]
  }

  lemma LinkedGrows()
    ensures var s, start := LinkedSpace(), Start([1]);
      start == [Node(-1, false, true, [1]), Node(1, false, false, [])] && GrowAll(s, start, [2]) == GrownNodes()
  {
    hide AddAll, MembersOf;
    var s, one, start := LinkedSpace(), [Node(-1, false, true, [])], Start([1]);
    AddAllDoes(one, 0, [1], false);
    assert Fresh(one, 1) == [1] && Fresh(start, 1) == [2];
    LinkedMember();
    AddAllDoes(start, 1, [2], true);
    assert GrowFirst(s, start, 0, [2]) == start && GrowFirst(s, start, 1, [2]) == start;
    assert Grow(s, start, 1, [2]) == GrownNodes();
  }

  lemma LinkedMember()
    ensures MembersOf(LinkedSpace(), 1, [2]) == [2]
  {
    var s := LinkedSpace();
    assert [2][..0] == [] && MembersOf(s, 1, []) == [] && MembersOf(s, 1, [2]) == [] + [2];
  }

  lemma LinkedOrdered()
    ensures Ordered(GrownNodes())
  {
    forall i | 0 <= i < |GrownNodes()| ensures OrderedAt(GrownNodes(), i) {
    }
  }

  lemma {:induction false} LinkedFinal(k: nat)
    requires k < 3
    ensures Ordered(GrownNodes()) && PrunedMember(GrownNodes(), k) && Final(GrownNodes(), k) == PrunedNodes()[k]
    decreases 3 - k
  {
    hide Best;
    LinkedOrdered();
    var nodes := GrownNodes();
    if k < 2 {
      LinkedFinal(k + 1);
      assert PrunedMember(nodes, nodes[k].children[0]);
      BestOfMembers(nodes, nodes[k].children);
    } else {
      NoneBest(nodes, []);
    }
  }

  lemma LinkedVisited()
    ensures Ordered(GrownNodes()) && Visited(GrownNodes(), 0) == {0, 1, 2}
  {
    LinkedOrdered();
    var nodes := GrownNodes();
    assert Visited(nodes, 2) == {2};
    assert VisitedBelow(nodes, 1, 1) == {} + {2};
    assert Visited(nodes, 1) == {1} + {2};
    assert VisitedBelow(nodes, 0, 1) == {} + {1, 2};
  }

  /** The member marks the way up to the root. */
  lemma LinkedPruned()
    ensures Ordered(GrownNodes()) && Prune(GrownNodes(), 0) == PrunedNodes()
  {
    hide Visited, Final;
    LinkedVisited();
    forall k | 0 <= k < 3 ensures Final(GrownNodes(), k) == PrunedNodes()[k] { LinkedFinal(k); }
  }

  lemma LinkedExpands()
    ensures ExpandRound(LinkedSpace(), PrunedNodes()) == LinkedNodes()
  {
    hide AddAll;
    var s, nodes := LinkedSpace(), PrunedNodes();
    assert ExpandFirst(s, nodes, 0) == nodes && ExpandFirst(s, nodes, 1) == nodes && ExpandFirst(s, nodes, 2) == nodes;
    var marked := nodes[2 := nodes[2].(reference := true)];
    AddAllDoes(marked, 2, [1], false);
    assert Fresh(marked, 1) == [3];
  }

  lemma LinkedResolves()
    ensures WellFormedSpace(LinkedSpace())
    ensures ResolveAll(LinkedSpace(), [1], [[2]], true) == (Done, LinkedNodes())
  {
    hide AddAll, Grow, Expand, MembersOf, Visited, PruneOnly, Prune;
    var s, start := LinkedSpace(), Start([1]);
    LinkedGrows();
    LinkedPruned();
    LinkedExpands();
    StartOrdered([1]);
    NothingToExpand(s, start, 2);
    Pruning.ExtendGrows(s, start, [2]);
    assert [[2]][..0] == [];
    assert ResolveTo(s, [1], []) == (Done, start);
    assert ResolveTo(s, [1], [[2]]) == (Done, PrunedNodes());
    RoundsOrdered(s, PrunedNodes(), []);
    Pruning.PruneEffect(LinkedNodes());
  }

  lemma LinkedNames()
    ensures Ordered(LinkedNodes()) && NamesBelow(LinkedNodes(), 0) == [LinkedName()]
  {
    var nodes := LinkedNodes();
    forall i | 0 <= i < |nodes| ensures OrderedAt(nodes, i) {
    }
    assert NamesBelow(nodes, 3) == [] && NameAt(nodes, 3) == Name(1, false, []);
    assert NamesBelow(nodes, 2) == [NameAt(nodes, 3)] && NamesBelow(nodes, 1) == [NameAt(nodes, 2)];
    assert NamesBelow(nodes, 0) == [NameAt(nodes, 1)];
  }

  function LinkedName(): Name {
    Name(1, false, [Name(2, true, [Name(1, false, [])])])
  }

  /** What is built for the last name: the variable holds an instance of the action, and is divided
      as if it were one of the dimension's action below it. */
  function LinkedEnd(): I.Tree {
    var v, w := I.InstanceVariable(3, 1), I.InstanceVariable(4, 1);
    I.Node(I.ParentDerivation(v, w), [I.Node(I.Operation(I.Done, 5, w, 1), [])])
  }

  function LinkedRoot(): I.Tree {
    var context, v, reference, w := I.ReferenceVariable(0, [1]), I.InstanceVariable(1, 1), I.ReferenceVariable(2, [1]),
      I.InstanceVariable(3, 1);
    I.Node(I.Root(context),
      [I.Node(I.MonoReference(context, v),
        [I.Node(I.DimensionRead(v, reference, 2), [I.Node(I.MonoReference(reference, w), [LinkedEnd()])])])])
  }

  lemma LinkedEndBuilt()
    ensures var c := LinkedTree();
      C.WellFormed(c) && BuildOperation(c, OnDone, 2, 1, I.InstanceVariable(3, 1), 4).0 == LinkedEnd()
  {
    var c, v, w := LinkedTree(), I.InstanceVariable(3, 1), I.InstanceVariable(4, 1);
    assert C.CommonRoot(c, 1, 1) == 1 && C.CommonRoot(c, 2, 1) == 1;
    assert Derivation.Up(c, 1, 1, w, 5).chain == [];
    assert Derivation.Up(c, 2, 1, v, 4).chain == [I.ParentDerivation(v, w)] + [];
    assert Derivation.Down(c, 1, 1, w, 5).chain == [];
    var d := Derivation.CommonRootDerivation(c, 2, 1, v, 4);
    assert d.chain == [I.ParentDerivation(v, w)] && d.variable == w && d.next == 5;
    Compilation.NestOne(I.ParentDerivation(v, w), I.Node(I.Operation(I.Done, 5, w, 1), []));
  }

  lemma LinkedBuilt()
    ensures var c, ns := LinkedTree(), [LinkedName()];
      C.WellFormed(c) && AllBuildable(c, OnDone, ns) &&
      Build(c, OnDone, ns) == Compiled(LinkedRoot(), I.ReferenceVariable(0, [1]))
  {
    hide BuildOperation, Derivation.Up, Derivation.Down;
    LinkedEndBuilt();
    var c, n, d, a := LinkedTree(), LinkedName(), Name(2, true, [Name(1, false, [])]), Name(1, false, []);
    var context, v, reference, w := I.ReferenceVariable(0, [1]), I.InstanceVariable(1, 1), I.ReferenceVariable(2, [1]),
      I.InstanceVariable(3, 1);
    assert Buildable(c, OnDone, a) && Buildable(c, OnDone, d) && Buildable(c, OnDone, n);
    assert Elements([n]) == [1] && Elements([a]) == [1];
    assert BuildType(c, OnDone, 2, a, w, 4).0 == LinkedEnd();
    assert BuildDereference(c, OnDone, 2, [a], reference, 3).0 == I.Node(I.MonoReference(reference, w), [LinkedEnd()]);
    var read := BuildReference(c, OnDone, d, v, 2).0;
    assert read == I.Node(I.DimensionRead(v, reference, 2), [I.Node(I.MonoReference(reference, w), [LinkedEnd()])]);
    NothingBetween(c, v, 2);
    assert BuildName(c, OnDone, 1, d, v, 2).0 == read;
    assert [d][..0] == [] && BuildNames(c, OnDone, 1, [], v, 2) == ([], 2);
    assert BuildNames(c, OnDone, 1, [d], v, 2).0 == [] + [read];
    assert BuildType(c, OnDone, -1, n, v, 2).0 == read;
    assert BuildDereference(c, OnDone, -1, [n], context, 1).0 == I.Node(I.MonoReference(context, v), [read]);
  }

  lemma NothingBetween(c: C.Concrete, v: I.Variable, next: nat)
    requires c == LinkedTree()
    ensures C.WellFormed(c) && Derivation.CommonRootDerivation(c, 1, 2, v, next) == Derivation.Derived([], v, next)
    ensures forall t :: Derivation.Nest([], t) == t
  {
    assert C.CommonRoot(c, 1, 1) == 1 && C.CommonRoot(c, 1, 2) == 1;
    assert Derivation.Up(c, 1, 1, v, next).chain == [];
    assert Derivation.Down(c, 1, 1, v, next).chain == [] && Derivation.Down(c, 2, 1, v, next).chain == [];
  }

  lemma LinkedSettled()
    ensures EliminationSpec.Eliminate(LinkedRoot(), EliminationSpec.AnyOperation) ==
      (LinkedRoot(), EliminationSpec.Success)
    ensures EliminationSpec.Resolved(LinkedRoot(), EliminationSpec.AnyOperation)
  {
    hide EliminationSpec.Eliminate;
    var a := LinkedRoot();
    var b := a.children[0];
    var d := b.children[0];
    var e := d.children[0];
    var f := e.children[0];
    var g := f.children[0];
    LeafStays(g);
    OnlyChildStays(f.instr, g);
    OnlyChildStays(e.instr, f);
    OnlyChildStays(d.instr, e);
    OnlyChildStays(b.instr, d);
    OnlyChildStays(a.instr, b);
  }

  predicate Stays(t: I.Tree) {
    !EliminationSpec.ChoiceNode(t.instr) && EliminationSpec.Resolved(t, EliminationSpec.AnyOperation) &&
    EliminationSpec.Eliminate(t, EliminationSpec.AnyOperation) == (t, EliminationSpec.Success)
  }

  lemma LeafStays(t: I.Tree)
    requires t.instr.Operation? && t.children == []
    ensures Stays(t)
  {
  }

  lemma OnlyChildStays(i: I.Instruction, t: I.Tree)
    requires !EliminationSpec.ChoiceNode(i) && Stays(t)
    ensures Stays(I.Node(i, [t]))
  {
    EliminationSpec.SingletonRuns(t, EliminationSpec.AnyOperation, EliminationSpec.Success);
  }

  /** Evaluated, it is carried out on half of what the dimension refers to. */
  lemma LinkedEvaluates(r: Evaluation.Reference, deref: Evaluation.Dereference)
    ensures C.WellFormed(LinkedTree())
    ensures var env := map[I.ReferenceVariable(0, [1]) := r];
      Correctness.Carries(Evaluation.Evaluate(LinkedTree(), LinkedRoot(), env, deref),
        Correctness.Effect(I.Done, 1, 1, deref(r, 2).instance / 2))
  {
    hide Evaluation.Evaluate;
    var c, context, v := LinkedTree(), I.ReferenceVariable(0, [1]), I.InstanceVariable(1, 1);
    var reference, w, x := I.ReferenceVariable(2, [1]), I.InstanceVariable(3, 1), I.InstanceVariable(4, 1);
    var k := deref(r, 2);
    var one := map[context := r];
    var two := one[v := r];
    var three := two[reference := k];
    var four := three[w := k];
    var five := four[x := Evaluation.Reference(k.instance / 2, 1, k.timestamp)];
    var leaf := LinkedEnd().children[0];
    var mono := I.Node(I.MonoReference(reference, w), [LinkedEnd()]);
    var read := I.Node(I.DimensionRead(v, reference, 2), [mono]);
    BindStep(c, I.MonoReference(context, v), read, one, two, deref);
    BindStep(c, I.DimensionRead(v, reference, 2), mono, two, three, deref);
    BindStep(c, I.MonoReference(reference, w), LinkedEnd(), three, four, deref);
    BindStep(c, I.ParentDerivation(w, x), leaf, four, five, deref);
    RootStep(c, LinkedRoot(), one, deref);
    Correctness.LeafReached(c, leaf, five, deref);
  }

  lemma RootStep(c: C.Concrete, t: I.Tree, env: Evaluation.Environment, deref: Evaluation.Dereference)
    requires C.WellFormed(c) && t.instr.Root? && |t.children| == 1
    ensures Evaluation.Evaluate(c, t, env, deref) == Evaluation.Evaluate(c, t.children[0], env, deref)
  {
  }

  lemma BindStep(c: C.Concrete, i: I.Instruction, t: I.Tree, env: Evaluation.Environment, more: Evaluation.Environment,
          deref: Evaluation.Dereference)
    requires C.WellFormed(c) && Evaluation.Bind(c, i, env, deref) == Evaluation.Bound(more) && Evaluation.Binds(i)
    ensures Evaluation.Evaluate(c, I.Node(i, [t]), env, deref) == Evaluation.Evaluate(c, t, more, deref)
  {
  }

  /** To ask whether what the dimension refers to is done: resolved, built and settled without a
      complaint, and then carried out on an instance that is not the one referred to, unless that
      is the first. */
  lemma LinkedInvocation(r: Evaluation.Reference, deref: Evaluation.Dereference)
    requires r.actionType == 1 && deref(r, 2).actionType == 1
    requires C.WellFormed(LinkedTree()) && Correctness.Exists(LinkedTree(), r)
    ensures var s := LinkedSpace();
      WellFormedSpace(s) && ResolveAll(s, [1], [[2]], true) == (Done, LinkedNodes()) && Ordered(LinkedNodes()) &&
      var ns := NamesBelow(LinkedNodes(), 0);
      AllBuildable(s.tree, OnDone, ns) && ns != [] &&
      var b := Build(s.tree, OnDone, ns);
      var (final, o) := EliminationSpec.Eliminate(b.root, EliminationSpec.AnyOperation);
      o.Success? && EliminationSpec.Resolved(final, EliminationSpec.AnyOperation) &&
      (Correctness.Correct(s.tree, OnDone, ns, b.context, final, r, deref) <==> deref(r, 2).instance == 0)
  {
    hide ResolveAll, NamesBelow, Build, EliminationSpec.Eliminate, EliminationSpec.Resolved;
    LinkedResolves();
    LinkedNames();
    LinkedBuilt();
    LinkedSettled();
    LinkedEvaluates(r, deref);
    forall e { LinkedSays(r, deref, e); }
  }

  /** What the names say is the instance referred to. */
  lemma LinkedSays(r: Evaluation.Reference, deref: Evaluation.Dereference, e: Correctness.Effect)
    requires r.actionType == 1 && deref(r, 2).actionType == 1
    requires C.WellFormed(LinkedTree()) && Correctness.Exists(LinkedTree(), r)
    ensures AllBuildable(LinkedTree(), OnDone, [LinkedName()])
    ensures Correctness.SaysTypes(LinkedTree(), OnDone, [LinkedName()], r, deref, e) <==>
        e == Correctness.Effect(I.Done, 1, 1, deref(r, 2).instance)
  {
    hide Correctness.TheInstance;
    var c, n, d, a := LinkedTree(), LinkedName(), Name(2, true, [Name(1, false, [])]), Name(1, false, []);
    var k := deref(r, 2);
    assert Buildable(c, OnDone, a) && Buildable(c, OnDone, d) && Buildable(c, OnDone, n);
    assert IsFirst([a], 1, 0) && IsFirst([n], 1, 0);
    assert Correctness.SaysTypes(c, OnDone, [a], k, deref, e) <==> Correctness.SaysType(c, OnDone, [a][0], k, deref, e);
    forall i: nat ensures Correctness.TheInstance(c, 1, 1, r.instance, i) <==> i == r.instance {
      SameInstance(r.instance, i);
    }
    assert Evaluation.Reference(r.instance, 1, r.timestamp) == r;
    assert Correctness.Says(c, OnDone, 1, r.instance, r.timestamp, d, deref, e) <==>
      Correctness.SaysTypes(c, OnDone, [a], k, deref, e);
    assert Correctness.SaysOneOf(c, OnDone, n, r.instance, r.timestamp, deref, e) <==>
      Correctness.Says(c, OnDone, 1, r.instance, r.timestamp, n.children[0], deref, e);
    assert Correctness.SaysTypes(c, OnDone, [n], r, deref, e) <==> Correctness.SaysType(c, OnDone, [n][0], r, deref, e);
  }

  lemma SameInstance(i: nat, k: nat)
    requires C.WellFormed(LinkedTree()) && i < C.TotalDomain(LinkedTree(), 1)
    ensures Correctness.TheInstance(LinkedTree(), 1, 1, i, k) <==> k == i
  {
    assert C.CommonRoot(LinkedTree(), 1, 1) == 1;
  }
}
