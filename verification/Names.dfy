/** From resolved names to the builder: the tree of nodes that resolution leaves is a tree of
    names the builder can take. */
module Names {
  import opened NameResolution
  import opened Builder
  import BuiltShape
  import C = ConcreteTree
  import Compilation
  import Correctness
  import EliminationSpec
  import Evaluation
  import EvaluationSafety

  function NameAt(nodes: Nodes, i: nat): (n: Name)
    requires Ordered(nodes) && i < |nodes|
    ensures n.children == [] <==> nodes[i].children == []
    decreases |nodes| - i, 1
  {
    assert OrderedAt(nodes, i);
    Name(if nodes[i].element < 0 then 0 else nodes[i].element, nodes[i].reference, NamesBelow(nodes, i))
  }

  function NamesBelow(nodes: Nodes, i: nat): (ns: seq<Name>)
    requires Ordered(nodes) && i < |nodes|
    ensures |ns| == |nodes[i].children|
    ensures forall j :: 0 <= j < |ns| ==> nodes[i].children[j] < |nodes| && ns[j] == NameAt(nodes, nodes[i].children[j])
    decreases |nodes| - i, 0
  {
    assert OrderedAt(nodes, i);
    seq(|nodes[i].children|, j requires 0 <= j < |nodes[i].children| => NameAt(nodes, nodes[i].children[j]))
  }

  /** Every leaf below node `i` is something the operation can be carried out on. */
  predicate LeavesFit(s: Space, op: OperationID, nodes: Nodes, i: nat)
    requires Ordered(nodes) && i < |nodes|
    decreases |nodes| - i
  {
    assert OrderedAt(nodes, i);
    if nodes[i].children == [] then
      0 <= nodes[i].element < |s.tree| && Operable(s.tree, op, nodes[i].element)
    else forall j :: 0 <= j < |nodes[i].children| ==> LeavesFit(s, op, nodes, nodes[i].children[j])
  }

  /** Dereferencing a dimension gives one of the instances the analysis knows, where it knows any. */
  ghost predicate Analysed(s: Space, deref: Evaluation.Dereference) {
    forall r: Evaluation.Reference, e: nat :: IsReference(s, e) && s.instances(e) != [] ==>
      deref(r, e).actionType in s.instances(e)
  }

  lemma {:induction false} NameRuns(s: Space, op: OperationID, nodes: Nodes, i: nat, path: seq<seq<nat>>,
          deref: Evaluation.Dereference)
    requires WellFormedSpace(s) && Ordered(nodes) && i < |nodes| && Shaped(s, nodes, i, path) &&
        LeavesFit(s, op, nodes, i) && Analysed(s, deref)
    ensures Buildable(s.tree, op, NameAt(nodes, i)) && Runs(s.tree, op, NameAt(nodes, i), deref)
    decreases |nodes| - i
  {
    assert OrderedAt(nodes, i);
    var n, x := nodes[i], NameAt(nodes, i);
    if n.children != [] {
      forall j | 0 <= j < |x.children| ensures Buildable(s.tree, op, x.children[j]) &&
        Runs(s.tree, op, x.children[j], deref) {
        NameRuns(s, op, nodes, n.children[j], if n.reference then path else path[1..], deref);
      }
      if n.reference { ReferenceNames(s, nodes, i); }
    }
  }

  /** The names below a reference are those of all instances it refers to. */
  lemma ReferenceNames(s: Space, nodes: Nodes, i: nat)
    requires Ordered(nodes) && i < |nodes| && nodes[i].element >= 0 &&
        Refers(nodes, nodes[i].children, s.instances(nodes[i].element))
    ensures Elements(NamesBelow(nodes, i)) == s.instances(nodes[i].element)
  {
    var ns := NamesBelow(nodes, i);
    forall j | 0 <= j < |ns| ensures ns[j].element == s.instances(nodes[i].element)[j] {
      assert nodes[nodes[i].children[j]].element == s.instances(nodes[i].element)[j];
    }
  }

  /** The names of a resolved tree can be built, and run wherever dereferencing gives what the
      analysis knows: below each reference are names for all it may refer to, pruned or not. */
  lemma ResolvedBuilds(s: Space, op: OperationID, nodes: Nodes, context: seq<nat>, path: seq<seq<nat>>,
          deref: Evaluation.Dereference)
    requires WellFormedSpace(s) && Resolved(s, nodes, context, path) && LeavesFit(s, op, nodes, 0) && Analysed(s, deref)
    ensures var ns := NamesBelow(nodes, 0);
      ns != [] && Elements(ns) == context && AllBuildable(s.tree, op, ns) && AllRun(s.tree, op, ns, deref)
  {
    var ns := NamesBelow(nodes, 0);
    assert OrderedAt(nodes, 0);
    forall j | 0 <= j < |ns|
      ensures ns[j].element == context[j] && Buildable(s.tree, op, ns[j]) && Runs(s.tree, op, ns[j], deref)
    {
      assert nodes[nodes[0].children[j]].element == context[j];
      NameRuns(s, op, nodes, nodes[0].children[j], path, deref);
    }
  }

  /** What ends a path right behind a reference is reached by the final dereference. */
  predicate FinalsFit(s: Space, op: OperationID, nodes: Nodes)
    requires C.WellFormed(s.tree)
  {
    forall i :: 0 <= i < |nodes| && nodes[i].reference ==> FinalsFitAt(s, op, nodes, i)
  }

  predicate FinalsFitAt(s: Space, op: OperationID, nodes: Nodes, i: nat)
    requires C.WellFormed(s.tree) && i < |nodes|
  {
    forall j :: 0 <= j < |nodes[i].children| ==>
      var k := nodes[i].children[j];
      k < |nodes| && (nodes[k].children == [] && nodes[k].element >= 0 ==>
        Correctness.FinalFits(s.tree, op, nodes[i].element, nodes[k].element))
  }

  lemma GoesOnFits(s: Space, op: OperationID, nodes: Nodes)
    requires C.WellFormed(s.tree) && GoesOn(nodes)
    ensures FinalsFit(s, op, nodes)
  {
    hide Correctness.FinalFits;
    forall i | 0 <= i < |nodes| && nodes[i].reference ensures FinalsFitAt(s, op, nodes, i) {
      assert GoesOnAt(nodes, i);
    }
  }

  /** Names resolved from a path of types are sensible, where its final dereferences fit. */
  lemma {:induction false} NameSensible(s: Space, op: OperationID, nodes: Nodes, i: nat, path: seq<seq<nat>>)
    requires WellFormedSpace(s) && Ordered(nodes) && i < |nodes| && Shaped(s, nodes, i, path) &&
        FinalsFit(s, op, nodes) && LeavesFit(s, op, nodes, i)
    ensures Correctness.Sensible(s.tree, op, NameAt(nodes, i))
    decreases |nodes| - i
  {
    hide Correctness.FinalFits;
    assert OrderedAt(nodes, i);
    var n, x := nodes[i], NameAt(nodes, i);
    forall j | 0 <= j < |x.children|
      ensures if n.reference then Correctness.SensibleType(s.tree, op, x.element, x.children[j])
          else Correctness.Sensible(s.tree, op, x.children[j])
    {
      var k := n.children[j];
      var rest := if n.reference then path else path[1..];
      NameSensible(s, op, nodes, k, rest);
      if n.reference { assert FinalsFitAt(s, op, nodes, i); }
    }
  }

  /** From the path of types to the operation. Where resolution is not refused, final dereferences fit,
      and what is built can be taken by the pass, a success that leaves no failure in the tree is
      evaluated to the end, for every reference to a context and every dereference the analysis
      knows; and what is then carried out is what the names say. */
  lemma InvocationTheorem(s: Space, op: OperationID, context: seq<nat>, typePath: seq<seq<nat>>,
          r: Evaluation.Reference, deref: Evaluation.Dereference)
    requires WellFormedSpace(s) && context != [] && forall i :: 0 <= i < |context| ==> IsAction(s, context[i])
    requires forall i :: 0 <= i < |typePath| ==> typePath[i] != []
    requires var resolving := ResolveAll(s, context, typePath, op.OnDone?);
      resolving.0.Done? && LeavesFit(s, op, resolving.1, 0) &&
        (op.OnDone? || typePath == [] ==> FinalsFit(s, op, resolving.1))
    requires Analysed(s, deref) && Correctness.InDomain(s.tree, deref) && r.actionType in context &&
        Correctness.Exists(s.tree, r)
    ensures var ns := NamesBelow(ResolveAll(s, context, typePath, op.OnDone?).1, 0);
      AllBuildable(s.tree, op, ns) && ns != [] &&
      var b := Build(s.tree, op, ns);
      var (final, o) := EliminationSpec.Eliminate(b.root, EliminationSpec.AnyOperation);
      var env := map[b.context := r];
      BuiltShape.TypesFit(s.tree, op, ns, false) && o.Success? &&
        EliminationSpec.Resolved(final, EliminationSpec.AnyOperation)
      ==> EvaluationSafety.Ends(final, env, Evaluation.Evaluate(s.tree, final, env, deref)) &&
          Correctness.Correct(s.tree, op, ns, b.context, final, r, deref)
  {
    hide FinalsFit, LeavesFit, Analysed, EliminationSpec.Eliminate, EliminationSpec.Resolved, BuiltShape.TypesFit;
    ResolutionTheorem(s, context, typePath, op.OnDone?);
    var nodes := ResolveAll(s, context, typePath, op.OnDone?).1;
    if !op.OnDone? && typePath != [] {
      ResolveGoesOn(s, context, typePath);
      GoesOnFits(s, op, nodes);
    }
    ResolvedBuilds(s, op, nodes, context, typePath, deref);
    ContextSensible(s, op, nodes, context, typePath);
    var ns := NamesBelow(nodes, 0);
    if BuiltShape.TypesFit(s.tree, op, ns, false) &&
      EliminationSpec.Eliminate(Build(s.tree, op, ns).root, EliminationSpec.AnyOperation).1.Success? {
      Compilation.CompiledTheorem(s.tree, op, ns, r, deref);
      Correctness.CompilerTheorem(s.tree, op, ns, {}, r, deref);
    }
  }

  lemma ContextSensible(s: Space, op: OperationID, nodes: Nodes, context: seq<nat>, path: seq<seq<nat>>)
    requires WellFormedSpace(s) && Resolved(s, nodes, context, path) && FinalsFit(s, op, nodes) &&
        LeavesFit(s, op, nodes, 0)
    ensures Correctness.SensibleTypes(s.tree, op, -1, NamesBelow(nodes, 0))
  {
    hide Correctness.FinalFits;
    var ns := NamesBelow(nodes, 0);
    assert OrderedAt(nodes, 0) && FinalsFitAt(s, op, nodes, 0);
    forall j | 0 <= j < |ns| ensures Correctness.SensibleType(s.tree, op, -1, ns[j]) {
      NameSensible(s, op, nodes, nodes[0].children[j], path);
    }
  }
}
