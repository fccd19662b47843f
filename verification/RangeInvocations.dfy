/** Range invocations from the path of types to what is enumerated. */
module RangeInvocations {
  import opened NameResolution
  import opened Builder
  import opened Names
  import C = ConcreteTree
  import Correctness
  import EliminationSpec
  import Enumerations
  import Evaluation
  import I = Instructions

  /** What is enumerated in the end is named by the last path element. */
  predicate AllFrom(targets: seq<nat>, element: seq<nat>) {
    forall k :: 0 <= k < |targets| ==> targets[k] in element
  }

  lemma {:induction false} TerminalNamed(s: Space, nodes: Nodes, i: nat, path: seq<seq<nat>>, element: seq<nat>,
          kind: I.OperationKind, prev: nat, v: I.Variable, next: nat)
    requires WellFormedSpace(s) && Ordered(nodes) && i < |nodes| && Shaped(s, nodes, i, path) && nodes[i].element >= 0
    requires path == [] ==> nodes[i].element in element
    requires path != [] ==> path[|path| - 1] == element
    requires Enumerations.BuildEnum(s.tree, kind, prev, NameAt(nodes, i), v, next).Trees?
    ensures AllFrom(Enumerations.Terminals(NameAt(nodes, i)), element)
    decreases |nodes| - i, 1
  {
    assert OrderedAt(nodes, i);
    var n := NameAt(nodes, i);
    if n.children != [] {
      var d := Enumerations.EnumChain(s.tree, n.element, prev, v, next);
      assert Enumerations.BuildEnums(s.tree, kind, n.element, n.children, d.variable, d.next).Trees?;
      assert n.children[..|n.children|] == n.children;
      TerminalsNamed(s, nodes, i, path, element, kind, |n.children|, d.variable, d.next);
    }
  }

  lemma ChildShaped(s: Space, nodes: Nodes, i: nat, path: seq<seq<nat>>, k: nat)
    requires Ordered(nodes) && i < |nodes| && Shaped(s, nodes, i, path) && !nodes[i].reference && path != [] &&
        k < |nodes[i].children|
    ensures var j := nodes[i].children[k];
      i < j < |nodes| && nodes[j].element in path[0] && nodes[j].element >= 0 && Shaped(s, nodes, j, path[1..])
  {
    assert OrderedAt(nodes, i) && FromElement(s, nodes, i, path[0]);
  }

  /** The same for the first `k` names below a node. */
  lemma {:induction false} TerminalsNamed(s: Space, nodes: Nodes, i: nat, path: seq<seq<nat>>, element: seq<nat>,
          kind: I.OperationKind, k: nat, v: I.Variable, next: nat)
    requires WellFormedSpace(s) && Ordered(nodes) && i < |nodes| && Shaped(s, nodes, i, path) && nodes[i].element >= 0
    requires path != [] && path[|path| - 1] == element && !nodes[i].reference && k <= |NamesBelow(nodes, i)|
    requires Enumerations.BuildEnums(s.tree, kind, nodes[i].element, NamesBelow(nodes, i)[..k], v, next).Trees?
    ensures AllFrom(Enumerations.TerminalsOf(NamesBelow(nodes, i)[..k]), element)
    decreases |nodes| - i, 0, k
  {
    hide Shaped, Enumerations.BuildEnum, Enumerations.Terminals;
    var ns, prev := NamesBelow(nodes, i), nodes[i].element;
    if k > 0 {
      assert ns[..k][..k - 1] == ns[..k - 1];
      TerminalsNamed(s, nodes, i, path, element, kind, k - 1, v, next);
      var m := Enumerations.BuildEnums(s.tree, kind, prev, ns[..k - 1], v, next).next;
      var j := nodes[i].children[k - 1];
      ChildShaped(s, nodes, i, path, k - 1);
      assert ns[..k][k - 1] == NameAt(nodes, j);
      TerminalNamed(s, nodes, j, path[1..], element, kind, prev, v, m);
    }
  }

  /** What is built for a type of the context is built from its names. */
  lemma {:induction false} TypeBuilt(c: C.Concrete, kind: I.OperationKind, ns: seq<Name>, reference: I.Variable,
          mono: bool, next: nat, j: nat) returns (m: nat)
    requires C.WellFormed(c) && j < |ns| && Enumerations.BuildTypes(c, kind, ns, reference, mono, next).Trees?
    ensures var v := I.InstanceVariable(m, ns[j].element);
      Enumerations.BuildEnums(c, kind, ns[j].element, ns[j].children, v, m + 1).Trees?
  {
    hide Enumerations.BuildEnums;
    var n := |ns| - 1;
    if j == n {
      m := Enumerations.BuildTypes(c, kind, ns[..n], reference, mono, next).next;
    } else {
      m := TypeBuilt(c, kind, ns[..n], reference, mono, next, j);
    }
  }

  /** From the path of types to the instances. Where resolution is not refused and the names can be
      enumerated, the pass succeeds, and what is evaluated for a reference to a context visits
      instances of elements of the last path element only, each of them below the context. */
  lemma RangeInvocationTheorem(s: Space, kind: I.OperationKind, context: seq<nat>, typePath: seq<seq<nat>>,
          r: Evaluation.Reference) returns (j: nat)
    requires WellFormedSpace(s) && context != [] && forall i :: 0 <= i < |context| ==> IsAction(s, context[i])
    requires typePath != [] && forall i :: 0 <= i < |typePath| ==> typePath[i] != []
    requires ResolveAll(s, context, typePath, false).0.Done? && r.actionType in context
    ensures var ns := NamesBelow(ResolveAll(s, context, typePath, false).1, 0);
      IsFirst(ns, r.actionType, j) &&
      var b := Enumerations.BuildEnumeration(s.tree, kind, ns);
      b.Enumerated? ==>
        var (final, o) := EliminationSpec.Eliminate(b.root, EliminationSpec.AnyOperation);
        var targets := Enumerations.TerminalsOf(ns[j].children);
        o.Success? && Enumerations.AllUnder(s.tree, targets, r.actionType) &&
        AllFrom(targets, typePath[|typePath| - 1]) &&
        Enumerations.Reach(final, map[b.context := r]) == Enumerations.Visit(r.actionType, r.instance, targets)
  {
    hide Enumerations.Reach, EliminationSpec.Eliminate, Enumerations.TerminalsOf, ResolveAll;
    ResolutionTheorem(s, context, typePath, false);
    var nodes := ResolveAll(s, context, typePath, false).1;
    var ns := NamesBelow(nodes, 0);
    ContextNames(s, nodes, context, typePath);
    j := Correctness.FirstOf(ns, r.actionType);
    var b := Enumerations.BuildEnumeration(s.tree, kind, ns);
    if b.Enumerated? {
      Enumerations.EnumerationTheorem(s.tree, kind, ns, r, j);
      TypeNamed(s, nodes, context, typePath, kind, j);
    }
  }

  lemma ContextNames(s: Space, nodes: Nodes, context: seq<nat>, path: seq<seq<nat>>)
    requires WellFormedSpace(s) && Resolved(s, nodes, context, path) && path != []
    ensures Elements(NamesBelow(nodes, 0)) == context
    ensures forall i :: 0 <= i < |NamesBelow(nodes, 0)| ==> NamesBelow(nodes, 0)[i].children != []
  {
    var ns, roots := NamesBelow(nodes, 0), nodes[0].children;
    assert OrderedAt(nodes, 0);
    forall i | 0 <= i < |ns| ensures ns[i].element == context[i] && ns[i].children != [] {
      assert nodes[roots[i]].element == context[i];
    }
  }

  /** What one type of the context enumerates. */
  lemma TypeNamed(s: Space, nodes: Nodes, context: seq<nat>, path: seq<seq<nat>>, kind: I.OperationKind, j: nat)
    requires WellFormedSpace(s) && Resolved(s, nodes, context, path) && path != [] && j < |NamesBelow(nodes, 0)|
    requires Enumerations.BuildEnumeration(s.tree, kind, NamesBelow(nodes, 0)).Enumerated?
    ensures AllFrom(Enumerations.TerminalsOf(NamesBelow(nodes, 0)[j].children), path[|path| - 1])
  {
    hide Enumerations.BuildEnums, Enumerations.BuildTypes, Enumerations.TerminalsOf, FromElement, Refers;
    var ns := NamesBelow(nodes, 0);
    assert OrderedAt(nodes, 0);
    var n, below := nodes[0].children[j], ns[j].children;
    var m := TypeBuilt(s.tree, kind, ns, I.ReferenceVariable(0, Elements(ns)), |ns| == 1, 1, j);
    assert below[..|below|] == below == NamesBelow(nodes, n);
    TerminalsNamed(s, nodes, n, path, path[|path| - 1], kind, |below|, I.InstanceVariable(m, ns[j].element), m + 1);
  }
}
