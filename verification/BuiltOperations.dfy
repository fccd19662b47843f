/** Which names the builder refuses, and the operations in what it builds. */
module BuiltOperations {
  import opened Instructions
  import opened EliminationSpec
  import opened Derivation
  import opened Builder
  import opened BuiltShape
  import opened Sequences
  import C = ConcreteTree

  // ---- refused names ----

  /** `x` is the name, or comes after it. */
  ghost predicate Occurs(n: Name, x: Name)
    decreases n
  {
    x == n || exists i :: 0 <= i < |n.children| && Occurs(n.children[i], x)
  }

  /** A last name that has no such operation: a dimension cannot be started, stopped, paused, resumed or
      done, and the root has no parent to be called or started in. */
  predicate Impossible(c: C.Concrete, op: OperationID, x: Name) {
    x.element >= |c| ||
    (x.children == [] &&
     if c[x.element].action then x.element == 0 && (op.ImpNoParams? || op.ImpParams? || op.OnStart?)
     else op.OnStart? || op.OnStop? || op.OnPause? || op.OnResume? || op.OnDone?)
  }

  lemma {:induction false} BuildableExact(c: C.Concrete, op: OperationID, n: Name)
    ensures Buildable(c, op, n) <==> forall x :: Occurs(n, x) ==> !Impossible(c, op, x)
    decreases n
  {
    forall i | 0 <= i < |n.children|
      ensures Buildable(c, op, n.children[i]) <==> forall x :: Occurs(n.children[i], x) ==> !Impossible(c, op, x)
    {
      BuildableExact(c, op, n.children[i]);
    }
    assert Occurs(n, n);
    if !Buildable(c, op, n) && !Impossible(c, op, n) {
      var i :| 0 <= i < |n.children| && !Buildable(c, op, n.children[i]);
      var x :| Occurs(n.children[i], x) && Impossible(c, op, x);
      assert Occurs(n, x);
    }
  }

  /** Nothing is built exactly without a context, or where some name has no such operation. */
  lemma BuildRefused(c: C.Concrete, op: OperationID, context: seq<Name>)
    requires C.WellFormed(c)
    ensures Build(c, op, context).NoContext? <==> context == []
    ensures Build(c, op, context).InvalidTarget? <==>
      exists i, x :: 0 <= i < |context| && Occurs(context[i], x) && Impossible(c, op, x)
  {
    hide Occurs, Impossible, Buildable;
    forall i | 0 <= i < |context|
      ensures Buildable(c, op, context[i]) <==> forall x :: Occurs(context[i], x) ==> !Impossible(c, op, x)
    {
      BuildableExact(c, op, context[i]);
    }
    if Build(c, op, context).InvalidTarget? {
      var i :| 0 <= i < |context| && !Buildable(c, op, context[i]);
      var x :| Occurs(context[i], x) && Impossible(c, op, x);
    }
  }

  // ---- every operation is another object ----

  /** The tree's operations are numbered from `lo` on and below `hi`, each differently, and end their branches. */
  predicate Numbered(t: Tree, lo: nat, hi: nat) {
    OperationsEnd(t) && NumberedIn(Operations(t), lo, hi)
  }

  predicate AllNumbered(ts: seq<Tree>, lo: nat, hi: nat) {
    (forall i :: 0 <= i < |ts| ==> OperationsEnd(ts[i])) && NumberedIn(OperationsOf(ts), lo, hi)
  }

  predicate NumberedIn(ids: seq<nat>, lo: nat, hi: nat) {
    NoDuplicates(ids) && forall i :: 0 <= i < |ids| ==> lo <= ids[i] < hi
  }

  lemma NumberedConcat(a: seq<nat>, b: seq<nat>, lo: nat, mid: nat, hi: nat)
    requires NumberedIn(a, lo, mid) && NumberedIn(b, mid, hi) && lo <= mid <= hi
    ensures NumberedIn(a + b, lo, hi)
  {
  }

  lemma AllNumberedSnoc(ts: seq<Tree>, t: Tree, lo: nat, mid: nat, hi: nat)
    requires AllNumbered(ts, lo, mid) && Numbered(t, mid, hi) && lo <= mid <= hi
    ensures AllNumbered(ts + [t], lo, hi)
  {
    assert (ts + [t])[..|ts|] == ts;
    NumberedConcat(OperationsOf(ts), Operations(t), lo, mid, hi);
  }

  /** A node that is no operation, above an only child, or above alternatives or cases. */
  lemma NodeNumbered(i: Instruction, ts: seq<Tree>, lo: nat, hi: nat)
    requires !i.Operation? && AllNumbered(ts, lo, hi)
    ensures Numbered(Node(i, ts), lo, hi)
  {
  }

  lemma OnlyNumbered(i: Instruction, t: Tree, lo: nat, lo': nat, hi: nat)
    requires !i.Operation? && Numbered(t, lo, hi) && lo' <= lo
    ensures Numbered(Node(i, [t]), lo', hi) && AllNumbered([t], lo', hi)
  {
    assert [t][..0] == [] && OperationsOf([]) == [] && OperationsOf([t]) == [] + Operations(t);
  }

  lemma {:induction false} NestNumbered(chain: seq<Instruction>, t: Tree, lo: nat, lo': nat, hi: nat)
    requires (forall i :: 0 <= i < |chain| ==> !chain[i].Operation?) && Numbered(t, lo, hi) && lo' <= lo
    ensures Numbered(Nest(chain, t), lo', hi)
    decreases |chain|
  {
    if chain != [] {
      var n := |chain| - 1;
      OnlyNumbered(chain[n], t, lo, lo', hi);
      NestNumbered(chain[..n], Node(chain[n], [t]), lo', lo', hi);
    }
  }

  lemma WayHasNone(c: C.Concrete, from: int, to: nat, v: Variable, next: nat)
    requires C.WellFormed(c) && -1 <= from < |c| && to < |c|
    ensures var d := CommonRootDerivation(c, from, to, v, next);
      forall i :: 0 <= i < |d.chain| ==> !d.chain[i].Operation?
  {
    WayMeets(c, from, to, v, next);
    var chain := CommonRootDerivation(c, from, to, v, next).chain;
    if chain != [] {
      forall i | 0 <= i < |chain| - 1 ensures IsStep(chain[i]) {
        assert chain[..|chain| - 1][i] == chain[i];
      }
    }
  }

  lemma OperationNumbered(c: C.Concrete, op: OperationID, prev: int, e: nat, v: Variable, next: nat)
    requires C.WellFormed(c) && -1 <= prev < |c| && e < |c| && Operable(c, op, e)
    ensures var b := BuildOperation(c, op, prev, e, v, next); Numbered(b.0, next, b.1)
  {
    var target := if c[e].action && Starts(op) then c[e].parent else e;
    var d := CommonRootDerivation(c, prev, target, v, next);
    var leaf := Node(Operation(KindOf(c, op, e), d.next, d.variable, e), []);
    WayHasNone(c, prev, target, v, next);
    assert Operations(leaf) == [d.next];
    NestNumbered(d.chain, leaf, d.next, next, d.next + 1);
  }

  lemma {:induction false} NameNumbered(c: C.Concrete, op: OperationID, prev: int, n: Name, v: Variable, next: nat)
    requires C.WellFormed(c) && -1 <= prev < |c| && Buildable(c, op, n)
    ensures var b := BuildName(c, op, prev, n, v, next); Numbered(b.0, next, b.1)
    decreases n, 2
  {
    hide Numbered, CommonRootDerivation, BuildOperation;
    if n.children == [] {
      OperationNumbered(c, op, prev, n.element, v, next);
    } else {
      var d := CommonRootDerivation(c, prev, n.element, v, next);
      WayHasNone(c, prev, n.element, v, next);
      if n.reference {
        ReferenceNumbered(c, op, n, d.variable, d.next);
      } else {
        ChoiceNumbered(c, op, n, d.variable, d.next);
      }
      var below := if n.reference then BuildReference(c, op, n, d.variable, d.next)
        else BuildChoice(c, op, n, d.variable, d.next);
      NestNumbered(d.chain, below.0, d.next, next, below.1);
    }
  }

  lemma {:induction false} ChoiceNumbered(c: C.Concrete, op: OperationID, n: Name, v: Variable, next: nat)
    requires C.WellFormed(c) && Buildable(c, op, n) && n.children != []
    ensures var b := BuildChoice(c, op, n, v, next); Numbered(b.0, next, b.1)
    decreases n, 1
  {
    NamesNumbered(c, op, n.element, n.children, v, next);
    var all := BuildNames(c, op, n.element, n.children, v, next);
    if |n.children| > 1 { NodeNumbered(Elimination, all.0, next, all.1); } else { SingleNumbered(all.0, next, all.1); }
  }

  lemma SingleNumbered(ts: seq<Tree>, lo: nat, hi: nat)
    requires |ts| == 1 && AllNumbered(ts, lo, hi)
    ensures Numbered(ts[0], lo, hi)
  {
    assert ts[..0] == [] && OperationsOf([]) == [] && OperationsOf(ts) == [] + Operations(ts[0]) == Operations(ts[0]);
  }

  lemma {:induction false} NamesNumbered(c: C.Concrete, op: OperationID, prev: int, ns: seq<Name>, v: Variable,
          next: nat)
    requires C.WellFormed(c) && -1 <= prev < |c| && AllBuildable(c, op, ns)
    ensures var all := BuildNames(c, op, prev, ns, v, next); AllNumbered(all.0, next, all.1)
    decreases ns, 0
  {
    hide AllNumbered, Numbered, BuildName;
    if ns == [] {
      NoneNumbered(next);
    } else {
      var n := |ns| - 1;
      var before := BuildNames(c, op, prev, ns[..n], v, next);
      NamesNumbered(c, op, prev, ns[..n], v, next);
      NameNumbered(c, op, prev, ns[n], v, before.1);
      var last := BuildName(c, op, prev, ns[n], v, before.1);
      AllNumberedSnoc(before.0, last.0, next, before.1, last.1);
    }
  }

  lemma NoneNumbered(next: nat)
    ensures AllNumbered([], next, next)
  {
    assert OperationsOf([]) == [];
  }

  lemma {:induction false} ReferenceNumbered(c: C.Concrete, op: OperationID, n: Name, v: Variable, next: nat)
    requires C.WellFormed(c) && Buildable(c, op, n) && n.children != []
    ensures var b := BuildReference(c, op, n, v, next); Numbered(b.0, next, b.1)
    decreases n, 1
  {
    hide Numbered;
    var reference := ReferenceVariable(next, Elements(n.children));
    DereferenceNumbered(c, op, n.element, n.children, reference, next + 1);
    var below := BuildDereference(c, op, n.element, n.children, reference, next + 1);
    OnlyNumbered(DimensionRead(v, reference, n.element), below.0, next + 1, next, below.1);
  }

  lemma {:induction false} DereferenceNumbered(c: C.Concrete, op: OperationID, prev: int, ns: seq<Name>,
          reference: Variable, next: nat)
    requires C.WellFormed(c) && -1 <= prev < |c| && AllBuildable(c, op, ns) && ns != []
    ensures var b := BuildDereference(c, op, prev, ns, reference, next); Numbered(b.0, next, b.1)
    decreases ns, 1
  {
    hide Numbered, AllNumbered;
    if |ns| > 1 {
      CasesNumbered(c, op, prev, ns, reference, next);
      var all := BuildCases(c, op, prev, ns, reference, next);
      NodeNumbered(PolyBranch(reference), all.0, next, all.1);
    } else {
      var v := InstanceVariable(next, ns[0].element);
      TypeNumbered(c, op, prev, ns[0], v, next + 1);
      var below := BuildType(c, op, prev, ns[0], v, next + 1);
      OnlyNumbered(MonoReference(reference, v), below.0, next + 1, next, below.1);
    }
  }

  lemma OneCaseMore(c: C.Concrete, op: OperationID, prev: int, ns: seq<Name>, reference: Variable, next: nat)
    requires C.WellFormed(c) && -1 <= prev < |c| && AllBuildable(c, op, ns) && ns != []
    ensures var n := |ns| - 1;
      AllBuildable(c, op, ns[..n]) &&
      var before := BuildCases(c, op, prev, ns[..n], reference, next);
      var v := InstanceVariable(before.1, ns[n].element);
      var below := BuildType(c, op, prev, ns[n], v, before.1 + 1);
      BuildCases(c, op, prev, ns, reference, next) ==
        (before.0 + [Node(PolyCase(reference, v), [below.0])], below.1)
  {
    hide BuildType, Buildable;
  }

  lemma {:induction false} CasesNumbered(c: C.Concrete, op: OperationID, prev: int, ns: seq<Name>, reference: Variable,
          next: nat)
    requires C.WellFormed(c) && -1 <= prev < |c| && AllBuildable(c, op, ns)
    ensures var all := BuildCases(c, op, prev, ns, reference, next); AllNumbered(all.0, next, all.1)
    decreases ns, 0
  {
    hide AllNumbered, Numbered, BuildType, Buildable;
    if ns == [] {
      NoneNumbered(next);
    } else {
      hide BuildCases;
      var n := |ns| - 1;
      OneCaseMore(c, op, prev, ns, reference, next);
      var before := BuildCases(c, op, prev, ns[..n], reference, next);
      CasesNumbered(c, op, prev, ns[..n], reference, next);
      var v := InstanceVariable(before.1, ns[n].element);
      var below := BuildType(c, op, prev, ns[n], v, before.1 + 1);
      CaseNumbered(c, op, prev, ns[n], reference, before.1);
      AllNumberedSnoc(before.0, Node(PolyCase(reference, v), [below.0]), next, before.1, below.1);
    }
  }

  lemma {:induction false} CaseNumbered(c: C.Concrete, op: OperationID, prev: int, n: Name, reference: Variable,
          next: nat)
    requires C.WellFormed(c) && -1 <= prev < |c| && Buildable(c, op, n)
    ensures var v := InstanceVariable(next, n.element);
      var below := BuildType(c, op, prev, n, v, next + 1);
      Numbered(Node(PolyCase(reference, v), [below.0]), next, below.1)
    decreases n, 3
  {
    hide Numbered;
    var v := InstanceVariable(next, n.element);
    TypeNumbered(c, op, prev, n, v, next + 1);
    var below := BuildType(c, op, prev, n, v, next + 1);
    OnlyNumbered(PolyCase(reference, v), below.0, next + 1, next, below.1);
  }

  lemma {:induction false} TypeNumbered(c: C.Concrete, op: OperationID, prev: int, n: Name, v: Variable, next: nat)
    requires C.WellFormed(c) && -1 <= prev < |c| && Buildable(c, op, n)
    ensures var b := BuildType(c, op, prev, n, v, next); Numbered(b.0, next, b.1)
    decreases n, 2
  {
    hide Numbered;
    if n.children == [] {
      OperationNumbered(c, op, prev, n.element, v, next);
    } else {
      ChoiceNumbered(c, op, n, v, next);
    }
  }

  /** So candidates single out operations: no two of a built tree are the same object, and nothing
      hangs below one. */
  lemma OperationsDistinct(c: C.Concrete, op: OperationID, context: seq<Name>)
    requires C.WellFormed(c) && context != [] && AllBuildable(c, op, context)
    ensures var root := Build(c, op, context).root; NoDuplicates(Operations(root)) && OperationsEnd(root)
  {
    var v := ReferenceVariable(0, Elements(context));
    DereferenceNumbered(c, op, -1, context, v, 1);
    var below := BuildDereference(c, op, -1, context, v, 1);
    OnlyNumbered(Root(v), below.0, 1, 1, below.1);
  }
}
