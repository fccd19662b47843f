/** `Instruction::eliminate` and `secondStageElimination` as they run: on linked nodes,
    rewriting `m_children` in place. */
module EliminationInPlace {
  import opened Instructions
  import opened EliminationSpec

  class InstructionNode {
    const instr: Instruction
    var children: seq<InstructionNode>
    ghost var tree: Tree                  // the tree rooted here
    ghost var repr: set<InstructionNode>  // every node the tree may reach

    /** The nodes form a tree: nothing is shared between two children. */
    ghost predicate Valid()
      reads this, repr
      decreases repr
    {
      this in repr && tree.instr == instr && |tree.children| == |children| &&
      (forall i :: 0 <= i < |children| ==>
        children[i] in repr && children[i] in children[i].repr && children[i].repr <= repr - {this} &&
        children[i].tree == tree.children[i] && children[i].instr == tree.children[i].instr && children[i].Valid()) &&
      (forall i, j :: 0 <= i < j < |children| ==> children[i].repr !! children[j].repr)
    }

    method SetChildren(kept: seq<InstructionNode>, ghost trees: seq<Tree>)
      requires this in repr && Apart(kept, trees, repr - {this})
      modifies this`children, this`tree
      ensures Valid() && children == kept && tree == Node(instr, trees)
    {
      children := kept;
      tree := Node(instr, trees);
    }

    /** Runs the pass on one child and leaves it in place. */
    method RunChild(sz: nat, c: Candidates) returns (nestedResult: Outcome)
      requires Valid() && sz < |children| && Runnable(tree.children[sz])
      modifies repr
      ensures Valid() && repr == old(repr) && children == old(children)
      ensures tree.children == old(tree.children)[sz := Eliminate(old(tree.children[sz]), c).0]
      ensures nestedResult == Eliminate(old(tree.children[sz]), c).1
      decreases repr, 0
    {
      var child := children[sz];
      nestedResult := child.Run(c);
      tree := tree.(children := tree.children[sz := child.tree]);
    }

    /** All of `Valid` but for the child at `sz`, whose nodes are among `owned`. */
    ghost predicate ValidExcept(sz: nat, owned: set<InstructionNode>)
      reads this, repr
    {
      this in repr && tree.instr == instr && |tree.children| == |children| && owned <= repr - {this} &&
      (forall i :: 0 <= i < |children| && i != sz ==>
        children[i] in repr && children[i] in children[i].repr && children[i].repr <= repr - {this} - owned &&
        children[i].tree == tree.children[i] && children[i].instr == tree.children[i].instr && children[i].Valid()) &&
      (forall i, j :: 0 <= i < j < |children| && i != sz && j != sz ==> children[i].repr !! children[j].repr)
    }

    /** `m_children[ sz ] = node` */
    method Splice(sz: nat, node: InstructionNode, ghost owned: set<InstructionNode>)
      requires sz < |children| && ValidExcept(sz, owned)
      requires node in node.repr && node.repr <= owned && node.Valid()
      modifies this`children, this`tree
      ensures Valid() && tree == Node(instr, old(tree.children)[sz := old(node.tree)])
    {
      children := children[sz := node];
      tree := Node(instr, tree.children[sz := node.tree]);
    }

    /** The branch for an elimination node. */
    method EliminateChoice(sz: nat, c: Candidates) returns (nestedResult: Outcome)
      requires Valid() && sz < |children| && tree.children[sz].instr.Elimination? && Generic(tree.children[sz], false)
      modifies repr
      ensures Valid() && repr == old(repr)
      ensures var e := EliminateChild(old(tree.children[sz]), c);
        tree.children == old(tree.children)[sz := e.0] && nestedResult == e.1
      decreases repr, 3
    {
      hide Generic, Runnable, Eliminate, Select;
      var child := children[sz];
      ChoiceRunnable(tree.children[sz]);
      ghost var owned, nested := child.repr, tree.children[sz].children;
      var success, ambiguous := child.RunAlternatives(c);
      assert ValidExcept(sz, owned);
      if ambiguous != [] || |success| > 1 {
        child.SetChildren(ambiguous + success, Select(nested, c, Ambiguous) + Select(nested, c, Success));
        Splice(sz, child, owned);
        nestedResult := Ambiguous;
      } else if |success| == 1 {
        assert ambiguous + success == success;
        Splice(sz, success[0], owned);
        nestedResult := Success;
      } else {
        Splice(sz, child, owned);
        nestedResult := Failed;
      }
    }

    /** The branch for a prune node: its live alternatives become the children. */
    method PruneOnlyChild(c: Candidates) returns (live: bool)
      requires Valid() && |children| == 1 && tree.children[0].instr.Prune? && EnumerationShape(tree.children[0])
      modifies repr
      ensures Valid() && repr == old(repr)
      ensures var alternatives := Select(old(tree.children[0]).children, c, Success);
        live == (alternatives != []) && tree.children == if live then alternatives else [Node(Prune, [])]
      decreases repr, 3
    {
      hide Eliminate, RunAll, Pick, SomeAlive, Resolved, Runnable;
      var child := children[0];
      PruneRunnable(tree.children[0]);
      ghost var trees := Select(tree.children[0].children, c, Success);
      PruneSelect(tree.children[0].children, c);
      var success, ambiguous := child.RunAlternatives(c);
      live := success != [];
      if live {
        assert ambiguous + success == success && [] + trees == trees;
        SetChildren(success, trees);
      } else {
        Splice(0, child, child.repr);
      }
    }

    /** The loop over the children of an elimination or prune node: runs the pass on each
        alternative, sorts the alternatives by result, and clears the list. */
    method RunAlternatives(c: Candidates) returns (success: seq<InstructionNode>, ambiguous: seq<InstructionNode>)
      requires Valid() && forall i :: 0 <= i < |tree.children| ==> Runnable(tree.children[i])
      modifies repr
      ensures Valid() && repr == old(repr) && children == [] && tree.children == []
      ensures var ts := old(tree.children);
        |success| == |Select(ts, c, Success)| && |ambiguous| == |Select(ts, c, Ambiguous)| &&
        Apart(ambiguous + success, Select(ts, c, Ambiguous) + Select(ts, c, Success), repr - {this})
      decreases repr, 2
    {
      hide Runnable, Eliminate, Pick;
      ghost var before := tree.children;
      ghost var atS: seq<nat>, atA: seq<nat> := [], [];
      success, ambiguous := [], [];
      var k := 0;
      PickedNone(children, before, c);
      while k != |children|
        invariant repr == old(repr) && k <= |children| && Visited(success, atS, ambiguous, atA, before, k, c)
        decreases |before| - k
      {
        success, atS, ambiguous, atA := Visit(success, atS, ambiguous, atA, before, k, c);
        k := k + 1;
      }
      assert before[..k] == before;
      ChildrenApart(ambiguous + success, atA + atS, Select(before, c, Ambiguous) + Select(before, c, Success));
      children := [];
      tree := Node(instr, []);
    }

    /** The first `k` alternatives have been run, and the two lists hold those that succeeded
        and those that were ambiguous. */
    ghost predicate Visited(success: seq<InstructionNode>, atS: seq<nat>, ambiguous: seq<InstructionNode>,
            atA: seq<nat>,
                            before: seq<Tree>, k: nat, c: Candidates)
      reads this, repr
    {
      Valid() && k <= |before| == |children| &&
      (forall i :: 0 <= i < |before| ==> Runnable(before[i])) &&
      (forall i :: 0 <= i < |before| ==> tree.children[i] == if i < k then Eliminate(before[i], c).0 else before[i]) &&
      Picked(success, atS, children, before, k, c, Success) &&
      Picked(ambiguous, atA, children, before, k, c, Ambiguous)
    }

    method Visit(success: seq<InstructionNode>, ghost atS: seq<nat>, ambiguous: seq<InstructionNode>,
            ghost atA: seq<nat>,
                 ghost before: seq<Tree>, k: nat, c: Candidates)
      returns (success': seq<InstructionNode>, ghost atS': seq<nat>, ambiguous': seq<InstructionNode>,
        ghost atA': seq<nat>)
      requires k < |children| && Visited(success, atS, ambiguous, atA, before, k, c)
      modifies repr
      ensures repr == old(repr) && children == old(children) &&
          Visited(success', atS', ambiguous', atA', before, k + 1, c)
      decreases repr, 1
    {
      var nested := children[k];
      PickedStep(success, atS, children, before, k, c, Success);
      PickedStep(ambiguous, atA, children, before, k, c, Ambiguous);
      success', atS', ambiguous', atA' := success, atS, ambiguous, atA;
      var nestedResult := RunChild(k, c);
      match nestedResult {
        case Success => success', atS' := success + [nested], atS + [k];
        case Failed =>
        case Ambiguous => ambiguous', atA' := ambiguous + [nested], atA + [k];
      }
    }

    lemma ChildrenApart(ns: seq<InstructionNode>, at: seq<nat>, ts: seq<Tree>)
      requires Valid() && |ns| == |at| == |ts|
      requires forall i :: 0 <= i < |ns| ==>
          at[i] < |children| && ns[i] == children[at[i]] && ts[i] == tree.children[at[i]]
      requires forall i, j :: 0 <= i < j < |ns| ==> at[i] != at[j]
      ensures Apart(ns, ts, repr - {this})
    {
      forall i, j | 0 <= i < j < |ns| ensures ns[i].repr !! ns[j].repr {
        var lo, hi := if at[i] < at[j] then at[i] else at[j], if at[i] < at[j] then at[j] else at[i];
        assert children[lo].repr !! children[hi].repr;
      }
    }

    /** The pass, run on this node. The VERIFY_RTE checks of the source hold on the
        shapes the two builders produce. */
    method Run(c: Candidates) returns (elimination: Outcome)
      requires Valid() && Runnable(tree)
      modifies repr
      ensures Valid() && repr <= old(repr)
      ensures (tree, elimination) == Eliminate(old(tree), c)
      decreases repr, 5
    {
      hide Select, Generic, EnumerationShape, Alternative, Runnable, ChildRunnable;
      hide EliminateChild, EliminateChildren, Join;
      elimination := Success;
      if !c.Accepts(instr) {
        return Failed;
      }
      RunnableChildren(tree);
      if |children| == 1 && children[0].instr.Prune? {
        PruneOnly(tree.children[0], c);
        assert tree.children == [tree.children[0]];
        var live := PruneOnlyChild(c);
        return if live then Success else Failed;
      }
      ghost var before := tree.children;
      var sz := 0;
      ChildrenNone(before, c);
      while sz != |children|
        invariant Valid() && repr == old(repr) && |before| == |children| && sz <= |children|
        invariant forall i :: sz <= i < |before| ==> tree.children[i] == before[i]
        invariant (tree.children[..sz], elimination) == EliminateChildren(before[..sz], c)
        decreases |before| - sz
      {
        ChildrenStep(before, tree.children, sz, c);
        var nestedResult := EliminateAt(sz, c);
        elimination := Join(elimination, nestedResult);
        sz := sz + 1;
      }
      assert before[..sz] == before && tree.children[..sz] == tree.children;
    }

    /** The two stages as `build` chains them: the second is run only when the first is ambiguous,
        no operation left returns a dimension and some operation left is a candidate. Whatever
        they are, a success settles the tree that was built, among all its derivations or among
        those made of candidates; what is not settled is refused as having no derivation, and
        then has none, or as ambiguous. */
    method Settle(dimensions: bool, candidates: set<nat>) returns (elimination: Outcome)
      requires Valid() && Alternative(tree, false) && !instr.Failure?
      modifies repr
      ensures Valid()
      ensures var first := Eliminate(old(tree), AnyOperation).1;
        var second := first.Ambiguous? && !dimensions && candidates != {};
        var c := if second then Only(candidates) else AnyOperation;
        && (!second ==> elimination == first)
        && (elimination.Success? ==> Settles(old(tree), tree, c))
        && Reports(old(tree), tree, elimination, c)
        && (elimination.Failed? ==> Total(old(tree), c) == 0)
        && (Total(old(tree), c) >= 2 ==> elimination.Ambiguous?)
        && (HonestBelow(old(tree), AnyOperation) ==>
              (first.Ambiguous? <==> Conflict(old(tree), AnyOperation)) && (elimination.Success? ==> Resolved(tree, c)))
    {
      EliminationTheorem(tree, AnyOperation);
      TwoStageTheorem(tree, candidates);
      EliminateShape(tree, AnyOperation, false);
      elimination := Run(AnyOperation);                // eliminate
      if elimination.Ambiguous? && !dimensions && candidates != {} {
        elimination := Run(Only(candidates));          // secondStageElimination
      }
    }

    /** One round of the child loop, for a child that is no prune node. */
    method EliminateAt(sz: nat, c: Candidates) returns (nestedResult: Outcome)
      requires Valid() && sz < |children| && ChildRunnable(tree.children[sz]) && !children[sz].instr.Prune?
      modifies repr
      ensures Valid() && repr == old(repr)
      ensures var e := EliminateChild(old(tree.children[sz]), c);
        tree.children == old(tree.children)[sz := e.0] && nestedResult == e.1
      decreases repr, 4
    {
      if children[sz].instr.Elimination? {
        nestedResult := EliminateChoice(sz, c);
      } else if children[sz].instr.Failure? {
        nestedResult := Failed;
      } else {
        nestedResult := RunChild(sz, c);
      }
    }
  }

  predicate ChildRunnable(t: Tree) {
    match t.instr
    case Prune => EnumerationShape(t)
    case Elimination => Generic(t, false)
    case Failure => true
    case _ => Runnable(t)
  }

  /** What the pass may be run on: generic trees and enumeration trees. */
  predicate Runnable(t: Tree) {
    Alternative(t, false) || (!ChoiceNode(t.instr) && EnumerationShape(t))
  }

  lemma PruneRunnable(t: Tree)
    requires t.instr.Prune? && EnumerationShape(t)
    ensures forall i :: 0 <= i < |t.children| ==>
        Runnable(t.children[i]) && EnumerationShape(t.children[i]) && !ChoiceNode(t.children[i].instr)
  {
  }

  lemma ChoiceRunnable(t: Tree)
    requires t.instr.Elimination? && Generic(t, false)
    ensures forall i :: 0 <= i < |t.children| ==> Runnable(t.children[i])
  {
  }

  lemma RunnableChildren(t: Tree)
    requires Runnable(t)
    ensures |t.children| == 1 || forall i :: 0 <= i < |t.children| ==> !t.children[i].instr.Prune?
    ensures forall i :: 0 <= i < |t.children| ==> ChildRunnable(t.children[i])
    ensures forall i :: 0 <= i < |t.children| && t.children[i].instr.Prune? ==> EnumerationShape(t.children[i])
  {
    if Alternative(t, false) {
      assert AllGeneric(t.children, false);
      forall i | 0 <= i < |t.children| ensures ChildRunnable(t.children[i]) && !t.children[i].instr.Prune? {
        var x := t.children[i];
        assert Generic(x, false);
        if !x.instr.Elimination? && !x.instr.Failure? { GenericIsAlternative(x, false); }
      }
    } else {
      forall i | 0 <= i < |t.children| ensures EnumerationShape(t.children[i]) {
      }
    }
  }

  lemma ChildrenNone(ts: seq<Tree>, c: Candidates)
    ensures EliminateChildren(ts[..0], c) == ([], Success)
  {
  }

  lemma ChildrenStep(ts: seq<Tree>, now: seq<Tree>, k: nat, c: Candidates)
    requires k < |ts| == |now| && !ts[k].instr.Prune? && now[..k] == EliminateChildren(ts[..k], c).0
    ensures var r := EliminateChild(ts[k], c);
      EliminateChildren(ts[..k + 1], c) == (now[k := r.0][..k + 1], Join(EliminateChildren(ts[..k], c).1, r.1))
  {
    assert ts[..k + 1][..k] == ts[..k];
    var r := EliminateChild(ts[k], c);
    assert now[k := r.0][..k + 1] == now[..k] + [r.0];
  }

  /** `ns` are the roots of the trees `ts`, share nothing, and stay inside `footprint`. */
  ghost predicate Apart(ns: seq<InstructionNode>, ts: seq<Tree>, footprint: set<InstructionNode>)
    reads ns, set x, o | x in ns && o in x.repr :: o
  {
    |ns| == |ts| &&
    (forall i :: 0 <= i < |ns| ==>
      ns[i] in ns[i].repr && ns[i].repr <= footprint && ns[i].tree == ts[i] && ns[i].instr == ts[i].instr &&
        ns[i].Valid()) &&
    (forall i, j :: 0 <= i < j < |ns| ==> ns[i].repr !! ns[j].repr)
  }

  /** `ns` are the nodes at the positions `at` below `k`: those whose run returned `o`. */
  ghost predicate Picked(ns: seq<InstructionNode>, at: seq<nat>, children: seq<InstructionNode>, before: seq<Tree>,
                         k: nat, c: Candidates, o: Outcome)
  {
    k <= |before| == |children| && |ns| == |at| == |Select(before[..k], c, o)| &&
    (forall i :: 0 <= i < |at| ==>
      at[i] < k && ns[i] == children[at[i]] && Eliminate(before[at[i]], c) == (Select(before[..k], c, o)[i], o)) &&
    (forall i, j :: 0 <= i < j < |at| ==> at[i] < at[j])
  }

  lemma PickedNone(children: seq<InstructionNode>, before: seq<Tree>, c: Candidates)
    requires |before| == |children|
    ensures Picked([], [], children, before, 0, c, Success) && Picked([], [], children, before, 0, c, Ambiguous)
  {
  }

  lemma PickedStep(ns: seq<InstructionNode>, at: seq<nat>, children: seq<InstructionNode>, before: seq<Tree>,
                   k: nat, c: Candidates, o: Outcome)
    requires Picked(ns, at, children, before, k, c, o) && k < |before|
    ensures if Eliminate(before[k], c).1 == o then Picked(ns + [children[k]], at + [k], children, before, k + 1, c, o)
            else Picked(ns, at, children, before, k + 1, c, o)
  {
    assert before[..k + 1][..k] == before[..k];
    var s := Select(before[..k], c, o);
    SelectStep(before[..k + 1], c, o);
    assert s + [] == s;
  }
}
