/** What `eliminate` and `secondStageElimination` compute, and what they preserve. */
module EliminationSpec {
  import opened Instructions

  datatype Outcome = Success | Failed | Ambiguous

  /** The running `elimination` value of the child loop: eAmbiguous sticks, then eFailure. */
  function Join(a: Outcome, b: Outcome): Outcome {
    if a.Ambiguous? || b.Ambiguous? then Ambiguous
    else if a.Failed? || b.Failed? then Failed
    else Success
  }

  /** The first stage accepts every operation, the second only the candidates. */
  datatype Candidates = AnyOperation | Only(ids: set<nat>) {
    predicate Accepts(i: Instruction) {
      i.Operation? && Only? ==> i.id in ids
    }
  }

  // ---- the rewriting, as a function of the tree ----

  /** The tree left by running the pass on the node `t`, and the value it returns. */
  function Eliminate(t: Tree, c: Candidates): (Tree, Outcome)
    decreases t, 1
  {
    if !c.Accepts(t.instr) then (t, Failed)
    else
      var r := EliminateChildren(t.children, c);
      (Node(t.instr, r.0), r.1)
  }

  function EliminateChildren(ts: seq<Tree>, c: Candidates): (seq<Tree>, Outcome)
    decreases ts, 0
  {
    if ts == [] then ([], Success)
    else
      var last := ts[|ts| - 1];
      var r := EliminateChildren(ts[..|ts| - 1], c);
      if last.instr.Prune? then
        var live := Select(last.children, c, Success);
        if live != [] then (r.0 + live, r.1) else (r.0 + [Node(Prune, [])], Failed)
      else
        var k := EliminateChild(last, c);
        (r.0 + [k.0], Join(r.1, k.1))
  }

  /** A child other than a prune node: what takes its place, and what it contributes. */
  function EliminateChild(t: Tree, c: Candidates): (Tree, Outcome)
    decreases t, 2
  {
    match t.instr
    case Elimination =>
      var ambiguous, success := Select(t.children, c, Ambiguous), Select(t.children, c, Success);
      if ambiguous != [] || |success| > 1 then (Node(Elimination, ambiguous + success), Ambiguous)
      else if |success| == 1 then (success[0], Success)
      else (Node(Elimination, []), Failed)
    case Failure => (t, Failed)
    case _ => Eliminate(t, c)
  }

  /** One run for every alternative. */
  function RunAll(ts: seq<Tree>, c: Candidates): (rs: seq<(Tree, Outcome)>)
    ensures |rs| == |ts|
    decreases ts, 0
  {
    seq(|ts|, i requires 0 <= i < |ts| => Eliminate(ts[i], c))
  }

  /** The trees of the runs that returned `o`, in order. */
  function Pick(rs: seq<(Tree, Outcome)>, o: Outcome): seq<Tree> {
    if rs == [] then []
    else Pick(rs[..|rs| - 1], o) + if rs[|rs| - 1].1 == o then [rs[|rs| - 1].0] else []
  }

  /** The alternatives whose own run returned `o`, rewritten, in order. */
  function Select(ts: seq<Tree>, c: Candidates, o: Outcome): seq<Tree>
    decreases ts, 1
  {
    Pick(RunAll(ts, c), o)
  }

  lemma SelectStep(ts: seq<Tree>, c: Candidates, o: Outcome)
    requires ts != []
    ensures var n := |ts| - 1;
      Select(ts, c, o) == Select(ts[..n], c, o) + if Eliminate(ts[n], c).1 == o then [Eliminate(ts[n], c).0] else []
  {
    assert RunAll(ts, c)[..|ts| - 1] == RunAll(ts[..|ts| - 1], c);
  }

  predicate Increasing(order: seq<nat>) {
    forall j, k :: 0 <= j < k < |order| ==> order[j] < order[k]
  }

  /** The runs at these places returned `o`, and these are the trees they left. */
  predicate ListedIn(rs: seq<(Tree, Outcome)>, o: Outcome, order: seq<nat>, trees: seq<Tree>) {
    |order| == |trees| && Increasing(order) &&
    forall j :: 0 <= j < |order| ==> order[j] < |rs| && rs[order[j]].1 == o && trees[j] == rs[order[j]].0
  }

  predicate ListsAll(rs: seq<(Tree, Outcome)>, o: Outcome, order: seq<nat>) {
    forall i :: 0 <= i < |rs| && rs[i].1 == o ==> i in order
  }

  lemma {:induction false} PickOrder(rs: seq<(Tree, Outcome)>, o: Outcome) returns (order: seq<nat>)
    ensures ListedIn(rs, o, order, Pick(rs, o)) && ListsAll(rs, o, order)
  {
    order := [];
    if rs != [] {
      var n := |rs| - 1;
      var before := PickOrder(rs[..n], o);
      order := before + if rs[n].1 == o then [n] else [];
      forall i | 0 <= i < |rs| && rs[i].1 == o ensures i in order {
        if i < n { assert rs[..n][i] == rs[i] && i in before; }
      }
    }
  }

  /** What a choice between these runs leaves, and what it returns: nothing where all failed; the one
      tree left, where just one succeeded and none was ambiguous; and otherwise all that did not
      fail, the ambiguous ones in order before the successful ones in order. */
  ghost predicate Leaves(rs: seq<(Tree, Outcome)>, ambiguous: seq<nat>, success: seq<nat>, left: Tree, o: Outcome) {
    match o
    case Failed => left == Node(Elimination, []) && forall i :: 0 <= i < |rs| ==> rs[i].1.Failed?
    case Success => ambiguous == [] && ListedIn(rs, Success, success, [left])
    case Ambiguous =>
      left.instr.Elimination? && (ambiguous == [] ==> |success| > 1) &&
      exists a, s: seq<Tree> :: left.children == a + s && ListedIn(rs, Ambiguous, ambiguous, a) &&
        ListedIn(rs, Success, success, s)
  }

  lemma AlternativesKept(ts: seq<Tree>, c: Candidates) returns (ambiguous: seq<nat>, success: seq<nat>)
    ensures ListsAll(RunAll(ts, c), Ambiguous, ambiguous) && ListsAll(RunAll(ts, c), Success, success)
    ensures var k := EliminateChild(Node(Elimination, ts), c); Leaves(RunAll(ts, c), ambiguous, success, k.0, k.1)
  {
    hide ListedIn, ListsAll, Pick, RunAll;
    var rs := RunAll(ts, c);
    ambiguous := PickOrder(rs, Ambiguous);
    success := PickOrder(rs, Success);
    AsMany(rs, Ambiguous, ambiguous, Pick(rs, Ambiguous));
    AsMany(rs, Success, success, Pick(rs, Success));
    var b := Pick(rs, Success);
    if |b| == 1 { assert b == [b[0]]; }
    if ambiguous == [] && b == [] { AllFailed(rs); }
  }

  lemma AsMany(rs: seq<(Tree, Outcome)>, o: Outcome, order: seq<nat>, trees: seq<Tree>)
    requires ListedIn(rs, o, order, trees)
    ensures |order| == |trees|
  {
  }

  lemma AllFailed(rs: seq<(Tree, Outcome)>)
    requires ListsAll(rs, Ambiguous, []) && ListsAll(rs, Success, [])
    ensures forall i :: 0 <= i < |rs| ==> rs[i].1.Failed?
  {
    forall i | 0 <= i < |rs| ensures rs[i].1.Failed? {
      match rs[i].1
      case Ambiguous => assert false;
      case Success => assert false;
      case Failed =>
    }
  }

  // ---- shapes ----

  predicate ChoiceNode(i: Instruction) {
    i.Elimination? || i.Failure? || i.Prune?
  }

  /** No choice node anywhere and every operation accepted: a finished derivation. */
  predicate Resolved(t: Tree, c: Candidates)
    decreases t
  {
    !ChoiceNode(t.instr) && c.Accepts(t.instr) &&
    forall i :: 0 <= i < |t.children| ==> Resolved(t.children[i], c)
  }

  // ---- meaning: in how many ways does a tree resolve ----

  /** What is counted: the resolutions equal to a given derivation, or all of them. */
  datatype Target = Anything | Exactly(derivation: Tree)

  /** The targets of the children of a node whose target is `r`. */
  function ChildTargets(r: Target, n: nat): (targets: seq<Target>)
    requires r.Exactly? ==> |r.derivation.children| == n
    ensures |targets| == n
  {
    if r.Anything? then seq(n, _ => Anything) else seq(n, i requires 0 <= i < n => Exactly(r.derivation.children[i]))
  }

  /** Each way of one part goes with each way of the other. */
  function Times(a: nat, b: nat): (r: nat)
    ensures r == 0 <==> a == 0 || b == 0
    ensures r == 1 <==> a == 1 && b == 1
    ensures a == 1 ==> r == b
  {
    Distributes(a, b);
    a * b
  }

  lemma Distributes(a: nat, b: nat)
    ensures 0 <= a * b
    ensures a >= 1 && b >= 1 ==> a * b >= a && a * b >= b
    ensures a == 0 || b == 0 ==> a * b == 0
  {
    if a >= 1 && b >= 1 {
      assert a * b == a + a * (b - 1) && a * b == b + (a - 1) * b;
    }
  }

  /** A resolution keeps one alternative of every elimination node, contains no
      failure node, and uses accepted operations only. `Ways` counts the choices
      that meet the target. */
  function Ways(t: Tree, r: Target, c: Candidates): nat
    decreases t, 0
  {
    if t.instr.Elimination? then WaysSum(t.children, r, c)
    else if t.instr.Failure? || t.instr.Prune? || !c.Accepts(t.instr) then 0
    else if r.Exactly? && (r.derivation.instr != t.instr || |r.derivation.children| != |t.children|) then 0
    else WaysProduct(t.children, ChildTargets(r, |t.children|), c)
  }

  function WaysSum(ts: seq<Tree>, r: Target, c: Candidates): nat
    decreases ts, 1
  {
    if ts == [] then 0 else WaysSum(ts[..|ts| - 1], r, c) + Ways(ts[|ts| - 1], r, c)
  }

  function WaysProduct(ts: seq<Tree>, rs: seq<Target>, c: Candidates): nat
    requires |ts| == |rs|
    decreases ts, 1
  {
    if ts == [] then 1
    else Times(WaysProduct(ts[..|ts| - 1], rs[..|ts| - 1], c), Ways(ts[|ts| - 1], rs[|ts| - 1], c))
  }

  /** The number of resolutions, whatever they look like. */
  function Total(t: Tree, c: Candidates): nat {
    Ways(t, Anything, c)
  }

  // ---- conflicts ----

  /** How many of the alternatives can be resolved at all. */
  function LiveCount(ts: seq<Tree>, c: Candidates): nat {
    if ts == [] then 0 else LiveCount(ts[..|ts| - 1], c) + if Total(ts[|ts| - 1], c) > 0 then 1 else 0
  }

  /** Some elimination node that the pass reaches has two alternatives that can both be resolved. */
  predicate Conflict(t: Tree, c: Candidates)
    decreases t, 1
  {
    !t.instr.Failure? && !t.instr.Prune? && c.Accepts(t.instr) &&
    ((t.instr.Elimination? && LiveCount(t.children, c) >= 2) || ConflictIn(t.children, c))
  }

  predicate ConflictIn(ts: seq<Tree>, c: Candidates)
    decreases ts, 0
  {
    ts != [] && (ConflictIn(ts[..|ts| - 1], c) || Conflict(ts[|ts| - 1], c))
  }

  // ---- trees of the generic builder ----

  /** No prune node, and alternatives with proper heads. Nothing is asked below a failure node
      that heads no alternative. Strictly, no failure node heads an alternative either. */
  predicate Generic(t: Tree, strict: bool)
    decreases t
  {
    !t.instr.Prune? &&
    (t.instr.Failure? ||
     forall i :: 0 <= i < |t.children| ==>
       if t.instr.Elimination? then Alternative(t.children[i], strict) else Generic(t.children[i], strict))
  }

  /** What the pass may be run on. The source verifies that an alternative is no elimination node;
      that a failure node heads none is not verified, and not always so. */
  predicate Alternative(t: Tree, strict: bool)
    decreases t
  {
    !t.instr.Elimination? && !t.instr.Prune? && (strict ==> !t.instr.Failure?) && AllGeneric(t.children, strict)
  }

  predicate AllGeneric(ts: seq<Tree>, strict: bool)
    decreases ts
  {
    forall i :: 0 <= i < |ts| ==> Generic(ts[i], strict)
  }

  predicate Alternatives(ts: seq<Tree>, strict: bool) {
    forall i :: 0 <= i < |ts| ==> Alternative(ts[i], strict)
  }

  lemma GenericIsNoPrune(t: Tree, strict: bool)
    requires Generic(t, strict)
    ensures !t.instr.Prune?
  {
  }

  lemma AlternativeIsGeneric(t: Tree, strict: bool)
    requires Alternative(t, strict)
    ensures Generic(t, strict)
  {
    assert AllGeneric(t.children, strict);
  }

  lemma GenericIsAlternative(t: Tree, strict: bool)
    requires Generic(t, strict) && !t.instr.Elimination? && !t.instr.Failure?
    ensures Alternative(t, strict)
  {
    assert forall i :: 0 <= i < |t.children| ==> Generic(t.children[i], strict);
  }

  lemma ChoiceIsGeneric(a: seq<Tree>, b: seq<Tree>, strict: bool)
    requires Alternatives(a, strict) && Alternatives(b, strict)
    ensures Generic(Node(Elimination, a + b), strict)
  {
  }

  /** Nothing below a failure node that heads an alternative can be resolved, and the pass finds so. */
  predicate DeadEnd(t: Tree, c: Candidates)
    decreases t, 0
  {
    WaysProduct(t.children, ChildTargets(Anything, |t.children|), c) == 0 && !ConflictIn(t.children, c)
  }

  /** Every alternative headed by a failure node is a dead end, as far as the pass looks. */
  predicate Honest(t: Tree, c: Candidates)
    decreases t
  {
    t.instr.Failure? ||
    forall i :: 0 <= i < |t.children| ==>
      if t.instr.Elimination? then
        HonestBelow(t.children[i], c) && (t.children[i].instr.Failure? ==> DeadEnd(t.children[i], c))
      else Honest(t.children[i], c)
  }

  predicate HonestBelow(t: Tree, c: Candidates)
    decreases t
  {
    AllHonest(t.children, c)
  }

  predicate AllHonest(ts: seq<Tree>, c: Candidates)
    decreases ts
  {
    forall i :: 0 <= i < |ts| ==> Honest(ts[i], c)
  }

  /** Alternatives that are told apart rightly. */
  predicate HonestAlternatives(ts: seq<Tree>, c: Candidates) {
    forall i :: 0 <= i < |ts| ==> HonestBelow(ts[i], c) && (ts[i].instr.Failure? ==> DeadEnd(ts[i], c))
  }

  lemma {:induction false} StrictIsHonest(t: Tree, c: Candidates)
    requires Generic(t, true)
    ensures Generic(t, false) && Honest(t, c)
    decreases t
  {
    if !t.instr.Failure? {
      forall i | 0 <= i < |t.children|
        ensures if t.instr.Elimination? then Alternative(t.children[i], false) && HonestBelow(t.children[i], c)
                else Generic(t.children[i], false) && Honest(t.children[i], c)
      {
        if t.instr.Elimination? { StrictBelow(t.children[i], c); } else { StrictIsHonest(t.children[i], c); }
      }
    }
  }

  lemma {:induction false} StrictBelow(t: Tree, c: Candidates)
    requires Alternative(t, true)
    ensures Alternative(t, false) && HonestBelow(t, c)
    decreases t
  {
    forall i | 0 <= i < |t.children| ensures Generic(t.children[i], false) && Honest(t.children[i], c) {
      StrictIsHonest(t.children[i], c);
    }
  }

  // ---- what the returned value means ----

  /** The value the pass returns, read off the counting semantics alone. */
  predicate Means(o: Outcome, total: nat, conflict: bool) {
    match o
    case Success => total == 1 && !conflict
    case Failed => total == 0 && !conflict
    case Ambiguous => conflict
  }

  lemma {:induction false} OutcomeMeaning(t: Tree, c: Candidates)
    requires Alternative(t, false) && HonestBelow(t, c) && !t.instr.Failure?
    ensures Means(Eliminate(t, c).1, Total(t, c), Conflict(t, c))
    decreases t, 1
  {
    hide Times;
    if c.Accepts(t.instr) {
      ChildrenMeaning(t.children, c);
    }
  }

  lemma {:induction false} ChildMeaning(t: Tree, c: Candidates)
    requires Generic(t, false) && Honest(t, c)
    ensures Means(EliminateChild(t, c).1, Total(t, c), Conflict(t, c))
    decreases t, 2
  {
    hide Times;
    if t.instr.Elimination? {
      SelectMeaning(t.children, c);
      MisledExactly(t.children, c);
    } else if !t.instr.Failure? {
      OutcomeMeaning(t, c);
    }
  }

  lemma {:induction false} ChildrenMeaning(ts: seq<Tree>, c: Candidates)
    requires AllGeneric(ts, false) && AllHonest(ts, c)
    ensures Means(EliminateChildren(ts, c).1, WaysProduct(ts, ChildTargets(Anything, |ts|), c), ConflictIn(ts, c))
    decreases ts, 0
  {
    hide Times;
    if ts != [] {
      var n := |ts| - 1;
      assert ChildTargets(Anything, |ts|)[..n] == ChildTargets(Anything, n);
      ChildrenMeaning(ts[..n], c);
      ChildMeaning(ts[n], c);
    }
  }

  /** How many alternatives are headed by a failure node and yet no dead end. */
  function Misled(ts: seq<Tree>, c: Candidates): nat {
    if ts == [] then 0
    else Misled(ts[..|ts| - 1], c) + if ts[|ts| - 1].instr.Failure? && !DeadEnd(ts[|ts| - 1], c) then 1 else 0
  }

  lemma {:induction false} MisledExactly(ts: seq<Tree>, c: Candidates)
    ensures Misled(ts, c) == 0 <==> forall i :: 0 <= i < |ts| && ts[i].instr.Failure? ==> DeadEnd(ts[i], c)
  {
    if ts != [] {
      MisledExactly(ts[..|ts| - 1], c);
      assert ts == ts[..|ts| - 1] + [ts[|ts| - 1]];
    }
  }

  lemma {:induction false} SelectMeaning(ts: seq<Tree>, c: Candidates)
    requires Alternatives(ts, false) && forall i :: 0 <= i < |ts| ==> HonestBelow(ts[i], c)
    ensures var a, s := Select(ts, c, Ambiguous), Select(ts, c, Success);
      && (ConflictIn(ts, c) ==> a != [])
      && (!ConflictIn(ts, c) ==> WaysSum(ts, Anything, c) == LiveCount(ts, c))
      && |a| + |s| >= LiveCount(ts, c) + Misled(ts, c)
      && (Misled(ts, c) == 0 ==> (a != [] ==> ConflictIn(ts, c)) && |s| <= LiveCount(ts, c))
    decreases ts, 0
  {
    hide Eliminate, Select, Total, Ways, Conflict, DeadEnd, HonestBelow, Times;
    if ts == [] {
      NothingSelected(c);
    } else {
      var n := |ts| - 1;
      SelectStep(ts, c, Ambiguous);
      SelectStep(ts, c, Success);
      SelectMeaning(ts[..n], c);
      if ts[n].instr.Failure? { FailureMeaning(ts[n], c); } else { OutcomeMeaning(ts[n], c); }
      assert WaysSum(ts, Anything, c) == WaysSum(ts[..n], Anything, c) + Total(ts[n], c) by { SumIsTotal(ts, c); }
    }
  }

  lemma SumIsTotal(ts: seq<Tree>, c: Candidates)
    requires ts != []
    ensures WaysSum(ts, Anything, c) == WaysSum(ts[..|ts| - 1], Anything, c) + Total(ts[|ts| - 1], c)
  {
  }

  lemma NothingSelected(c: Candidates)
    ensures Select([], c, Ambiguous) == Select([], c, Success) == []
  {
  }

  /** A failure node that heads an alternative is found to fail exactly when it is a dead end. */
  lemma {:induction false} FailureMeaning(t: Tree, c: Candidates)
    requires t.instr.Failure? && Alternative(t, false) && HonestBelow(t, c)
    ensures Total(t, c) == 0 && !Conflict(t, c) && (Eliminate(t, c).1.Failed? <==> DeadEnd(t, c))
    decreases t, 1
  {
    hide Times;
    ChildrenMeaning(t.children, c);
  }

  /** When one elimination node is told apart rightly: exactly when it is a conflict anyway, or
      nothing can be resolved below any of its alternatives that a failure node heads. */
  lemma ChoiceExact(ts: seq<Tree>, c: Candidates)
    requires Alternatives(ts, false) && forall i :: 0 <= i < |ts| ==> HonestBelow(ts[i], c)
    ensures var t := Node(Elimination, ts);
      Means(EliminateChild(t, c).1, Total(t, c), Conflict(t, c))
      <==> Conflict(t, c) || forall i :: 0 <= i < |ts| && ts[i].instr.Failure? ==> DeadEnd(ts[i], c)
  {
    hide Times;
    SelectMeaning(ts, c);
    MisledExactly(ts, c);
  }

  // ---- preservation ----

  /** `d` accepts nothing that `c` refuses. Running the pass with `c` keeps what is counted with `d`. */
  predicate Stricter(d: Candidates, c: Candidates) {
    d == c || c.AnyOperation?
  }

  lemma WaysSumSnoc(ts: seq<Tree>, e: (Tree, Outcome), o: Outcome, r: Target, d: Candidates)
    ensures WaysSum(ts + (if e.1 == o then [e.0] else []), r, d)
         == WaysSum(ts, r, d) + if e.1 == o then Ways(e.0, r, d) else 0
  {
    hide Times;
    assert (ts + [e.0])[..|ts|] == ts && ts + [] == ts;
  }

  lemma {:induction false} WaysSumSplit(a: seq<Tree>, b: seq<Tree>, r: Target, d: Candidates)
    ensures WaysSum(a + b, r, d) == WaysSum(a, r, d) + WaysSum(b, r, d)
  {
    hide Times;
    if b == [] {
      assert a + b == a;
    } else {
      var ab := a + b;
      assert ab[..|ab| - 1] == a + b[..|b| - 1] && ab[|ab| - 1] == b[|b| - 1];
      WaysSumSplit(a, b[..|b| - 1], r, d);
    }
  }

  /** The pass keeps the number of ways to reach every derivation, and their total. */
  lemma {:induction false} EliminatePreserves(t: Tree, r: Target, c: Candidates, d: Candidates)
    requires Alternative(t, false) && Stricter(d, c)
    ensures Ways(Eliminate(t, c).0, r, d) == Ways(t, r, d)
    ensures Eliminate(t, c).1.Failed? ==> Ways(t, r, d) == 0
    decreases t, 1
  {
    hide Times;
    if c.Accepts(t.instr) {
      var n := |t.children|;
      var targets := if r.Exactly? &&
        |r.derivation.children| != n then ChildTargets(Anything, n) else ChildTargets(r, n);
      ChildrenPreserve(t.children, targets, c, d);
    }
  }

  lemma {:induction false} ChildrenPreserve(ts: seq<Tree>, rs: seq<Target>, c: Candidates, d: Candidates)
    requires |ts| == |rs| && Stricter(d, c) && AllGeneric(ts, false)
    ensures var e := EliminateChildren(ts, c);
      |e.0| == |ts| && WaysProduct(e.0, rs, d) == WaysProduct(ts, rs, d) &&
      (e.1.Failed? ==> WaysProduct(ts, rs, d) == 0)
    decreases ts, 0
  {
    hide EliminateChild, Ways, Generic, Times;
    if ts != [] {
      var n := |ts| - 1;
      var e, k := EliminateChildren(ts[..n], c), EliminateChild(ts[n], c);
      assert Generic(ts[n], false);
      GenericIsNoPrune(ts[n], false);
      ChildrenPreserve(ts[..n], rs[..n], c, d);
      ChildPreserves(ts[n], rs[n], c, d);
      assert (e.0 + [k.0])[..n] == e.0;
    }
  }

  lemma {:induction false} ChildPreserves(t: Tree, r: Target, c: Candidates, d: Candidates)
    requires Generic(t, false) && Stricter(d, c)
    ensures Ways(EliminateChild(t, c).0, r, d) == Ways(t, r, d)
    ensures EliminateChild(t, c).1.Failed? ==> Ways(t, r, d) == 0
    decreases t, 2
  {
    hide Times;
    if t.instr.Elimination? {
      ChoicePreserves(t, r, c, d);
    } else if !t.instr.Failure? {
      EliminatePreserves(t, r, c, d);
    }
  }

  lemma {:induction false} ChoicePreserves(t: Tree, r: Target, c: Candidates, d: Candidates)
    requires t.instr.Elimination? && Alternatives(t.children, false) && Stricter(d, c)
    ensures Ways(EliminateChild(t, c).0, r, d) == Ways(t, r, d)
    ensures EliminateChild(t, c).1.Failed? ==> Ways(t, r, d) == 0
    decreases t, 1
  {
    hide Alternatives, Select, Eliminate, Ways, WaysSum;
    var ambiguous, success := Select(t.children, c, Ambiguous), Select(t.children, c, Success);
    SelectPreserves(t.children, r, c, d);
    WaysSumSplit(ambiguous, success, r, d);
    ChoiceWays(t, r, d);
    ChoiceWays(EliminateChild(t, c).0, r, d);
    WaysSumShort(ambiguous, r, d);
    WaysSumShort(success, r, d);
  }

  lemma ChoiceWays(t: Tree, r: Target, d: Candidates)
    ensures t.instr.Elimination? ==> Ways(t, r, d) == WaysSum(t.children, r, d)
  {
  }

  lemma WaysSumShort(ts: seq<Tree>, r: Target, d: Candidates)
    ensures ts == [] ==> WaysSum(ts, r, d) == 0
    ensures |ts| == 1 ==> WaysSum(ts, r, d) == Ways(ts[0], r, d)
  {
    hide Ways;
    if |ts| == 1 { assert ts[..0] == []; }
  }

  lemma {:induction false} SelectPreserves(ts: seq<Tree>, r: Target, c: Candidates, d: Candidates)
    requires Stricter(d, c) && Alternatives(ts, false)
    ensures WaysSum(Select(ts, c, Ambiguous), r, d) + WaysSum(Select(ts, c, Success), r, d) == WaysSum(ts, r, d)
    decreases ts, 0
  {
    hide Times;
    if ts != [] {
      var n := |ts| - 1;
      var e := Eliminate(ts[n], c);
      SelectPreserves(ts[..n], r, c, d);
      EliminatePreserves(ts[n], r, c, d);
      SelectStep(ts, c, Ambiguous);
      SelectStep(ts, c, Success);
      WaysSumSnoc(Select(ts[..n], c, Ambiguous), e, Ambiguous, r, d);
      WaysSumSnoc(Select(ts[..n], c, Success), e, Success, r, d);
    }
  }

  // ---- the tree that is left ----

  /** What a success leaves: no choice is open, though a failure may have been left inside. */
  predicate Finished(t: Tree, c: Candidates)
    decreases t
  {
    !t.instr.Elimination? && !t.instr.Prune? && c.Accepts(t.instr) && AllFinished(t.children, c)
  }

  predicate AllFinished(ts: seq<Tree>, c: Candidates)
    decreases ts
  {
    forall i :: 0 <= i < |ts| ==> Finished(ts[i], c)
  }

  /** The shape survives the pass, and a success leaves no choice open. */
  lemma {:induction false} EliminateShape(t: Tree, c: Candidates, strict: bool)
    requires Alternative(t, strict)
    ensures var e := Eliminate(t, c);
      Alternative(e.0, strict) && (e.1.Success? ==> Finished(e.0, c))
    decreases t, 1
  {
    if c.Accepts(t.instr) {
      ChildrenShape(t.children, c, strict);
    }
  }

  lemma {:induction false} ChildrenShape(ts: seq<Tree>, c: Candidates, strict: bool)
    requires AllGeneric(ts, strict)
    ensures var e := EliminateChildren(ts, c);
      |e.0| == |ts| && AllGeneric(e.0, strict) && (e.1.Success? ==> AllFinished(e.0, c))
    decreases ts, 0
  {
    if ts != [] {
      ChildrenShape(ts[..|ts| - 1], c, strict);
      ChildShape(ts[|ts| - 1], c, strict);
    }
  }

  lemma {:induction false} ChildShape(t: Tree, c: Candidates, strict: bool)
    requires Generic(t, strict)
    ensures var e := EliminateChild(t, c);
      Generic(e.0, strict) && (e.1.Success? ==> Finished(e.0, c))
    decreases t, 2
  {
    if t.instr.Elimination? {
      var a, s := Select(t.children, c, Ambiguous), Select(t.children, c, Success);
      SelectShape(t.children, c, Ambiguous, strict);
      SelectShape(t.children, c, Success, strict);
      ChoiceIsGeneric(a, s, strict);
      if |s| == 1 { AlternativeIsGeneric(s[0], strict); }
    } else if !t.instr.Failure? {
      EliminateShape(t, c, strict);
    }
  }

  lemma {:induction false} SelectShape(ts: seq<Tree>, c: Candidates, o: Outcome, strict: bool)
    requires Alternatives(ts, strict)
    ensures Alternatives(Select(ts, c, o), strict) && (o.Success? ==> AllFinished(Select(ts, c, o), c))
    decreases ts, 0
  {
    if ts != [] {
      SelectStep(ts, c, o);
      SelectShape(ts[..|ts| - 1], c, o, strict);
      EliminateShape(ts[|ts| - 1], c, strict);
    }
  }

  /** A finished tree resolves at most once, and does exactly when no failure is left in it. */
  lemma {:induction false} FinishedTotal(t: Tree, c: Candidates)
    requires Finished(t, c)
    ensures Total(t, c) == if Resolved(t, c) then 1 else 0
    decreases t, 1
  {
    hide Times;
    FinishedProduct(t.children, c);
  }

  lemma {:induction false} FinishedProduct(ts: seq<Tree>, c: Candidates)
    requires AllFinished(ts, c)
    ensures WaysProduct(ts, ChildTargets(Anything, |ts|), c)
         == if forall i :: 0 <= i < |ts| ==> Resolved(ts[i], c) then 1 else 0
    decreases ts, 0
  {
    hide Times;
    if ts != [] {
      var n := |ts| - 1;
      assert ChildTargets(Anything, |ts|)[..n] == ChildTargets(Anything, n);
      assert ts == ts[..n] + [ts[n]];
      FinishedProduct(ts[..n], c);
      FinishedTotal(ts[n], c);
    }
  }

  /** On a tree without misleading alternatives a second run changes nothing and returns the
      same value, and no failure node heads an alternative any more. */
  lemma {:induction false} EliminateStable(t: Tree, c: Candidates)
    requires Alternative(t, false) && !t.instr.Failure? && HonestBelow(t, c)
    ensures var e := Eliminate(t, c);
      Eliminate(e.0, c) == e && (c.AnyOperation? ==> Alternative(e.0, true))
    decreases t, 1
  {
    if c.Accepts(t.instr) {
      ChildrenStable(t.children, c);
    }
  }

  lemma {:induction false} ChildrenStable(ts: seq<Tree>, c: Candidates)
    requires AllGeneric(ts, false) && AllHonest(ts, c)
    ensures var e := EliminateChildren(ts, c);
      EliminateChildren(e.0, c) == e && (c.AnyOperation? ==> AllGeneric(e.0, true))
    decreases ts, 0
  {
    if ts != [] {
      var n := |ts| - 1;
      var e, k := EliminateChildren(ts[..n], c), EliminateChild(ts[n], c);
      ChildrenStable(ts[..n], c);
      ChildStable(ts[n], c);
      assert (e.0 + [k.0])[..|e.0|] == e.0;
    }
  }

  lemma {:induction false} ChildStable(t: Tree, c: Candidates)
    requires Generic(t, false) && Honest(t, c)
    ensures var e := EliminateChild(t, c);
      !e.0.instr.Prune? && EliminateChild(e.0, c) == e && (c.AnyOperation? ==> Generic(e.0, true))
    decreases t, 2
  {
    if t.instr.Elimination? {
      var a, s := Select(t.children, c, Ambiguous), Select(t.children, c, Success);
      SelectStable(t.children, c, Ambiguous);
      SelectStable(t.children, c, Success);
      RepartitionStable(a, s, c);
      if c.AnyOperation? {
        ChoiceIsGeneric(a, s, true);
        if |s| == 1 { AlternativeIsGeneric(s[0], true); }
      }
    } else if !t.instr.Failure? {
      EliminateStable(t, c);
    }
  }

  /** Every tree in `ts` is left alone by a run, which returns `o`. */
  predicate Settled(ts: seq<Tree>, c: Candidates, o: Outcome) {
    forall i :: 0 <= i < |ts| ==>
      Alternative(ts[i], false) && !ts[i].instr.Failure? && Eliminate(ts[i], c) == (ts[i], o) &&
      (c.AnyOperation? ==> Alternative(ts[i], true))
  }

  lemma {:induction false} SelectStable(ts: seq<Tree>, c: Candidates, o: Outcome)
    requires Alternatives(ts, false) && HonestAlternatives(ts, c) && !o.Failed?
    ensures Settled(Select(ts, c, o), c, o)
    decreases ts, 0
  {
    if ts != [] {
      var t := ts[|ts| - 1];
      SelectStep(ts, c, o);
      SelectStable(ts[..|ts| - 1], c, o);
      if t.instr.Failure? {
        ChildrenMeaning(t.children, c);
      } else {
        EliminateShape(t, c, false);
        EliminateStable(t, c);
      }
    }
  }

  lemma RepartitionStable(a: seq<Tree>, s: seq<Tree>, c: Candidates)
    requires Settled(a, c, Ambiguous) && Settled(s, c, Success)
    ensures Select(a + s, c, Ambiguous) == a && Select(a + s, c, Success) == s
  {
    var ra, rs := seq(|a|, i requires 0 <= i < |a| => (a[i], Ambiguous)),
      seq(|s|, i requires 0 <= i < |s| => (s[i], Success));
    assert RunAll(a + s, c) == ra + rs;
    PickPartition(a, s);
  }

  lemma {:induction false} PickPartition(a: seq<Tree>, s: seq<Tree>)
    ensures var ra, rs := seq(|a|, i requires 0 <= i < |a| => (a[i], Ambiguous)),
        seq(|s|, i requires 0 <= i < |s| => (s[i], Success));
      Pick(ra + rs, Ambiguous) == a && Pick(ra + rs, Success) == s
    decreases |a| + |s|
  {
    var ra, rs := seq(|a|, i requires 0 <= i < |a| => (a[i], Ambiguous)),
      seq(|s|, i requires 0 <= i < |s| => (s[i], Success));
    if s != [] {
      var n := |s| - 1;
      PickPartition(a, s[..n]);
      assert (ra + rs)[..|a| + n] == ra + seq(n, i requires 0 <= i < n => (s[..n][i], Success));
      assert s == s[..n] + [s[n]];
    } else if a != [] {
      var n := |a| - 1;
      PickPartition(a[..n], s);
      assert (ra + rs)[..n] == seq(n, i requires 0 <= i < n => (a[..n][i], Ambiguous)) + rs;
      assert a == a[..n] + [a[n]];
    }
  }

  /** A finished derivation resolves to itself, once, and to nothing else; with a failure left
      inside, to nothing at all. */
  lemma {:induction false} FinishedWays(t: Tree, r: Tree, c: Candidates)
    requires Finished(t, c)
    ensures Ways(t, Exactly(r), c) == if r == t && Resolved(t, c) then 1 else 0
    decreases t, 1
  {
    hide Times;
    if t.instr == r.instr && |t.children| == |r.children| {
      FinishedMatches(t.children, r.children, c);
      assert r.children == t.children ==> r == t;
    }
  }

  lemma {:induction false} FinishedMatches(ts: seq<Tree>, rs: seq<Tree>, c: Candidates)
    requires |ts| == |rs| && AllFinished(ts, c)
    ensures WaysProduct(ts, seq(|rs|, i requires 0 <= i < |rs| => Exactly(rs[i])), c)
         == if rs == ts && forall i :: 0 <= i < |ts| ==> Resolved(ts[i], c) then 1 else 0
    decreases ts, 0
  {
    hide Ways, Finished, Resolved, Times;
    if ts != [] {
      var n := |ts| - 1;
      var targets := seq(|rs|, i requires 0 <= i < |rs| => Exactly(rs[i]));
      assert targets[..n] == seq(n, i requires 0 <= i < n => Exactly(rs[..n][i])) && targets[n] == Exactly(rs[n]);
      FinishedMatches(ts[..n], rs[..n], c);
      FinishedWays(ts[n], rs[n], c);
      SplitLast(ts, rs, c);
    }
  }

  lemma SplitLast(ts: seq<Tree>, rs: seq<Tree>, c: Candidates)
    requires |ts| == |rs| && ts != []
    ensures var n := |ts| - 1;
      (rs == ts <==> rs[..n] == ts[..n] && rs[n] == ts[n]) &&
      ((forall i :: 0 <= i < |ts| ==> Resolved(ts[i], c)) <==>
        (forall i :: 0 <= i < n ==> Resolved(ts[..n][i], c)) && Resolved(ts[n], c))
  {
    hide Resolved;
    var n := |ts| - 1;
    assert ts == ts[..n] + [ts[n]] && rs == rs[..n] + [rs[n]];
    assert forall i :: 0 <= i < n ==> ts[..n][i] == ts[i];
  }

  // ---- derivations, and the operations in them ----

  /** `d` is `t` with one alternative chosen at every elimination node, and no failure. */
  ghost predicate Picks(t: Tree, d: Tree)
    decreases t
  {
    if t.instr.Elimination? then exists i :: 0 <= i < |t.children| && Picks(t.children[i], d)
    else
      !t.instr.Failure? && !t.instr.Prune? && d.instr == t.instr && |d.children| == |t.children| &&
      forall i :: 0 <= i < |t.children| ==> Picks(t.children[i], d.children[i])
  }

  /** The operations of a tree, wherever they stand. */
  function AllOperations(t: Tree): (ids: set<nat>)
    decreases t, 1
  {
    (if t.instr.Operation? then {t.instr.id} else {}) + AllOperationsOf(t.children)
  }

  function AllOperationsOf(ts: seq<Tree>): (ids: set<nat>)
    decreases ts, 0
  {
    if ts == [] then {} else AllOperationsOf(ts[..|ts| - 1]) + AllOperations(ts[|ts| - 1])
  }

  /** Where nothing hangs below an operation, they are those `getOperations` visits. */
  predicate OperationsEnd(t: Tree)
    decreases t
  {
    (t.instr.Operation? ==> t.children == []) && forall i :: 0 <= i < |t.children| ==> OperationsEnd(t.children[i])
  }

  lemma {:induction false} OperationsVisited(t: Tree, id: nat)
    requires OperationsEnd(t)
    ensures id in Operations(t) <==> id in AllOperations(t)
    decreases t, 1
  {
    if !t.instr.Operation? { OperationsOfVisited(t.children, id); }
  }

  lemma {:induction false} OperationsOfVisited(ts: seq<Tree>, id: nat)
    requires forall i :: 0 <= i < |ts| ==> OperationsEnd(ts[i])
    ensures id in OperationsOf(ts) <==> id in AllOperationsOf(ts)
    decreases ts, 0
  {
    if ts != [] {
      OperationsOfVisited(ts[..|ts| - 1], id);
      OperationsVisited(ts[|ts| - 1], id);
    }
  }

  /** All operations of the derivation are candidates. */
  predicate Permitted(d: Tree, c: Candidates) {
    c.Only? ==> AllOperations(d) <= c.ids
  }

  predicate AllPermitted(ds: seq<Tree>, c: Candidates) {
    c.Only? ==> AllOperationsOf(ds) <= c.ids
  }

  /** A derivation is counted exactly when it is one of the tree's and made of candidates. */
  lemma {:induction false} WaysExact(t: Tree, d: Tree, c: Candidates)
    ensures Ways(t, Exactly(d), c) > 0 <==> Picks(t, d) && Permitted(d, c)
    decreases t, 1
  {
    hide Times;
    if t.instr.Elimination? {
      SumExact(t.children, d, c);
    } else if d.instr == t.instr && |d.children| == |t.children| {
      ProductExact(t.children, d.children, c);
    }
  }

  lemma {:induction false} SumExact(ts: seq<Tree>, d: Tree, c: Candidates)
    ensures WaysSum(ts, Exactly(d), c) > 0 <==>
      Permitted(d, c) && exists i :: 0 <= i < |ts| && Picks(ts[i], d)
    decreases ts, 0
  {
    hide Times;
    if ts != [] {
      var n := |ts| - 1;
      SumExact(ts[..n], d, c);
      WaysExact(ts[n], d, c);
      assert forall i :: 0 <= i < n ==> ts[..n][i] == ts[i];
    }
  }

  lemma {:induction false} ProductExact(ts: seq<Tree>, ds: seq<Tree>, c: Candidates)
    requires |ts| == |ds|
    ensures WaysProduct(ts, seq(|ds|, i requires 0 <= i < |ds| => Exactly(ds[i])), c) > 0 <==>
      AllPermitted(ds, c) && forall i :: 0 <= i < |ts| ==> Picks(ts[i], ds[i])
    decreases ts, 0
  {
    hide Times;
    if ts != [] {
      var n := |ts| - 1;
      var rs := seq(|ds|, i requires 0 <= i < |ds| => Exactly(ds[i]));
      assert rs[..n] == seq(n, i requires 0 <= i < n => Exactly(ds[..n][i]));
      ProductExact(ts[..n], ds[..n], c);
      WaysExact(ts[n], ds[n], c);
      assert forall i :: 0 <= i < n ==> ts[..n][i] == ts[i] && ds[..n][i] == ds[i];
    }
  }

  /** Counting with candidates is counting the derivations whose operations are all candidates, each in
      as many ways as without. */
  lemma {:induction false} CandidateWays(t: Tree, d: Tree, ids: set<nat>)
    ensures Ways(t, Exactly(d), Only(ids)) ==
        if AllOperations(d) <= ids then Ways(t, Exactly(d), AnyOperation) else 0
    decreases t, d, 1
  {
    hide Times;
    if t.instr.Elimination? {
      CandidateSum(t.children, d, ids);
    } else if d.instr == t.instr && |d.children| == |t.children| {
      CandidateProduct(t.children, d.children, ids);
    }
  }

  lemma {:induction false} CandidateSum(ts: seq<Tree>, d: Tree, ids: set<nat>)
    ensures WaysSum(ts, Exactly(d), Only(ids)) ==
        if AllOperations(d) <= ids then WaysSum(ts, Exactly(d), AnyOperation) else 0
    decreases ts, 0
  {
    hide Times;
    if ts != [] {
      CandidateSum(ts[..|ts| - 1], d, ids);
      CandidateWays(ts[|ts| - 1], d, ids);
    }
  }

  lemma {:induction false} CandidateProduct(ts: seq<Tree>, ds: seq<Tree>, ids: set<nat>)
    requires |ts| == |ds|
    ensures var rs := seq(|ds|, i requires 0 <= i < |ds| => Exactly(ds[i]));
      WaysProduct(ts, rs, Only(ids)) == if AllOperationsOf(ds) <= ids then WaysProduct(ts, rs, AnyOperation) else 0
    decreases ts, 0
  {
    hide Times;
    if ts != [] {
      var n := |ts| - 1;
      assert seq(|ds|, i requires 0 <= i < |ds| => Exactly(ds[i]))[..n] ==
        seq(n, i requires 0 <= i < n => Exactly(ds[..n][i]));
      CandidateProduct(ts[..n], ds[..n], ids);
      CandidateWays(ts[n], ds[n], ids);
    }
  }

  // ---- main results for generic trees ----

  /** What a success leaves, told by a caller who looks at the tree: without a failure in it, it is
      the one derivation there was; with a failure in it, there was none. */
  ghost predicate Settles(t: Tree, t': Tree, c: Candidates) {
    Finished(t', c) && Total(t, c) == (if Resolved(t', c) then 1 else 0) &&
    forall d :: Ways(t, Exactly(d), c) == if d == t' && Resolved(t', c) then 1 else 0
  }

  /** A tree can be resolved at all exactly when it has a derivation made of candidates. */
  lemma TotalExact(t: Tree, c: Candidates)
    ensures Total(t, c) > 0 <==> exists d :: Picks(t, d) && Permitted(d, c)
  {
    if Total(t, c) > 0 { var d := SomeDerivation(t, c); }
    if d :| Picks(t, d) && Permitted(d, c) { PickedCounts(t, d, c); }
  }

  lemma {:induction false} SomeDerivation(t: Tree, c: Candidates) returns (d: Tree)
    requires Total(t, c) > 0
    ensures Picks(t, d) && Permitted(d, c)
    decreases t, 1
  {
    hide Times;
    if t.instr.Elimination? {
      var i;
      i, d := SomeAlternative(t.children, c);
    } else {
      var ds := SomeDerivations(t.children, c);
      d := Node(t.instr, ds);
    }
  }

  lemma {:induction false} SomeAlternative(ts: seq<Tree>, c: Candidates) returns (i: nat, d: Tree)
    requires WaysSum(ts, Anything, c) > 0
    ensures i < |ts| && Picks(ts[i], d) && Permitted(d, c)
    decreases ts, 0
  {
    i := |ts| - 1;
    if Total(ts[i], c) > 0 {
      d := SomeDerivation(ts[i], c);
    } else {
      i, d := SomeAlternative(ts[..i], c);
    }
  }

  lemma {:induction false} SomeDerivations(ts: seq<Tree>, c: Candidates) returns (ds: seq<Tree>)
    requires WaysProduct(ts, ChildTargets(Anything, |ts|), c) > 0
    ensures |ds| == |ts| && AllPermitted(ds, c) && forall i :: 0 <= i < |ts| ==> Picks(ts[i], ds[i])
    decreases ts, 0
  {
    hide Times;
    ds := [];
    if ts != [] {
      var n := |ts| - 1;
      assert ChildTargets(Anything, |ts|)[..n] == ChildTargets(Anything, n);
      assert Times(WaysProduct(ts[..n], ChildTargets(Anything, n), c), Total(ts[n], c)) > 0;
      var before := SomeDerivations(ts[..n], c);
      var last := SomeDerivation(ts[n], c);
      ds := before + [last];
      assert ds[..n] == before && forall i :: 0 <= i < n ==> ts[..n][i] == ts[i];
    }
  }

  lemma {:induction false} PickedCounts(t: Tree, d: Tree, c: Candidates)
    requires Picks(t, d) && Permitted(d, c)
    ensures Total(t, c) > 0
    decreases t, 1
  {
    hide Times;
    if t.instr.Elimination? {
      var i :| 0 <= i < |t.children| && Picks(t.children[i], d);
      PickedSum(t.children, i, d, c);
    } else {
      PickedProduct(t.children, d.children, c);
    }
  }

  lemma {:induction false} PickedSum(ts: seq<Tree>, i: nat, d: Tree, c: Candidates)
    requires i < |ts| && Picks(ts[i], d) && Permitted(d, c)
    ensures WaysSum(ts, Anything, c) > 0
    decreases ts, 0
  {
    if i == |ts| - 1 { PickedCounts(ts[i], d, c); } else { PickedSum(ts[..|ts| - 1], i, d, c); }
  }

  lemma {:induction false} PickedProduct(ts: seq<Tree>, ds: seq<Tree>, c: Candidates)
    requires |ts| == |ds| && AllPermitted(ds, c) && forall i :: 0 <= i < |ts| ==> Picks(ts[i], ds[i])
    ensures WaysProduct(ts, ChildTargets(Anything, |ts|), c) > 0
    decreases ts, 0
  {
    hide Times;
    if ts != [] {
      var n := |ts| - 1;
      assert ChildTargets(Anything, |ts|)[..n] == ChildTargets(Anything, n);
      PickedProduct(ts[..n], ds[..n], c);
      PickedCounts(ts[n], ds[n], c);
    }
  }

  /** What a run returns, and leaves, told by the derivations of the tree alone: a failure means that
      none is made of candidates, a success that what is left is the only one, or that a failure
      is left and there is none. */
  ghost predicate Reports(t: Tree, t': Tree, o: Outcome, c: Candidates) {
    (o.Failed? ==> forall d :: Picks(t, d) ==> !Permitted(d, c)) &&
    (o.Success? ==> forall d :: Picks(t, d) && Permitted(d, c) <==> d == t' && Resolved(t', AnyOperation))
  }

  lemma {:induction false} FinishedResolves(t: Tree, c: Candidates)
    requires Finished(t, c)
    ensures Resolved(t, c) <==> Resolved(t, AnyOperation)
    decreases t
  {
    forall i | 0 <= i < |t.children| ensures Resolved(t.children[i], c) <==> Resolved(t.children[i], AnyOperation) {
      FinishedResolves(t.children[i], c);
    }
  }

  lemma ReportsExact(t: Tree, t': Tree, o: Outcome, c: Candidates)
    requires o.Failed? ==> forall r :: Ways(t, r, c) == 0
    requires o.Success? ==> Settles(t, t', c)
    ensures Reports(t, t', o, c)
  {
    hide Ways, Picks, Permitted, Finished, Resolved;
    forall d ensures Picks(t, d) && Permitted(d, c) <==> Ways(t, Exactly(d), c) > 0 { WaysExact(t, d, c); }
    if o.Success? { FinishedResolves(t', c); }
  }

  /** One run on a generic tree. Every derivation is reached in as many ways after the run as
      before, so that a failure means that there is none, several are always ambiguous, and a
      success settles the tree. Where no alternative misleads, eSuccess, eFailure and eAmbiguous are told
      apart exactly by the number of resolutions and by the presence of a conflict, a success
      leaves the one derivation there was, and a second run is a no-op. */
  lemma EliminationTheorem(t: Tree, c: Candidates)
    requires Alternative(t, false) && !t.instr.Failure?
    ensures var (t', o) := Eliminate(t, c);
      && (forall r :: Ways(t', r, c) == Ways(t, r, c))
      && (o.Failed? ==> forall r :: Ways(t, r, c) == 0)
      && (o.Success? ==> Settles(t, t', c))
      && Reports(t, t', o, c)
      && (Total(t, c) >= 2 ==> o.Ambiguous?)
      && (HonestBelow(t, c) ==> Means(o, Total(t, c), Conflict(t, c)) && Eliminate(t', c) == (t', o))
  {
    hide Times;
    var (t', o) := Eliminate(t, c);
    EliminateShape(t, c, false);
    if HonestBelow(t, c) {
      OutcomeMeaning(t, c);
      EliminateStable(t, c);
    }
    forall r ensures Ways(t', r, c) == Ways(t, r, c) && (o.Failed? ==> Ways(t, r, c) == 0) {
      EliminatePreserves(t, r, c, c);
    }
    if o.Success? {
      SuccessSettles(t, c, c);
    }
    ReportsExact(t, t', o, c);
  }

  lemma SuccessSettles(t: Tree, c: Candidates, d: Candidates)
    requires Alternative(t, false) && Stricter(d, c) && Finished(Eliminate(t, c).0, d)
    ensures Settles(t, Eliminate(t, c).0, d)
  {
    hide Times;
    var t' := Eliminate(t, c).0;
    FinishedTotal(t', d);
    EliminatePreserves(t, Anything, c, d);
    forall r ensures Ways(t, Exactly(r), d) == if r == t' && Resolved(t', d) then 1 else 0 {
      FinishedWays(t', r, d);
      EliminatePreserves(t, Exactly(r), c, d);
    }
  }

  /** The second stage after the first keeps exactly the resolutions of the ORIGINAL tree whose
      operations are all candidates, and what it settles it settles among those. Where no
      alternative misleads the first stage, its value is exact too. */
  lemma TwoStageTheorem(t: Tree, ids: set<nat>)
    requires Alternative(t, false) && !t.instr.Failure?
    ensures var t1 := Eliminate(t, AnyOperation).0;
      var (t2, o) := Eliminate(t1, Only(ids));
      && (forall r :: Ways(t2, r, Only(ids)) == Ways(t, r, Only(ids)))
      && (o.Failed? ==> forall r :: Ways(t, r, Only(ids)) == 0)
      && (o.Success? ==> Settles(t, t2, Only(ids)))
      && Reports(t, t2, o, Only(ids))
      && (Total(t, Only(ids)) >= 2 ==> o.Ambiguous?)
      && (HonestBelow(t, AnyOperation) ==> Means(o, Total(t, Only(ids)), Conflict(t1, Only(ids))))
  {
    hide Times;
    var t1 := Eliminate(t, AnyOperation).0;
    EliminateShape(t, AnyOperation, false);
    EliminationTheorem(t1, Only(ids));
    if HonestBelow(t, AnyOperation) {
      EliminateStable(t, AnyOperation);
      StrictBelow(t1, Only(ids));
    }
    forall r ensures Ways(t1, r, Only(ids)) == Ways(t, r, Only(ids)) {
      EliminatePreserves(t, r, AnyOperation, Only(ids));
    }
    var (t2, o) := Eliminate(t1, Only(ids));
    ReportsExact(t, t2, o, Only(ids));
  }

  // ---- where the returned value and the number of resolutions part ----

  /** No node but an elimination node branches: trees without a polymorphic branch. */
  predicate Linear(t: Tree)
    decreases t
  {
    t.instr.Failure? ||
    ((t.instr.Elimination? || |t.children| <= 1) && forall i :: 0 <= i < |t.children| ==> Linear(t.children[i]))
  }

  /** On those trees the returned value is the number of resolutions: none, one, or several. */
  lemma LinearOutcome(t: Tree, c: Candidates)
    requires Alternative(t, false) && !t.instr.Failure? && HonestBelow(t, c) && Linear(t)
    ensures var o := Eliminate(t, c).1;
      (o.Failed? <==> Total(t, c) == 0) && (o.Success? <==> Total(t, c) == 1) && (o.Ambiguous? <==> Total(t, c) >= 2)
  {
    hide Times;
    EliminationTheorem(t, c);
    if Conflict(t, c) { LinearConflict(t, c); }
  }

  lemma {:induction false} LinearConflict(t: Tree, c: Candidates)
    requires Linear(t) && Conflict(t, c)
    ensures Total(t, c) >= 2
    decreases t
  {
    hide Times;
    if t.instr.Elimination? {
      LinearSum(t.children, c);
    } else {
      var k := t.children;
      assert ConflictIn(k, c) && |k| == 1 && k[..|k| - 1] == [] && !ConflictIn(k[..|k| - 1], c);
      LinearConflict(k[0], c);
      assert WaysProduct(k, ChildTargets(Anything, 1), c) == Times(1, Ways(k[0], Anything, c));
    }
  }

  lemma {:induction false} LinearSum(ts: seq<Tree>, c: Candidates)
    requires forall i :: 0 <= i < |ts| ==> Linear(ts[i])
    ensures WaysSum(ts, Anything, c) >= LiveCount(ts, c)
    ensures ConflictIn(ts, c) ==> WaysSum(ts, Anything, c) >= 2
    decreases ts
  {
    hide Times;
    if ts != [] {
      LinearSum(ts[..|ts| - 1], c);
      if Conflict(ts[|ts| - 1], c) { LinearConflict(ts[|ts| - 1], c); }
    }
  }

  lemma SingletonCounts(t: Tree, r: Target, c: Candidates)
    ensures WaysSum([t], r, c) == Ways(t, r, c) && LiveCount([t], c) == (if Total(t, c) > 0 then 1 else 0)
    ensures ConflictIn([t], c) == Conflict(t, c)
  {
    hide Ways, Conflict, Total, Times;
    assert [t][..0] == [];
  }

  lemma SingletonRuns(t: Tree, c: Candidates, o: Outcome)
    ensures Select([t], c, o) == if Eliminate(t, c).1 == o then [Eliminate(t, c).0] else []
    ensures !t.instr.Prune? ==> EliminateChildren([t], c) == ([EliminateChild(t, c).0], EliminateChild(t, c).1)
  {
    hide Eliminate, EliminateChild;
    var ts := [t];
    SelectStep(ts, c, o);
    assert ts[..|ts| - 1] == [] && EliminateChildren([], c) == ([], Success) && Select([], c, o) == [];
    assert [] + [EliminateChild(t, c).0] == [EliminateChild(t, c).0];
  }

  /** With a polymorphic branch the two part: a case that cannot be resolved next to an
      ambiguous one leaves no resolution at all, and still gives eAmbiguous. */
  lemma AmbiguousWithoutResolution(reference: Variable, x: Variable, y: Variable, a: Tree, b: Tree, kids: seq<Tree>)
    requires Alternative(a, true) && Alternative(b, true)
    requires Eliminate(a, AnyOperation).1.Success? && Eliminate(b, AnyOperation).1.Success?
    ensures var t := Node(PolyBranch(reference), [
        Node(PolyCase(reference, x), [Node(Elimination, [a, b])]),
        Node(PolyCase(reference, y), [Node(Failure, kids)])]);
      Alternative(t, true) && Total(t, AnyOperation) == 0 && Eliminate(t, AnyOperation).1.Ambiguous?
  {
    hide Times;
    var choice, dead := Node(Elimination, [a, b]), Node(Failure, kids);
    var open, closed := Node(PolyCase(reference, x), [choice]), Node(PolyCase(reference, y), [dead]);
    var t := Node(PolyBranch(reference), [open, closed]);
    ChoiceIsGeneric([a], [b], true);
    assert [a] + [b] == [a, b];
    assert Generic(choice, true) && Generic(dead, true) && Generic(open, true) && Generic(closed, true);
    assert Conflict(t, AnyOperation) by {
      BothLive(a, b);
      SingletonCounts(choice, Anything, AnyOperation);
      SingletonCounts(open, Anything, AnyOperation);
      assert Conflict(choice, AnyOperation) && Conflict(open, AnyOperation) && t.children[..1] == [open];
    }
    assert Total(t, AnyOperation) == 0 by {
      DeadLast([], dead, AnyOperation);
      DeadLast([open], closed, AnyOperation);
      assert [] + [dead] == closed.children && [open] + [closed] == t.children;
    }
    StrictBelow(t, AnyOperation);
    EliminationTheorem(t, AnyOperation);
  }

  lemma DeadLast(ts: seq<Tree>, t: Tree, c: Candidates)
    requires Total(t, c) == 0
    ensures WaysProduct(ts + [t], ChildTargets(Anything, |ts| + 1), c) == 0
  {
    hide Ways, Times;
    var all, targets := ts + [t], ChildTargets(Anything, |ts| + 1);
    assert targets[|ts|] == Anything && all[|ts|] == t;
    assert WaysProduct(all, targets, c) == Times(WaysProduct(all[..|ts|], targets[..|ts|], c), Ways(t, Anything, c));
  }

  lemma BothLive(a: Tree, b: Tree)
    requires Alternative(a, true) && Alternative(b, true)
    requires Eliminate(a, AnyOperation).1.Success? && Eliminate(b, AnyOperation).1.Success?
    ensures LiveCount([a, b], AnyOperation) == 2
  {
    assert [a, b][..1] == [a];
    StrictBelow(a, AnyOperation);
    StrictBelow(b, AnyOperation);
    OutcomeMeaning(a, AnyOperation);
    OutcomeMeaning(b, AnyOperation);
    SingletonCounts(a, Anything, AnyOperation);
  }

  /** Why an alternative must not be headed by a failure: the pass is run ON that failure
      node, so it looks at the children only. The elimination has no resolution, and the pass
      reports so exactly when what hangs below the failure node fails by itself. */
  lemma FailureAlternative(kids: seq<Tree>, c: Candidates)
    ensures var t := Node(Elimination, [Node(Failure, kids)]);
      var below := EliminateChildren(kids, c);
      && Total(t, c) == 0
      && (EliminateChild(t, c).1.Failed? <==> below.1.Failed?)
      && (below.1.Success? ==> EliminateChild(t, c) == (Node(Failure, below.0), Success))
  {
    hide Times;
    var dead := Node(Failure, kids);
    SingletonCounts(dead, Anything, c);
    SingletonRuns(dead, c, Success);
    SingletonRuns(dead, c, Ambiguous);
  }

  // ---- enumeration trees ----

  /** Trees of the enumeration builder: no elimination node; a prune node is an only child,
      and none of its alternatives is headed by a choice node. */
  predicate EnumerationShape(t: Tree)
    decreases t
  {
    !t.instr.Elimination? &&
    (t.instr.Failure? ||
     forall i :: 0 <= i < |t.children| ==>
       EnumerationShape(t.children[i]) &&
       (t.instr.Prune? ==> !ChoiceNode(t.children[i].instr)) &&
       (t.children[i].instr.Prune? ==> |t.children| == 1))
  }

  /** No failure node can be reached, where a prune node needs one alternative only. */
  predicate Alive(t: Tree, c: Candidates)
    decreases t, 1
  {
    !t.instr.Failure? && c.Accepts(t.instr) &&
    if t.instr.Prune? then SomeAlive(t.children, c) else AllAlive(t.children, c)
  }

  predicate AllAlive(ts: seq<Tree>, c: Candidates)
    decreases ts, 0
  {
    ts == [] || (AllAlive(ts[..|ts| - 1], c) && Alive(ts[|ts| - 1], c))
  }

  predicate SomeAlive(ts: seq<Tree>, c: Candidates)
    decreases ts, 0
  {
    ts != [] && (SomeAlive(ts[..|ts| - 1], c) || Alive(ts[|ts| - 1], c))
  }

  /** The operations of a tree, without those of dead alternatives of prune nodes. */
  function LiveOperations(t: Tree, c: Candidates): seq<nat>
    decreases t, 1
  {
    if t.instr.Operation? then [t.instr.id] else LiveOperationsOf(t.children, t.instr.Prune?, c)
  }

  function LiveOperationsOf(ts: seq<Tree>, alternatives: bool, c: Candidates): seq<nat>
    decreases ts, 0
  {
    if ts == [] then []
    else
      var last := ts[|ts| - 1];
      LiveOperationsOf(ts[..|ts| - 1], alternatives, c)
      + if alternatives && !Alive(last, c) then [] else LiveOperations(last, c)
  }

  /** One run on an enumeration tree is never ambiguous, succeeds exactly when the tree is
      alive, and then leaves no choice node and exactly the live operations, in order. */
  lemma {:induction false} PruneTheorem(t: Tree, c: Candidates)
    requires EnumerationShape(t) && !ChoiceNode(t.instr)
    ensures var (t', o) := Eliminate(t, c);
      o == (if Alive(t, c) then Success else Failed) &&
      (o.Success? ==> Resolved(t', c) && Operations(t') == LiveOperations(t, c))
    decreases t, 1
  {
    if c.Accepts(t.instr) {
      if |t.children| == 1 && t.children[0].instr.Prune? {
        PruneBelow(t, c);
      } else {
        PruneChildren(t.children, c);
      }
    }
  }

  /** A prune node, being an only child, gives way to its live alternatives. */
  lemma {:induction false} PruneBelow(t: Tree, c: Candidates)
    requires EnumerationShape(t) && !ChoiceNode(t.instr) && c.Accepts(t.instr) && |t.children| == 1 &&
        t.children[0].instr.Prune?
    ensures var (t', o) := Eliminate(t, c);
      o == (if Alive(t, c) then Success else Failed) &&
      (o.Success? ==> Resolved(t', c) && Operations(t') == LiveOperations(t, c))
    decreases t, 0
  {
    hide Select, EnumerationShape, EliminateChildren, SomeAlive;
    var p := t.children[0];
    PruneAlternatives(t);
    PruneSelect(p.children, c);
    PruneOperations(p.children, c);
    PruneOnly(p, c);
    assert t.children == [p] && t.children[..|t.children| - 1] == [];
    assert AllAlive(t.children, c) == Alive(p, c) == SomeAlive(p.children, c);
    assert LiveOperationsOf(t.children, false, c) == [] + LiveOperations(p, c);
  }

  lemma PruneAlternatives(t: Tree)
    requires EnumerationShape(t) && !ChoiceNode(t.instr) && |t.children| == 1 && t.children[0].instr.Prune?
    ensures forall i :: 0 <= i < |t.children[0].children| ==>
      EnumerationShape(t.children[0].children[i]) && !ChoiceNode(t.children[0].children[i].instr)
  {
    assert EnumerationShape(t.children[0]);
  }

  lemma PruneOnly(p: Tree, c: Candidates)
    requires p.instr.Prune?
    ensures var live := Select(p.children, c, Success);
      EliminateChildren([p], c) == if live != [] then (live, Success) else ([Node(Prune, [])], Failed)
  {
    var live := Select(p.children, c, Success);
    assert [p][..0] == [] && [] + live == live && [] + [Node(Prune, [])] == [Node(Prune, [])];
    assert EliminateChildren([p][..0], c) == ([], Success);
  }

  lemma {:induction false} PruneSelect(ts: seq<Tree>, c: Candidates)
    requires forall i :: 0 <= i < |ts| ==> EnumerationShape(ts[i]) && !ChoiceNode(ts[i].instr)
    ensures var live := Select(ts, c, Success);
      (live != [] <==> SomeAlive(ts, c)) && Select(ts, c, Ambiguous) == [] &&
      forall i :: 0 <= i < |live| ==> Resolved(live[i], c)
    decreases ts, 0
  {
    if ts != [] {
      SelectStep(ts, c, Success);
      SelectStep(ts, c, Ambiguous);
      PruneSelect(ts[..|ts| - 1], c);
      PruneTheorem(ts[|ts| - 1], c);
    }
  }

  lemma {:induction false} PruneOperations(ts: seq<Tree>, c: Candidates)
    requires forall i :: 0 <= i < |ts| ==> EnumerationShape(ts[i]) && !ChoiceNode(ts[i].instr)
    ensures OperationsOf(Select(ts, c, Success)) == LiveOperationsOf(ts, true, c)
    decreases ts, 0
  {
    if ts != [] {
      var n := |ts| - 1;
      var e, live, rest := Eliminate(ts[n], c), Select(ts[..n], c, Success), LiveOperationsOf(ts[..n], true, c);
      SelectStep(ts, c, Success);
      PruneOperations(ts[..n], c);
      PruneTheorem(ts[n], c);
      assert live + [] == live && rest + [] == rest;
    }
  }

  lemma {:induction false} PruneChildren(ts: seq<Tree>, c: Candidates)
    requires forall i :: 0 <= i < |ts| ==> EnumerationShape(ts[i]) && !ts[i].instr.Prune?
    ensures var (ks, o) := EliminateChildren(ts, c);
      o == (if AllAlive(ts, c) then Success else Failed) &&
      (o.Success? ==>
        OperationsOf(ks) == LiveOperationsOf(ts, false, c) && forall i :: 0 <= i < |ks| ==> Resolved(ks[i], c))
    decreases ts, 0
  {
    if ts != [] {
      var n := |ts| - 1;
      PruneChildren(ts[..n], c);
      if !ts[n].instr.Failure? { PruneTheorem(ts[n], c); }
      var e, k := EliminateChildren(ts[..n], c), EliminateChild(ts[n], c);
      assert (e.0 + [k.0])[..|e.0|] == e.0;
    }
  }
}
