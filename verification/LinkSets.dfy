/** The sets of contexts that links share: merged one context at a time, along base contexts. */
module LinkSets {

  type Context = nat

  /** The sets by address; a set that is shared is found under one address. */
  type SetMap = map<nat, set<Context>>

  datatype Slot = Nowhere | At(address: nat)

  predicate Holds(m: SetMap, p: nat, c: Context) {
    p in m && c in m[p]
  }

  predicate Disjoint(m: SetMap) {
    forall p, q :: p in m && q in m && p != q ==> m[p] !! m[q]
  }

  predicate Somewhere(m: SetMap, c: Context) {
    exists p :: p in m && Holds(m, p, c)
  }

  /** The set a context is in; where sets are disjoint there is at most one. */
  ghost function Find(m: SetMap, c: Context): (r: Slot)
    ensures r.At? <==> Somewhere(m, c)
    ensures r.At? ==> Holds(m, r.address, c)
  {
    if Somewhere(m, c) then
      var p :| p in m && Holds(m, p, c);
      At(p)
    else Nowhere
  }

  lemma FindOnly(m: SetMap, c: Context, p: nat)
    requires Disjoint(m) && Holds(m, p, c)
    ensures Find(m, c) == At(p)
  {
    var q := Find(m, c).address;
    assert m[p] * m[q] >= {c};
  }

  // ---- adding a context ----

  /** One base of `c`: where its set is known it is merged into the current one, which is the
      set of `c`; the first set found becomes the current one. The set merged is erased, even
      where it is the current one itself. */
  ghost function MergeBase(m: SetMap, current: Slot, c: Context, b: Context): (SetMap, Slot) {
    match Find(m, b)
    case Nowhere => (m, current)
    case At(q) =>
      match current
      case At(p) => ((if p in m then m[p := m[p] + m[q]] else m) - {q}, current)
      case Nowhere => (m[q := m[q] + {c}], At(q))
  }

  ghost function MergeBases(m: SetMap, current: Slot, c: Context, bases: seq<Context>): (SetMap, Slot) {
    if bases == [] then (m, current)
    else
      var r := MergeBases(m, current, c, bases[..|bases| - 1]);
      MergeBase(r.0, r.1, c, bases[|bases| - 1])
  }

  /** `addAction`: a context with no known base and no set of its own gets a new set, with its bases. */
  ghost function AddAction(m: SetMap, c: Context, bases: seq<Context>, address: nat): SetMap {
    var r := MergeBases(m, Find(m, c), c, bases);
    if r.1.Nowhere? then r.0[address := {c} + set b | b in bases] else r.0
  }

  datatype Declared = Declared(context: Context, bases: seq<Context>)

  ghost function CalculateSets(ds: seq<Declared>): (m: SetMap)
    ensures forall p :: p in m ==> p < |ds|
  {
    if ds == [] then map[]
    else
      var n := |ds| - 1;
      var m := CalculateSets(ds[..n]);
      AddressesKept(m, Find(m, ds[n].context), ds[n].context, ds[n].bases);
      AddAction(m, ds[n].context, ds[n].bases, n)
  }

  lemma {:induction false} AddressesKept(m: SetMap, current: Slot, c: Context, bases: seq<Context>)
    ensures MergeBases(m, current, c, bases).0.Keys <= m.Keys
  {
    if bases != [] { AddressesKept(m, current, c, bases[..|bases| - 1]); }
  }

  // ---- disjointness, for every input ----

  /** What the current set may be while the bases of `c` are merged: none, and then `c` is in no
      set; or one that holds `c`; or one that is no longer among the sets, and then `c` is in none. */
  predicate CurrentFits(m: SetMap, current: Slot, c: Context) {
    match current
    case Nowhere => !Somewhere(m, c)
    case At(p) => if p in m then c in m[p] else !Somewhere(m, c)
  }

  lemma {:induction false} MergeBasesDisjoint(m: SetMap, current: Slot, c: Context, bases: seq<Context>)
    requires Disjoint(m) && CurrentFits(m, current, c)
    ensures var r := MergeBases(m, current, c, bases);
      Disjoint(r.0) && CurrentFits(r.0, r.1, c) &&
      (r.1.Nowhere? ==> r.0 == m && current.Nowhere? && forall i :: 0 <= i < |bases| ==> !Somewhere(m, bases[i]))
  {
    if bases != [] {
      var n := |bases| - 1;
      MergeBasesDisjoint(m, current, c, bases[..n]);
      var r := MergeBases(m, current, c, bases[..n]);
      assert forall i :: 0 <= i < n ==> bases[..n][i] == bases[i];
    }
  }

  /** Whatever is added, the sets stay pairwise disjoint. */
  lemma AddActionDisjoint(m: SetMap, c: Context, bases: seq<Context>, address: nat)
    requires Disjoint(m)
    ensures Disjoint(AddAction(m, c, bases, address))
  {
    MergeBasesDisjoint(m, Find(m, c), c, bases);
    var r := MergeBases(m, Find(m, c), c, bases);
    if r.1.Nowhere? { }
  }

  lemma {:induction false} SetsDisjoint(ds: seq<Declared>)
    ensures Disjoint(CalculateSets(ds))
  {
    if ds != [] {
      var n := |ds| - 1;
      SetsDisjoint(ds[..n]);
      AddActionDisjoint(CalculateSets(ds[..n]), ds[n].context, ds[n].bases, n);
    }
  }

  /** What a shared set does: a context without a set of its own, two of whose bases are in the
      same set, ends in no set, and the set of its bases is lost with everything in it. */
  lemma SharedBasesAreLost(m: SetMap, c: Context, a: Context, b: Context, p: nat, address: nat)
    requires Disjoint(m) && !Somewhere(m, c) && Holds(m, p, a) && Holds(m, p, b)
    ensures var after := AddAction(m, c, [a, b], address);
      after == m - {p} && !Somewhere(after, c) && forall x :: x in m[p] ==> !Somewhere(after, x)
  {
    FindOnly(m, a, p);
    var m1 := m[p := m[p] + {c}];
    assert [a, b][..1] == [a] && [a][..0] == [];
    assert MergeBases(m, Nowhere, c, []) == (m, Nowhere);
    assert MergeBases(m, Nowhere, c, [a]) == (m1, At(p));
    FindOnly(m1, b, p);
    var after := AddAction(m, c, [a, b], address);
    assert after == m1[p := m1[p] + m1[p]] - {p} == m - {p};
    forall x | x in m[p] || x == c ensures !Somewhere(after, x) {
      forall q | q in after ensures !Holds(after, q, x) {
        assert m[q] !! m[p];
        assert !Holds(m, q, c);
      }
    }
  }

  // ---- connected components ----

  type Edges = set<(Context, Context)>

  predicate Joined(edges: Edges, x: Context, y: Context) {
    (x, y) in edges || (y, x) in edges
  }

  predicate IsPath(edges: Edges, path: seq<Context>) {
    path != [] && forall i :: 0 <= i < |path| - 1 ==> Joined(edges, path[i], path[i + 1])
  }

  predicate Leads(edges: Edges, path: seq<Context>, x: Context, y: Context) {
    IsPath(edges, path) && path[0] == x && path[|path| - 1] == y
  }

  ghost predicate Connected(edges: Edges, x: Context, y: Context) {
    exists path :: Leads(edges, path, x, y)
  }

  lemma ConnectedSelf(edges: Edges, x: Context)
    ensures Connected(edges, x, x)
  {
    assert Leads(edges, [x], x, x);
  }

  lemma ConnectedTransitive(edges: Edges, x: Context, y: Context, z: Context)
    requires Connected(edges, x, y) && Connected(edges, y, z)
    ensures Connected(edges, x, z)
  {
    var p :| Leads(edges, p, x, y);
    var q :| Leads(edges, q, y, z);
    var r := p + q[1..];
    forall i | 0 <= i < |r| - 1 ensures Joined(edges, r[i], r[i + 1]) {
      if i < |p| - 1 {
        assert r[i] == p[i] && r[i + 1] == p[i + 1];
      } else {
        var j := i - (|p| - 1);
        assert r[i] == q[j] && r[i + 1] == q[j + 1];
      }
    }
    assert Leads(edges, r, x, z);
  }

  lemma ConnectedSymmetric(edges: Edges, x: Context, y: Context)
    requires Connected(edges, x, y)
    ensures Connected(edges, y, x)
  {
    var p :| Leads(edges, p, x, y);
    var r := seq(|p|, i requires 0 <= i < |p| => p[|p| - 1 - i]);
    forall i | 0 <= i < |r| - 1 ensures Joined(edges, r[i], r[i + 1]) {
      assert Joined(edges, p[|p| - 2 - i], p[|p| - 2 - i + 1]);
    }
    assert Leads(edges, r, y, x);
  }

  lemma ConnectedMore(edges: Edges, more: Edges, x: Context, y: Context)
    requires edges <= more && Connected(edges, x, y)
    ensures Connected(more, x, y)
  {
    var p :| Leads(edges, p, x, y);
    forall i | 0 <= i < |p| - 1 ensures Joined(more, p[i], p[i + 1]) {
      assert Joined(edges, p[i], p[i + 1]);
    }
    assert Leads(more, p, x, y);
  }

  predicate Together(m: SetMap, x: Context, y: Context) {
    exists p :: p in m && Holds(m, p, x) && Holds(m, p, y)
  }

  /** The sets are the connected components: what an edge joins is in one set, and what is in one
      set is connected. */
  ghost predicate Components(m: SetMap, edges: Edges) {
    Disjoint(m) &&
    (forall x, y :: (x, y) in edges ==> Together(m, x, y)) &&
    forall p, x, y :: p in m && Holds(m, p, x) && Holds(m, p, y) ==> Connected(edges, x, y)
  }

  /** The two halves together: two contexts that are in some set are in the same one exactly when
      they are connected. */
  lemma ComponentsExact(m: SetMap, edges: Edges, x: Context, y: Context)
    requires Components(m, edges) && Somewhere(m, x)
    ensures Together(m, x, y) <==> Connected(edges, x, y)
  {
    if Connected(edges, x, y) {
      var path :| Leads(edges, path, x, y);
      PathTogether(m, edges, path);
    }
  }

  lemma {:induction false} PathTogether(m: SetMap, edges: Edges, path: seq<Context>)
    requires Components(m, edges) && IsPath(edges, path) && Somewhere(m, path[0])
    ensures Together(m, path[0], path[|path| - 1])
    decreases |path|
  {
    if |path| > 1 {
      var n := |path| - 1;
      PathTogether(m, edges, path[..n]);
      var p :| p in m && Holds(m, p, path[0]) && Holds(m, p, path[n - 1]);
      assert Joined(edges, path[n - 1], path[n - 1 + 1]);
      var q :| q in m && Holds(m, q, path[n - 1]) && Holds(m, q, path[n]);
      FindOnly(m, path[n - 1], p);
      FindOnly(m, path[n - 1], q);
    } else {
      var p :| p in m && Holds(m, p, path[0]);
    }
  }

  /** One base whose set is another than the current one: the components of the edges so far become
      those with the edge to the base. */
  lemma MergeBaseComponents(m: SetMap, edges: Edges, current: Slot, c: Context, b: Context)
    requires Components(m, edges) && CurrentFits(m, current, c) && (current.At? ==> current.address in m)
    requires Find(m, b).At? && Find(m, b) != current
    ensures var r := MergeBase(m, current, c, b);
      Components(r.0, edges + {(c, b)}) && r.1.At? && Holds(r.0, r.1.address, c) && Holds(r.0, r.1.address, b)
  {
    var q, more, r := Find(m, b).address, edges + {(c, b)}, MergeBase(m, current, c, b);
    var p := r.1.address;
    var own := if current.At? then m[p] else {c};
    assert r.0[p] == own + m[q];
    forall x, y | (x, y) in more ensures Together(r.0, x, y) {
      if (x, y) == (c, b) {
        assert Holds(r.0, p, x) && Holds(r.0, p, y);
      } else {
        assert Together(m, x, y);
        var s :| s in m && Holds(m, s, x) && Holds(m, s, y);
        var t := if s == q then p else s;
        assert Holds(r.0, t, x) && Holds(r.0, t, y);
      }
    }
    assert Leads(more, [c, b], c, b);
    forall x | x in own + m[q] ensures Connected(more, x, b) {
      if x in m[q] {
        ConnectedMore(edges, more, x, b);
      } else if x == c {
      } else {
        assert Holds(m, p, x) && Holds(m, p, c);
        ConnectedMore(edges, more, x, c);
        ConnectedTransitive(more, x, c, b);
      }
    }
    forall s, x, y | s in r.0 && Holds(r.0, s, x) && Holds(r.0, s, y) ensures Connected(more, x, y) {
      if s == p {
        ConnectedSymmetric(more, y, b);
        ConnectedTransitive(more, x, b, y);
      } else {
        assert Holds(m, s, x) && Holds(m, s, y);
        ConnectedMore(edges, more, x, y);
      }
    }
  }

  function BaseEdges(c: Context, bases: seq<Context>): Edges {
    set b | b in bases :: (c, b)
  }

  /** The bases are placed, in sets that differ from each other and from the context's own. */
  ghost predicate Separate(m: SetMap, c: Context, bases: seq<Context>) {
    (forall i :: 0 <= i < |bases| ==> Find(m, bases[i]).At? && Find(m, bases[i]) != Find(m, c)) &&
    forall i, j :: 0 <= i < j < |bases| ==> Find(m, bases[i]) != Find(m, bases[j])
  }

  /** The set of every base not merged yet is still as it was. */
  ghost predicate Untouched(m: SetMap, r: (SetMap, Slot), bases: seq<Context>, k: nat) {
    forall j :: k <= j < |bases| && Find(m, bases[j]).At? ==>
      var q := Find(m, bases[j]).address; r.1 != At(q) && q in r.0 && r.0[q] == m[q]
  }

  /** Merging one base touches no set of a later one. */
  lemma UntouchedStep(m: SetMap, s: (SetMap, Slot), c: Context, bases: seq<Context>, n: nat)
    requires Separate(m, c, bases) && n < |bases| && Untouched(m, s, bases, n)
    requires Find(s.0, bases[n]) == Find(m, bases[n])
    ensures Untouched(m, MergeBase(s.0, s.1, c, bases[n]), bases, n + 1)
  {
    var r := MergeBase(s.0, s.1, c, bases[n]);
    forall j | n < j < |bases| ensures var x := Find(m, bases[j]).address; r.1 != At(x) && x in r.0 && r.0[x] == m[x] {
      assert Find(m, bases[n]) != Find(m, bases[j]);
    }
  }

  lemma {:induction false} MergeBasesComponents(m: SetMap, edges: Edges, c: Context, bases: seq<Context>, k: nat)
    requires Components(m, edges) && Separate(m, c, bases) && k <= |bases|
    ensures var r := MergeBases(m, Find(m, c), c, bases[..k]);
      Components(r.0, edges + BaseEdges(c, bases[..k])) && CurrentFits(r.0, r.1, c) &&
        (r.1.At? ==> r.1.address in r.0) &&
      Untouched(m, r, bases, k) && (k > 0 ==> r.1.At?) && (r.1.Nowhere? ==> r.0 == m && k == 0)
  {
    if k == 0 {
      assert edges + BaseEdges(c, bases[..0]) == edges;
    } else {
      hide MergeBase, Somewhere;
      var n := k - 1;
      assert bases[..k][..n] == bases[..n] && bases[..k] == bases[..n] + [bases[n]];
      MergeBasesComponents(m, edges, c, bases, n);
      var s := MergeBases(m, Find(m, c), c, bases[..n]);
      FindOnly(s.0, bases[n], Find(m, bases[n]).address);
      UntouchedStep(m, s, c, bases, n);
      MergeBaseComponents(s.0, edges + BaseEdges(c, bases[..n]), s.1, c, bases[n]);
      assert edges + BaseEdges(c, bases[..n]) + {(c, bases[n])} == edges + BaseEdges(c, bases[..k]);
    }
  }

  /** Neither the context nor any base is placed. */
  ghost predicate Unplaced(m: SetMap, c: Context, bases: seq<Context>) {
    !Somewhere(m, c) && forall i :: 0 <= i < |bases| ==> !Somewhere(m, bases[i])
  }

  lemma NewSetComponents(m: SetMap, edges: Edges, c: Context, bases: seq<Context>, address: nat)
    requires Components(m, edges) && Unplaced(m, c, bases) && address !in m
    ensures Components(m[address := {c} + set b | b in bases], edges + BaseEdges(c, bases))
  {
    var fresh' := {c} + set b | b in bases;
    var after, more := m[address := fresh'], edges + BaseEdges(c, bases);
    assert forall p, x :: p in m && x in fresh' ==> !Holds(m, p, x);
    forall x, y | (x, y) in more ensures Together(after, x, y) {
      if (x, y) in edges {
        assert Together(m, x, y);
        var s :| s in m && Holds(m, s, x) && Holds(m, s, y);
        assert Holds(after, s, x) && Holds(after, s, y);
      } else {
        assert Holds(after, address, x) && Holds(after, address, y);
      }
    }
    forall p, x, y | p in after && Holds(after, p, x) && Holds(after, p, y) ensures Connected(more, x, y) {
      if p == address {
        FromContext(more, c, bases, x);
        FromContext(more, c, bases, y);
        ConnectedSymmetric(more, c, x);
        ConnectedTransitive(more, x, c, y);
      } else {
        assert Holds(m, p, x) && Holds(m, p, y);
        ConnectedMore(edges, more, x, y);
      }
    }
  }

  lemma FromContext(edges: Edges, c: Context, bases: seq<Context>, x: Context)
    requires BaseEdges(c, bases) <= edges && (x == c || x in bases)
    ensures Connected(edges, c, x)
  {
    if x == c {
      ConnectedSelf(edges, c);
    } else {
      assert (c, x) in edges;
      assert Leads(edges, [c, x], c, x);
    }
  }

  /** Adding one context whose bases are in different sets, or all unplaced like the context. */
  lemma AddActionComponents(m: SetMap, edges: Edges, c: Context, bases: seq<Context>, address: nat)
    requires Components(m, edges) && address !in m && (Separate(m, c, bases) || Unplaced(m, c, bases))
    ensures var after := AddAction(m, c, bases, address);
      Components(after, edges + BaseEdges(c, bases)) && Somewhere(after, c)
  {
    assert bases[..|bases|] == bases;
    MergeBasesDisjoint(m, Find(m, c), c, bases);
    if Unplaced(m, c, bases) {
      UnplacedMerge(m, c, bases);
      NewSetComponents(m, edges, c, bases, address);
      assert Holds(AddAction(m, c, bases, address), address, c);
    } else {
      MergeBasesComponents(m, edges, c, bases, |bases|);
      var r := MergeBases(m, Find(m, c), c, bases);
      assert r.1.At? && Holds(r.0, r.1.address, c);
    }
  }

  lemma {:induction false} UnplacedMerge(m: SetMap, c: Context, bases: seq<Context>)
    requires Unplaced(m, c, bases)
    ensures MergeBases(m, Find(m, c), c, bases) == (m, Nowhere)
  {
    if bases != [] { UnplacedMerge(m, c, bases[..|bases| - 1]); }
  }

  // ---- when adding a context goes wrong ----

  /** A context not placed yet is not placed by adding another one, unless that makes a new set. */
  lemma {:induction false} NowhereStays(m: SetMap, current: Slot, c: Context, bases: seq<Context>, x: Context)
    requires !Somewhere(m, x) && x != c
    ensures !Somewhere(MergeBases(m, current, c, bases).0, x)
  {
    if bases != [] {
      var n := |bases| - 1;
      NowhereStays(m, current, c, bases[..n], x);
      var r, s := MergeBases(m, current, c, bases[..n]), MergeBases(m, current, c, bases).0;
      assert forall p :: p in r.0 ==> !Holds(r.0, p, x);
      forall p | p in s ensures !Holds(s, p, x) {
      }
    }
  }

  /** Once the current set has been erased, the context stays in no set. */
  lemma {:induction false} DetachedStays(m: SetMap, current: Slot, c: Context, bases: seq<Context>, k: nat)
    requires Disjoint(m) && CurrentFits(m, current, c) && k <= |bases|
    requires var r := MergeBases(m, current, c, bases[..k]); r.1.At? && r.1.address !in r.0
    ensures var r := MergeBases(m, current, c, bases); r.1.At? && !Somewhere(r.0, c)
    decreases |bases| - k
  {
    if k == |bases| {
      assert bases[..k] == bases;
      MergeBasesDisjoint(m, current, c, bases);
    } else {
      assert bases[..k + 1][..k] == bases[..k];
      DetachedStays(m, current, c, bases, k + 1);
    }
  }

  /** The first base whose set is the context's own or that of an earlier base. */
  lemma {:induction false} FirstShared(m: SetMap, c: Context, bases: seq<Context>) returns (k: nat)
    requires !Separate(m, c, bases) && forall i :: 0 <= i < |bases| ==> Find(m, bases[i]).At?
    ensures k < |bases| && Separate(m, c, bases[..k])
    ensures Find(m, bases[k]) == Find(m, c) || exists i :: 0 <= i < k && Find(m, bases[i]) == Find(m, bases[k])
  {
    var n := |bases| - 1;
    assert forall i :: 0 <= i < n ==> bases[..n][i] == bases[i];
    if Separate(m, c, bases[..n]) {
      k := n;
    } else {
      k := FirstShared(m, c, bases[..n]);
      assert bases[..n][..k] == bases[..k];
    }
  }

  /** That base is by then in the set of the context, which is erased as if it were another. */
  lemma SharedIsErased(m: SetMap, edges: Edges, c: Context, bases: seq<Context>, k: nat)
    requires Components(m, edges) && k < |bases| && Find(m, bases[k]).At? && Separate(m, c, bases[..k])
    requires Find(m, bases[k]) == Find(m, c) || exists i :: 0 <= i < k && Find(m, bases[i]) == Find(m, bases[k])
    ensures var r := MergeBases(m, Find(m, c), c, bases[..k + 1]); r.1.At? && r.1.address !in r.0
  {
    var before, more := bases[..k], edges + BaseEdges(c, bases[..k]);
    var p, s := Find(m, bases[k]).address, MergeBases(m, Find(m, c), c, before);
    assert before[..k] == before;
    MergeBasesComponents(m, edges, c, before, k);
    assert Holds(m, p, bases[k]);
    if Find(m, bases[k]) == Find(m, c) {
      assert Holds(m, p, c);
      ConnectedMore(edges, more, c, bases[k]);
    } else {
      var i :| 0 <= i < k && Find(m, bases[i]) == Find(m, bases[k]);
      assert before[i] == bases[i] && Holds(m, p, bases[i]);
      ConnectedMore(edges, more, bases[i], bases[k]);
      FromContext(more, c, before, bases[i]);
      ConnectedTransitive(more, c, bases[i], bases[k]);
    }
    assert s.1.At? && Holds(s.0, s.1.address, c);
    ComponentsExact(s.0, more, c, bases[k]);
    var q :| q in s.0 && Holds(s.0, q, c) && Holds(s.0, q, bases[k]);
    FindOnly(s.0, c, q);
    FindOnly(s.0, c, s.1.address);
    FindOnly(s.0, bases[k], q);
    assert bases[..k + 1][..k] == before;
  }

  lemma EdgeLost(m: SetMap, edges: Edges, x: Context, y: Context)
    requires (x, y) in edges && (!Somewhere(m, x) || !Somewhere(m, y))
    ensures !Components(m, edges)
  {
    if Together(m, x, y) { TogetherPlaced(m, x, y); }
  }

  lemma TogetherPlaced(m: SetMap, x: Context, y: Context)
    requires Together(m, x, y)
    ensures Somewhere(m, x) && Somewhere(m, y)
  {
    var p :| p in m && Holds(m, p, x) && Holds(m, p, y);
  }

  /** Adding a context keeps the sets the components exactly when its bases are placed in
      different sets, none of them its own, or neither it nor any base is placed yet. */
  lemma AddActionExact(m: SetMap, edges: Edges, c: Context, bases: seq<Context>, address: nat)
    requires Components(m, edges) && address !in m && c !in bases
    ensures Components(AddAction(m, c, bases, address), edges + BaseEdges(c, bases))
      <==> Separate(m, c, bases) || Unplaced(m, c, bases)
  {
    if Separate(m, c, bases) || Unplaced(m, c, bases) {
      AddActionComponents(m, edges, c, bases, address);
    } else {
      AddActionWrong(m, edges, c, bases, address);
    }
  }

  lemma AddActionWrong(m: SetMap, edges: Edges, c: Context, bases: seq<Context>, address: nat)
    requires Components(m, edges) && address !in m && c !in bases
    requires !Separate(m, c, bases) && !Unplaced(m, c, bases)
    ensures !Components(AddAction(m, c, bases, address), edges + BaseEdges(c, bases))
  {
    hide Components, MergeBases, Separate, Holds;
    var after, more := AddAction(m, c, bases, address), edges + BaseEdges(c, bases);
    StartFits(m, edges, c);
    MergeBasesDisjoint(m, Find(m, c), c, bases);
    if k: nat :| k < |bases| && Find(m, bases[k]).Nowhere? {
      NowhereStays(m, Find(m, c), c, bases, bases[k]);
      EdgeLost(after, more, c, bases[k]);
    } else {
      var k := FirstShared(m, c, bases);
      SharedIsErased(m, edges, c, bases, k);
      DetachedStays(m, Find(m, c), c, bases, k + 1);
      EdgeLost(after, more, c, bases[k]);
    }
  }

  lemma StartFits(m: SetMap, edges: Edges, c: Context)
    requires Components(m, edges)
    ensures Disjoint(m) && CurrentFits(m, Find(m, c), c)
  {
  }

  function AllEdges(ds: seq<Declared>): Edges {
    if ds == [] then {} else AllEdges(ds[..|ds| - 1]) + BaseEdges(ds[|ds| - 1].context, ds[|ds| - 1].bases)
  }

  /** Every context comes when its bases are in different sets, or before it and all its bases are
      in any. */
  ghost predicate InOrder(ds: seq<Declared>) {
    ds == [] ||
    var m, d := CalculateSets(ds[..|ds| - 1]), ds[|ds| - 1];
    InOrder(ds[..|ds| - 1]) && (Separate(m, d.context, d.bases) || Unplaced(m, d.context, d.bases))
  }

  ghost predicate Right(ds: seq<Declared>) {
    Components(CalculateSets(ds), AllEdges(ds))
  }

  lemma RightStep(ds: seq<Declared>)
    requires ds != [] && Right(ds[..|ds| - 1]) && ds[|ds| - 1].context !in ds[|ds| - 1].bases
    ensures var m, d := CalculateSets(ds[..|ds| - 1]), ds[|ds| - 1];
      Right(ds) <==> Separate(m, d.context, d.bases) || Unplaced(m, d.context, d.bases)
  {
    hide AddAction, Separate, Unplaced, Components;
    var before, d := ds[..|ds| - 1], ds[|ds| - 1];
    AddActionExact(CalculateSets(before), AllEdges(before), d.context, d.bases, |ds| - 1);
  }

  /** That is exactly when the sets are, all the time, the connected components of the base
      relation so far. */
  lemma {:induction false} LinkSetsTheorem(ds: seq<Declared>)
    requires forall i :: 0 <= i < |ds| ==> ds[i].context !in ds[i].bases
    ensures InOrder(ds) <==> forall k :: 0 <= k <= |ds| ==> Right(ds[..k])
  {
    hide CalculateSets, Separate, Unplaced;
    if ds == [] {
      NothingIsRight();
    } else {
      hide Right;
      var n := |ds| - 1;
      var before := ds[..n];
      assert forall i :: 0 <= i < n ==> before[i] == ds[i];
      LinkSetsTheorem(before);
      forall k | 0 <= k <= n ensures before[..k] == ds[..k] { }
      assert before[..n] == before && ds[..|ds|] == ds;
      if Right(before) { RightStep(ds); }
    }
  }

  lemma NothingIsRight()
    ensures forall ds: seq<Declared> :: |ds| == 0 ==> Right(ds)
  {
  }

  // ---- as the program does it ----

  class LinkAnalysis {
    var sets: SetMap

    constructor ()
      ensures sets == map[]
    {
      sets := map[];
    }

    /** The first set found that holds the context. */
    method FindSet(c: Context) returns (r: Slot)
      requires Disjoint(sets)
      ensures r == Find(sets, c)
    {
      var left := sets.Keys;
      while left != {}
        invariant left <= sets.Keys && forall p :: p in sets && p !in left ==> !Holds(sets, p, c)
        decreases |left|
      {
        var p :| p in left;
        if c in sets[p] {
          FindOnly(sets, c, p);
          return At(p);
        }
        left := left - {p};
      }
      r := Nowhere;
    }

    method Add(c: Context, bases: seq<Context>, address: nat)
      requires Disjoint(sets)
      modifies this
      ensures Disjoint(sets) && sets == AddAction(old(sets), c, bases, address)
    {
      ghost var m := sets;
      AddActionDisjoint(m, c, bases, address);
      var current := FindSet(c);
      ghost var own := current;
      var i := 0;
      while i != |bases|
        invariant i <= |bases| && Disjoint(sets) && CurrentFits(sets, current, c)
        invariant (sets, current) == MergeBases(m, own, c, bases[..i])
      {
        assert bases[..i + 1][..i] == bases[..i];
        var found := FindSet(bases[i]);
        if found.At? {
          var q := found.address;
          if current.At? {
            var p := current.address;
            if p in sets {
              sets := sets[p := sets[p] + sets[q]];
            }
            sets := sets - {q};
          } else {
            current := found;
            sets := sets[q := sets[q] + {c}];
          }
        }
        i := i + 1;
      }
      assert bases[..i] == bases;
      if current.Nowhere? {
        sets := sets[address := {c} + set b | b in bases];
      }
    }

    /** `calculateSets`; contexts that are links are left out by the caller. */
    method Calculate(ds: seq<Declared>)
      modifies this
      ensures sets == CalculateSets(ds) && Disjoint(sets)
    {
      sets := map[];
      var i := 0;
      while i != |ds|
        invariant i <= |ds| && Disjoint(sets) && sets == CalculateSets(ds[..i])
      {
        assert ds[..i + 1][..i] == ds[..i];
        Add(ds[i].context, ds[i].bases, i);
        i := i + 1;
      }
      assert ds[..i] == ds;
    }
  }
}
