/** The concrete tree, and the numbering of the instances of its actions: an instance of an
    action is a number whose quotient by the local size is the instance of the parent. */
module ConcreteTree {

  /** An action or a dimension. `parent` is -1 at the root; `size` is the local domain size. */
  datatype Element = Element(action: bool, parent: int, size: nat, linked: bool)

  /** Elements by index; a parent comes before its children. */
  type Concrete = seq<Element>

  predicate WellFormed(c: Concrete) {
    |c| > 0 && c[0].parent == -1 && c[0].action &&
    (forall e :: 0 <= e < |c| ==> c[e].size >= 1) &&
    forall e :: 0 < e < |c| ==> 0 <= c[e].parent < e && c[c[e].parent].action
  }

  /** `a` is `e` or above it. */
  predicate Under(c: Concrete, e: nat, a: nat)
    requires WellFormed(c) && e < |c|
    decreases e
  {
    e == a || (e > 0 && Under(c, c[e].parent, a))
  }

  lemma {:induction false} UnderOrder(c: Concrete, e: nat, a: nat)
    requires WellFormed(c) && e < |c| && Under(c, e, a)
    ensures a <= e
    decreases e
  {
    if e != a { UnderOrder(c, c[e].parent, a); }
  }

  lemma {:induction false} UnderActions(c: Concrete, e: nat, a: nat)
    requires WellFormed(c) && e < |c| && Under(c, e, a) && c[e].action
    ensures a < |c| && c[a].action
    decreases e
  {
    if e != a { UnderActions(c, c[e].parent, a); }
  }

  // ---- numbers of instances ----

  /** The product of the local sizes from `e` up to, and without, `a`. */
  function Factor(c: Concrete, e: nat, a: nat): (f: nat)
    requires WellFormed(c) && e < |c| && Under(c, e, a)
    ensures f >= 1
    decreases e
  {
    if e == a then 1
    else
      var p := Factor(c, c[e].parent, a);
      assert c[e].size * p >= 1;
      c[e].size * p
  }

  /** How many instances an action has. */
  function TotalDomain(c: Concrete, e: nat): (t: nat)
    requires WellFormed(c) && e < |c|
    ensures t >= 1
    decreases e
  {
    if e == 0 then c[0].size
    else
      var p := TotalDomain(c, c[e].parent);
      assert p * c[e].size >= 1;
      p * c[e].size
  }

  /** The instance of `a` that instance `i` of `e` belongs to: one quotient after the other. */
  function Ancestor(c: Concrete, e: nat, a: nat, i: nat): nat
    requires WellFormed(c) && e < |c| && Under(c, e, a)
    decreases e
  {
    if e == a then i else Ancestor(c, c[e].parent, a, i / c[e].size)
  }

  lemma QuotientBound(i: nat, s: nat, a: nat)
    requires s >= 1
    ensures a <= i / s <==> a * s <= i
  {
    var q, r := i / s, i % s;
    assert i == q * s + r;
    if a <= q {
      assert a * s <= q * s;
    } else {
      assert (q + 1) * s <= a * s;
      assert (q + 1) * s == q * s + s;
    }
  }

  lemma QuotientRange(i: nat, s: nat, f: nat, j: nat)
    requires s >= 1
    ensures j * f <= i / s < (j + 1) * f <==> j * (s * f) <= i < (j + 1) * (s * f)
  {
    QuotientBound(i, s, j * f);
    QuotientBound(i, s, (j + 1) * f);
    Reorder(j, f, s);
    Reorder(j + 1, f, s);
  }

  lemma Reorder(j: nat, f: nat, s: nat)
    ensures (j * f) * s == j * (s * f)
  {
  }

  lemma Bound(j: nat, t: nat, f: nat, i: nat)
    requires f >= 1 && j * f <= i < (j + 1) * f
    ensures i < t * f <==> j < t
  {
    if j < t {
      assert (j + 1) * f <= t * f;
    } else {
      assert t * f <= j * f;
    }
  }

  /** The instances below instance `j` of an ancestor are exactly a range of numbers. */
  lemma {:induction false} AncestorRange(c: Concrete, e: nat, a: nat, i: nat, j: nat)
    requires WellFormed(c) && e < |c| && Under(c, e, a)
    ensures Ancestor(c, e, a, i) == j <==> j * Factor(c, e, a) <= i < (j + 1) * Factor(c, e, a)
    decreases e
  {
    if e == a {
      assert j * 1 == j && (j + 1) * 1 == j + 1;
    } else {
      var p, s := c[e].parent, c[e].size;
      var f := Factor(c, p, a);
      AncestorRange(c, p, a, i / s, j);
      QuotientRange(i, s, f, j);
    }
  }

  lemma {:induction false} TotalFactor(c: Concrete, e: nat, a: nat)
    requires WellFormed(c) && e < |c| && Under(c, e, a)
    ensures a < |c| && TotalDomain(c, e) == TotalDomain(c, a) * Factor(c, e, a)
    decreases e
  {
    if e == a {
      assert TotalDomain(c, a) * 1 == TotalDomain(c, a);
    } else {
      var p, s := c[e].parent, c[e].size;
      TotalFactor(c, p, a);
      Reorder(TotalDomain(c, a), Factor(c, p, a), s);
    }
  }

  /** An instance in range has its ancestors in range, and every instance in range has one below. */
  lemma AncestorInRange(c: Concrete, e: nat, a: nat, i: nat)
    requires WellFormed(c) && e < |c| && Under(c, e, a)
    ensures a < |c|
    ensures i < TotalDomain(c, e) <==> Ancestor(c, e, a, i) < TotalDomain(c, a)
  {
    TotalFactor(c, e, a);
    AncestorRange(c, e, a, i, Ancestor(c, e, a, i));
    Bound(Ancestor(c, e, a, i), TotalDomain(c, a), Factor(c, e, a), i);
  }

  // ---- sizes, as the program computes them ----

  /** Total domain sizes computed so far; the program keeps each in its action, zero meaning unknown. */
  class DomainSizes {
    const tree: Concrete
    var known: map<nat, nat>

    ghost predicate Valid()
      reads this
    {
      WellFormed(tree) && forall e :: e in known ==> e < |tree| && known[e] == TotalDomain(tree, e)
    }

    constructor (tree: Concrete)
      requires WellFormed(tree)
      ensures Valid() && this.tree == tree
    {
      this.tree, known := tree, map[];
    }

    method GetTotalDomainSize(e: nat) returns (t: nat)
      requires Valid() && e < |tree|
      modifies this
      ensures Valid() && t == TotalDomain(tree, e)
      decreases e
    {
      if e !in known {
        var p: nat := 1;
        if e > 0 {
          p := GetTotalDomainSize(tree[e].parent);
        }
        known := known[e := p * tree[e].size];
      }
      t := known[e];
    }
  }

  /** `getObjectDomainFactor`: the product of the local sizes up to the object of the action. None of
      the products on the way is larger. */
  method GetObjectDomainFactor(c: Concrete, e: nat, owner: nat) returns (f: nat, ghost products: seq<nat>)
    requires WellFormed(c) && e < |c| && Under(c, e, owner)
    ensures f == Factor(c, e, owner) && products != [] && products[0] == 1 && products[|products| - 1] == f
    ensures forall k :: 0 <= k < |products| ==> products[k] <= f
  {
    f := 1;
    var i := e;
    products := [1];
    while i != owner
      invariant 0 <= i < |c| && Under(c, i, owner) && f * Factor(c, i, owner) == Factor(c, e, owner)
      invariant products != [] && products[0] == 1 && products[|products| - 1] == f
      invariant forall k :: 0 <= k < |products| ==> products[k] <= f
      decreases i
    {
      ghost var rest := Factor(c, c[i].parent, owner);
      Reorder(f, rest, c[i].size);
      Regroup(f, c[i].size, rest);
      NotSmaller(f, c[i].size);
      f := f * c[i].size;
      products := products + [f];
      i := c[i].parent;
    }
  }

  lemma Regroup(x: nat, y: nat, z: nat)
    ensures x * (y * z) == (x * y) * z
  {
  }

  lemma NotSmaller(f: nat, s: nat)
    requires s >= 1
    ensures f <= f * s
  {
  }

  // ---- paths and common roots ----

  /** The elements from the root down to `e`. */
  function PathTo(c: Concrete, e: nat): (path: seq<nat>)
    requires WellFormed(c) && e < |c|
    ensures path != [] && path[|path| - 1] == e
    decreases e
  {
    if e == 0 then [0] else PathTo(c, c[e].parent) + [e]
  }

  function SizesOn(c: Concrete, path: seq<nat>): nat
    requires forall k :: 0 <= k < |path| ==> path[k] < |c|
  {
    if path == [] then 1 else SizesOn(c, path[..|path| - 1]) * c[path[|path| - 1]].size
  }

  lemma {:induction false} PathInside(c: Concrete, e: nat)
    requires WellFormed(c) && e < |c|
    ensures forall k :: 0 <= k < |PathTo(c, e)| ==> PathTo(c, e)[k] < |c|
    decreases e
  {
    if e > 0 { PathInside(c, c[e].parent); }
  }

  /** The number of instances is the product of the local sizes on the path from the root, the root's included. */
  lemma {:induction false} TotalIsProduct(c: Concrete, e: nat)
    requires WellFormed(c) && e < |c|
    ensures forall k :: 0 <= k < |PathTo(c, e)| ==> PathTo(c, e)[k] < |c|
    ensures TotalDomain(c, e) == SizesOn(c, PathTo(c, e))
    decreases e
  {
    PathInside(c, e);
    var path := PathTo(c, e);
    if e == 0 {
      assert path[..0] == [];
      assert SizesOn(c, path) == 1 * c[0].size == c[0].size;
    } else {
      TotalIsProduct(c, c[e].parent);
      assert path[..|path| - 1] == PathTo(c, c[e].parent);
    }
  }

  /** The lowest element above both. */
  function CommonRoot(c: Concrete, a: nat, b: nat): (r: nat)
    requires WellFormed(c) && a < |c| && b < |c|
    ensures r < |c| && Under(c, a, r) && Under(c, b, r)
    decreases a + b
  {
    if a == b then a
    else if a > b then CommonRoot(c, c[a].parent, b)
    else CommonRoot(c, a, c[b].parent)
  }

  /** Whatever is above both is above their common root. */
  lemma {:induction false} CommonRootLowest(c: Concrete, a: nat, b: nat, x: nat)
    requires WellFormed(c) && a < |c| && b < |c| && Under(c, a, x) && Under(c, b, x)
    ensures Under(c, CommonRoot(c, a, b), x)
    decreases a + b
  {
    UnderOrder(c, a, x);
    UnderOrder(c, b, x);
    if a > b { CommonRootLowest(c, c[a].parent, b, x); }
    else if b > a { CommonRootLowest(c, a, c[b].parent, x); }
  }

  lemma {:induction false} PathElement(c: Concrete, e: nat, k: nat)
    requires WellFormed(c) && e < |c| && k < |PathTo(c, e)|
    ensures var x := PathTo(c, e)[k]; x < |c| && Under(c, e, x) && PathTo(c, x) == PathTo(c, e)[..k + 1]
    decreases e
  {
    var path := PathTo(c, e);
    if k == |path| - 1 {
      assert path[..k + 1] == path;
    } else {
      PathElement(c, c[e].parent, k);
      assert path[..k + 1] == PathTo(c, c[e].parent)[..k + 1];
    }
  }

  lemma {:induction false} PathOfUnder(c: Concrete, e: nat, x: nat)
    requires WellFormed(c) && e < |c| && Under(c, e, x)
    ensures x < |c| && |PathTo(c, x)| <= |PathTo(c, e)| && PathTo(c, e)[..|PathTo(c, x)|] == PathTo(c, x)
    decreases e
  {
    if e == x {
      assert PathTo(c, e)[..|PathTo(c, e)|] == PathTo(c, e);
    } else {
      PathOfUnder(c, c[e].parent, x);
      var n := |PathTo(c, x)|;
      assert PathTo(c, e)[..n] == PathTo(c, c[e].parent)[..n];
    }
  }

  /** `findCommonRoot`: the paths from the root, and the last element they share. */
  method FindCommonRoot(c: Concrete, left: nat, right: nat) returns (r: nat)
    requires WellFormed(c) && left < |c| && right < |c|
    ensures r == CommonRoot(c, left, right)
  {
    if left == right {
      return left;
    }
    var ls := GetPath(c, left);
    var rs := GetPath(c, right);
    var i := 0;
    RootFirst(c, left);
    RootFirst(c, right);
    r := 0;
    while i < |ls| && i < |rs| && ls[i] == rs[i]
      invariant i <= |ls| && i <= |rs| && ls[..i] == rs[..i]
      invariant i > 0 ==> r == ls[i - 1]
      invariant i == 0 ==> r == 0
    {
      assert ls[..i + 1] == ls[..i] + [ls[i]] && rs[..i + 1] == rs[..i] + [rs[i]];
      r := ls[i];
      i := i + 1;
    }
    LastShared(c, left, right, i);
  }

  lemma {:induction false} RootFirst(c: Concrete, e: nat)
    requires WellFormed(c) && e < |c|
    ensures PathTo(c, e)[0] == 0
    decreases e
  {
    if e > 0 { RootFirst(c, c[e].parent); }
  }

  lemma LastShared(c: Concrete, a: nat, b: nat, i: nat)
    requires WellFormed(c) && a < |c| && b < |c|
    requires var p, q := PathTo(c, a), PathTo(c, b);
      0 < i <= |p| && i <= |q| && p[..i] == q[..i] && (i < |p| && i < |q| ==> p[i] != q[i])
    ensures PathTo(c, a)[i - 1] == CommonRoot(c, a, b)
  {
    var p, q, r := PathTo(c, a), PathTo(c, b), CommonRoot(c, a, b);
    var x := p[i - 1];
    PathElement(c, a, i - 1);
    PathElement(c, b, i - 1);
    assert q[..i][i - 1] == x;
    CommonRootLowest(c, a, b, x);
    PathOfUnder(c, a, r);
    PathOfUnder(c, b, r);
    PathOfUnder(c, r, x);
    var n := |PathTo(c, r)|;
    assert forall k :: 0 <= k < n ==> p[k] == p[..n][k] && q[k] == q[..n][k];
    assert n == i;
    assert PathTo(c, r)[n - 1] == r && PathTo(c, x)[i - 1] == x;
  }

  function PathOr(c: Concrete, i: int): seq<nat>
    requires WellFormed(c) && -1 <= i < |c|
  {
    if i == -1 then [] else PathTo(c, i)
  }

  lemma PathStep(c: Concrete, i: nat, path: seq<nat>)
    requires WellFormed(c) && i < |c|
    ensures PathOr(c, i) + path == PathOr(c, c[i].parent) + ([i] + path)
  {
    assert PathOr(c, i) == PathOr(c, c[i].parent) + [i];
  }

  /** The path built from the element upwards, each element pushed in front. */
  method GetPath(c: Concrete, e: nat) returns (path: seq<nat>)
    requires WellFormed(c) && e < |c|
    ensures path == PathTo(c, e)
  {
    path := [];
    var i: int := e;
    while i != -1
      invariant -1 <= i < |c| && PathTo(c, e) == PathOr(c, i) + path
      decreases i
    {
      PathStep(c, i, path);
      path := [i] + path;
      i := c[i].parent;
    }
  }
}
