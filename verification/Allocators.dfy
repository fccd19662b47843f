/** The allocators of instance numbers: a ring of free numbers, and two bit masks. */
module Allocators {
  import opened Sequences

  type Instance = nat

  predicate HoldsAll(s: seq<Instance>, n: nat) {
    forall i :: 0 <= i < n ==> i in s
  }

  // ---- the queue of free instances ----

  datatype Command = Allocate | Free(instance: Instance)

  /** Allocating takes the number `nextFree` gives; only an allocated number may be freed. */
  predicate Legal(free: seq<Instance>, size: nat, c: Command) {
    match c
    case Allocate => free != []
    case Free(i) => i < size && i !in free
  }

  function Apply(free: seq<Instance>, c: Command): seq<Instance>
    requires c.Allocate? ==> free != []
  {
    match c
    case Allocate => free[1..]
    case Free(i) => free + [i]
  }

  predicate LegalRun(free: seq<Instance>, size: nat, cs: seq<Command>)
    decreases |cs|
  {
    cs == [] || (Legal(free, size, cs[0]) && LegalRun(Apply(free, cs[0]), size, cs[1..]))
  }

  function Run(free: seq<Instance>, size: nat, cs: seq<Command>): seq<Instance>
    requires LegalRun(free, size, cs)
    decreases |cs|
  {
    if cs == [] then free else Run(Apply(free, cs[0]), size, cs[1..])
  }

  /** The instances handed out by a run, in order. */
  function Issued(free: seq<Instance>, size: nat, cs: seq<Command>): seq<Instance>
    requires LegalRun(free, size, cs)
    decreases |cs|
  {
    if cs == [] then []
    else (if cs[0].Allocate? then [free[0]] else []) + Issued(Apply(free, cs[0]), size, cs[1..])
  }

  function Freed(cs: seq<Command>): seq<Instance>
    decreases |cs|
  {
    if cs == [] then [] else (if cs[0].Free? then [cs[0].instance] else []) + Freed(cs[1..])
  }

  /** Nothing is lost, nothing is issued twice without being freed between, and instances are
      issued in the order they became free: what was free, followed by what is freed, is what is
      issued, followed by what is left. */
  lemma {:induction false} FirstFreeFirstIssued(free: seq<Instance>, size: nat, cs: seq<Command>)
    requires LegalRun(free, size, cs)
    ensures free + Freed(cs) == Issued(free, size, cs) + Run(free, size, cs)
    ensures NoDuplicates(free) ==> NoDuplicates(Run(free, size, cs))
    decreases |cs|
  {
    hide NoDuplicates;
    if cs == [] {
      assert free + [] == free && [] + free == free;
    } else {
      var next := Apply(free, cs[0]);
      FirstFreeFirstIssued(next, size, cs[1..]);
      if NoDuplicates(free) { StaysDistinct(free, size, cs[0]); }
      OneStep(free, cs[0], Freed(cs[1..]), Issued(next, size, cs[1..]), Run(next, size, cs[1..]));
    }
  }

  lemma StaysDistinct(free: seq<Instance>, size: nat, c: Command)
    requires Legal(free, size, c) && NoDuplicates(free)
    ensures NoDuplicates(Apply(free, c))
  {
  }

  /** A command moves the first instance to the front of what is issued, or adds one to what was free. */
  lemma OneStep(free: seq<Instance>, c: Command, freed: seq<Instance>, issued: seq<Instance>, left: seq<Instance>)
    requires (c.Allocate? ==> free != []) && Apply(free, c) + freed == issued + left
    ensures free + ((if c.Free? then [c.instance] else []) + freed) ==
        ((if c.Allocate? then [free[0]] else []) + issued) + left
  {
    var next := Apply(free, c);
    match c
    case Allocate =>
      assert free + ([] + freed) == [free[0]] + (next + freed);
      assert ([free[0]] + issued) + left == [free[0]] + (issued + left);
    case Free(i) =>
      assert free + ([i] + freed) == next + freed;
      assert ([] + issued) + left == issued + left;
  }

  // ---- the ring ----

  function Succ(i: nat, size: nat): (j: nat)
    requires i < size
    ensures j < size
  {
    if i == size - 1 then 0 else i + 1
  }

  /** The cell `k` steps after `i` in the ring. */
  function Cell(i: nat, k: nat, size: nat): (j: nat)
    requires i < size && k <= size
    ensures j < size
  {
    if i + k < size then i + k else i + k - size
  }

  function Count(head: nat, tail: nat, full: bool, size: nat): (n: nat)
    requires head < size && tail < size
  {
    if full then 0 else if head < tail then tail - head else tail + size - head
  }

  /** The numbers in the cells after `head` up to `tail`, around the ring. */
  function FreeCells(ring: seq<Instance>, head: nat, n: nat): (free: seq<Instance>)
    requires head < |ring| && n <= |ring|
    ensures |free| == n
  {
    seq(n, k requires 0 <= k < n => ring[Cell(head, k + 1, |ring|)])
  }

  class RingAllocator {
    const ring: array<Instance>
    var head: nat
    var tail: nat
    var full: bool

    ghost predicate Valid()
      reads this, ring
    {
      head < ring.Length && tail < ring.Length && (full ==> head == tail) && NoDuplicates(FreeList()) &&
      forall k :: 0 <= k < |FreeList()| ==> FreeList()[k] < ring.Length
    }

    /** The instances that are free, the one to be issued first in front. */
    ghost function FreeList(): (free: seq<Instance>)
      reads this, ring
      requires head < ring.Length && tail < ring.Length
    {
      FreeCells(ring[..], head, Count(head, tail, full, ring.Length))
    }

    constructor (size: nat)
      requires size > 64
      ensures Valid() && fresh(ring) && ring.Length == size
      ensures |FreeList()| == size && HoldsAll(FreeList(), size)
      ensures forall k :: 0 <= k < size ==> FreeList()[k] == if k == size - 1 then 0 else k + 1
    {
      ring := new Instance[size](i => i);
      head, tail, full := 0, 0, false;
      new;
      forall i | 0 <= i < size ensures i in FreeList() {
        assert FreeList()[if i == 0 then size - 1 else i - 1] == i;
      }
    }

    method NextFree() returns (i: Instance)
      requires Valid()
      ensures i == if FreeList() == [] then ring.Length else FreeList()[0]
    {
      if !full {
        var h := head;
        if h == ring.Length - 1 { h := 0; } else { h := h + 1; }
        return ring[h];
      }
      i := ring.Length;
    }

    /** The argument is not looked at: the front of the queue is taken. */
    method Allocate(i: Instance)
      requires Valid() && FreeList() != [] && i == FreeList()[0]
      modifies this
      ensures Valid() && FreeList() == Apply(old(FreeList()), Command.Allocate)
    {
      ghost var was := FreeList();
      head := Succ(head, ring.Length);
      if head == tail { full := true; }
      assert FreeList() == was[1..];
    }

    method Free(i: Instance)
      requires Valid() && i < ring.Length && i !in FreeList()
      modifies this, ring
      ensures Valid() && FreeList() == Apply(old(FreeList()), Command.Free(i))
    {
      ghost var was, cells, h := FreeList(), ring[..], head;
      NotAllFree(was, ring.Length, i);
      if full { full := false; }
      tail := Succ(tail, ring.Length);
      ring[tail] := i;
      FreedCell(cells, ring[..], h, |was|, i);
    }

    method Empty() returns (b: bool)
      requires Valid()
      ensures b <==> HoldsAll(FreeList(), ring.Length)
    {
      b := !full && head == tail;
      ghost var free := FreeList();
      if b { AllFree(free, ring.Length); } else { SomeMissing(free, ring.Length); }
    }

    method Full() returns (b: bool)
      requires Valid()
      ensures b <==> FreeList() == []
    {
      b := full;
    }
  }

  function Below(n: nat): (s: set<nat>)
    ensures forall i: nat :: i in s <==> i < n
    ensures |s| == n
  {
    if n == 0 then {} else Below(n - 1) + {n - 1}
  }

  function Members(s: seq<Instance>): (m: set<Instance>)
    ensures forall x :: x in m <==> x in s
    ensures NoDuplicates(s) ==> |m| == |s|
  {
    if s == [] then {}
    else
      assert s == s[..|s| - 1] + [s[|s| - 1]];
      Members(s[..|s| - 1]) + {s[|s| - 1]}
  }

  lemma Subset(a: set<nat>, b: set<nat>)
    requires a <= b
    ensures |a| <= |b| && (|a| == |b| ==> a == b)
  {
    var d := b - a;
    assert b == a + d && |b| == |a| + |d|;
    if d == {} { assert a == b; }
  }

  /** As many different numbers below `n` as there are: all of them. */
  lemma AllFree(s: seq<Instance>, n: nat)
    requires NoDuplicates(s) && |s| == n && forall k :: 0 <= k < |s| ==> s[k] < n
    ensures HoldsAll(s, n)
  {
    assert forall x :: x in s ==> x < n;
    Subset(Members(s), Below(n));
  }

  /** Fewer numbers than there are cannot be all. */
  lemma SomeMissing(s: seq<Instance>, n: nat)
    requires NoDuplicates(s) && |s| < n
    ensures !HoldsAll(s, n)
  {
    if HoldsAll(s, n) { Subset(Below(n), Members(s)); }
  }

  lemma NotAllFree(s: seq<Instance>, n: nat, i: Instance)
    requires NoDuplicates(s) && i < n && i !in s && forall k :: 0 <= k < |s| ==> s[k] < n
    ensures |s| < n
  {
    assert forall x :: x in s ==> x < n;
    Subset(Members(s) + {i}, Below(n));
  }

  /** Writing the cell after the last free one adds its number at the end of the queue. */
  lemma FreedCell(before: seq<Instance>, after: seq<Instance>, head: nat, n: nat, i: Instance)
    requires head < |before| && n < |before| && after == before[Cell(head, n + 1, |before|) := i]
    ensures FreeCells(after, head, n + 1) == FreeCells(before, head, n) + [i]
  {
  }

  // ---- the bit masks ----

  /** `_BitScanForward`: the least set bit. */
  method BitScanForward(mask: seq<bool>) returns (found: bool, index: nat)
    ensures found <==> true in mask
    ensures found ==> index < |mask| && mask[index] && forall j :: 0 <= j < index ==> !mask[j]
  {
    index := 0;
    while index != |mask| && !mask[index]
      invariant index <= |mask| && forall j :: 0 <= j < index ==> !mask[j]
    {
      index := index + 1;
    }
    found := index != |mask|;
  }

  /** `i` is the least free instance, or the size where there is none. */
  predicate LeastFree(bits: seq<bool>, i: Instance) {
    i <= |bits| && (i < |bits| ==> bits[i]) && forall j :: 0 <= j < i ==> !bits[j]
  }

  /** A set bit is a free instance. */
  class BitmaskAllocator {
    var bits: seq<bool>

    /** The free instances. */
    ghost function FreeSet(): (free: set<Instance>)
      reads this
    {
      set i | 0 <= i < |bits| && bits[i]
    }

    constructor (size: nat)
      requires size <= 64
      ensures |bits| == size && FreeSet() == Below(size)
    {
      bits := seq(size, _ => true);
    }

    /** Up to 32 instances: one scan. */
    method NextFree32() returns (i: Instance)
      requires |bits| <= 32
      ensures LeastFree(bits, i) && (i < |bits| <==> FreeSet() != {})
      ensures i < |bits| ==> i in FreeSet() && forall j :: j in FreeSet() ==> i <= j
    {
      var found, index := BitScanForward(bits);
      i := if found then index else |bits|;
      assert i < |bits| ==> i in FreeSet();
    }

    /** Up to 64 instances: one scan of the low word, and one of the high word. */
    method NextFree64() returns (i: Instance)
      requires 32 < |bits| <= 64
      ensures LeastFree(bits, i) && (i < |bits| <==> FreeSet() != {})
      ensures i < |bits| ==> i in FreeSet() && forall j :: j in FreeSet() ==> i <= j
    {
      var found, index := BitScanForward(bits[..32]);
      if found {
        i := index;
      } else {
        assert forall j :: 0 <= j < 32 ==> bits[j] == bits[..32][j];
        var high := bits[32..];
        found, index := BitScanForward(high);
        i := if found then index + 32 else |bits|;
        assert forall j :: 32 <= j < |bits| ==> bits[j] == high[j - 32];
      }
      assert i < |bits| ==> i in FreeSet();
    }

    method Allocate(i: Instance)
      requires i < |bits|
      modifies this
      ensures |bits| == old(|bits|) && FreeSet() == old(FreeSet()) - {i}
    {
      bits := bits[i := false];
    }

    method Free(i: Instance)
      requires i < |bits|
      modifies this
      ensures |bits| == old(|bits|) && FreeSet() == old(FreeSet()) + {i}
    {
      bits := bits[i := true];
    }

    method Empty() returns (b: bool)
      ensures b <==> FreeSet() == Below(|bits|)
    {
      b := !(false in bits);
      if b {
        assert forall i :: 0 <= i < |bits| ==> bits[i];
      } else {
        var i :| 0 <= i < |bits| && !bits[i];
        assert i !in FreeSet() && i in Below(|bits|);
      }
    }

    method Full() returns (b: bool)
      ensures b <==> FreeSet() == {}
    {
      b := !(true in bits);
      if !b {
        var i :| 0 <= i < |bits| && bits[i];
        assert i in FreeSet();
      }
    }
  }
}
