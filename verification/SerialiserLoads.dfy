/** What loading makes of any stream at all, written by the program or not. */
module SerialiserLoads {
  import opened SerialiserSpec

  /** The heap as a graph: the address of an element is its place. */
  function GraphOf(heap: seq<Element>): Graph {
    map i: nat | i < |heap| :: heap[i]
  }

  predicate SameKinds(before: seq<Element>, after: seq<Element>) {
    |before| <= |after| && forall i :: 0 <= i < |before| ==> after[i].kind == before[i].kind
  }

  /** The old elements are as they were, and every new one is typed and of a kind that loading creates. */
  ghost predicate Grown(before: seq<Element>, after: seq<Element>) {
    before <= after &&
    forall i :: |before| <= i < |after| ==> Creatable(after[i].kind) && WellTypedElement(GraphOf(after), after[i])
  }

  lemma FitsMore(a: seq<Element>, b: seq<Element>, p: Pointer, c: Class)
    requires SameKinds(a, b) && Fits(GraphOf(a), p, c)
    ensures Fits(GraphOf(b), p, c)
  {
  }

  lemma TypedMore(a: seq<Element>, b: seq<Element>, e: Element)
    requires SameKinds(a, b) && WellTypedElement(GraphOf(a), e)
    ensures WellTypedElement(GraphOf(b), e)
  {
    hide Fits, WellFormedData, GraphOf, SameKinds, LinkClasses;
    var cs := PointerClasses(e.kind, |e.children|);
    forall i | 0 <= i < |Pointers(e)| ensures Fits(GraphOf(b), Pointers(e)[i], cs[i]) {
      FitsMore(a, b, Pointers(e)[i], cs[i]);
    }
  }

  lemma GrownTransitive(a: seq<Element>, b: seq<Element>, c: seq<Element>)
    requires Grown(a, b) && Grown(b, c)
    ensures Grown(a, c)
  {
    hide WellTypedElement, GraphOf;
    forall i | |a| <= i < |c| ensures Creatable(c[i].kind) && WellTypedElement(GraphOf(c), c[i]) {
      if i < |b| {
        assert c[i] == b[i];
        TypedMore(b, c, b[i]);
      }
    }
  }

  lemma {:induction false} PointerLoads(ts: seq<Token>, c: Class, st: LoadState)
    requires LoadPointer(ts, c, st).Loaded?
    ensures var l := LoadPointer(ts, c, st);
      Grown(st.heap, l.state.heap) && Fits(GraphOf(l.state.heap), l.value, c)
    decreases |ts|, 0
  {
    hide WellTypedElement, IsA;
    if !ts[0].isNull && ts[1].n !in st.back {
      var id, kind := |st.heap|, ts[2].kind;
      var entered := LoadState(st.back[ts[1].n := id], st.heap + [Blank(kind)]);
      BodyLoads(ts[3..], kind, entered);
      var body := LoadBody(ts[3..], kind, entered);
      Finished(st.heap, Blank(kind), body.state.heap, body.value);
    }
  }

  /** The element whose body has been read takes the place it was given before. */
  lemma Finished(heap: seq<Element>, blank: Element, after: seq<Element>, e: Element)
    requires Grown(heap + [blank], after) && WellTypedElement(GraphOf(after), e) && e.kind == blank.kind
    requires Creatable(e.kind)
    ensures Grown(heap, after[|heap| := e])
  {
    hide WellTypedElement, GraphOf;
    var done := after[|heap| := e];
    assert after[|heap|] == (heap + [blank])[|heap|] == blank;
    forall i | |heap| <= i < |done| ensures Creatable(done[i].kind) && WellTypedElement(GraphOf(done), done[i]) {
      TypedMore(after, done, done[i]);
    }
    assert after[..|heap|] == (heap + [blank])[..|heap|] == heap;
  }

  lemma {:induction false} BodyLoads(ts: seq<Token>, k: Kind, st: LoadState)
    requires LoadBody(ts, k, st).Loaded?
    ensures var l := LoadBody(ts, k, st);
      Grown(st.heap, l.state.heap) && WellTypedElement(GraphOf(l.state.heap), l.value) && l.value.kind == k
    decreases |ts|, 3
  {
    if IsVariable(k) { FieldsLoad(ts, k, 0, st); } else { FieldsLoad(ts[1..], k, ts[0].n, st); }
  }

  lemma {:induction false} FieldsLoad(ts: seq<Token>, k: Kind, children: nat, st: LoadState)
    requires LoadFields(ts, k, children, st).Loaded? && (IsVariable(k) ==> children == 0)
    ensures var l := LoadFields(ts, k, children, st);
      Grown(st.heap, l.state.heap) && WellTypedElement(GraphOf(l.state.heap), l.value) && l.value.kind == k
    decreases |ts|, 2
  {
    hide Grown, Fits, LinkClasses, DataTypes, GraphOf, LoadList;
    ListLoads(ts, PointerClasses(k, children), st);
    var ps, l := LoadList(ts, PointerClasses(k, children), st), LoadFields(ts, k, children, st);
    assert Pointers(l.value) == ps.value;
  }

  lemma {:induction false} ListLoads(ts: seq<Token>, cs: seq<Class>, st: LoadState)
    requires LoadList(ts, cs, st).Loaded?
    ensures var l := LoadList(ts, cs, st);
      Grown(st.heap, l.state.heap) && forall i :: 0 <= i < |cs| ==> Fits(GraphOf(l.state.heap), l.value[i], cs[i])
    decreases |ts|, 1
  {
    hide Fits, WellTypedElement, GraphOf;
    if cs != [] {
      var head := LoadPointer(ts, cs[0], st);
      PointerLoads(ts, cs[0], st);
      var tail := LoadList(head.rest, cs[1..], head.state);
      ListLoads(head.rest, cs[1..], head.state);
      GrownTransitive(st.heap, head.state.heap, tail.state.heap);
      FitsMore(head.state.heap, tail.state.heap, head.value, cs[0]);
      forall i | 0 < i < |cs| ensures Fits(GraphOf(tail.state.heap), ([head.value] + tail.value)[i], cs[i]) {
        assert cs[i] == cs[1..][i - 1];
      }
    }
  }

  /** Whatever the stream, loading an invocation either fails or gives a root and a graph in which
      every field is null or points to an element of its class, no child is null, and only elements
      that the program can create occur. */
  lemma LoadIsSafe(ts: seq<Token>)
    requires LoadBody(ts, RootInstruction, EMPTY).Loaded?
    ensures var l := LoadBody(ts, RootInstruction, EMPTY);
      WellTyped(GraphOf(l.state.heap)) && WellTypedElement(GraphOf(l.state.heap), l.value) &&
      l.value.kind.RootInstruction? &&
      forall i :: 0 <= i < |l.state.heap| ==>
        var k := l.state.heap[i].kind;
        !k.RootInstruction? && !k.Failure? && !k.Elimination? && !k.Prune?
  {
    hide WellTypedElement;
    BodyLoads(ts, RootInstruction, EMPTY);
  }
}
