/** What the AST serialiser writes and reads: a shared, possibly cyclic graph as a token
    stream with back references numbered on first visit. */
module SerialiserSpec {

  // ---- the graph ----

  type Id = nat                                   // the address of an element

  datatype Pointer = Null | To(id: Id)

  datatype Kind =
    | InstanceVariable | ReferenceVariable | DimensionVariable | ContextVariable
    | RootInstruction | ParentDerivation | ChildDerivation | EnumDerivation | Enumeration
    | Failure | Elimination | Prune | DimensionReferenceRead | MonoReference | PolyReference | PolyCase
    | CallOperation | StartOperation | StopOperation | PauseOperation | ResumeOperation | DoneOperation
    | WaitActionOperation | WaitDimensionOperation | GetActionOperation | GetDimensionOperation
    | ReadOperation | WriteOperation | WriteLinkOperation | RangeOperation

  /** A field that is no pointer to an AST element: an object reference, a vector of object
      references, or a number. */
  datatype Datum = Object(ref: nat) | Objects(refs: seq<nat>) | Number(value: int)
  datatype DatumType = AnObject | AVector | ANumber

  /** `links` and `data` are the fields the class stores, in storing order; `unsaved` stands
      for the fields it has but does not store. */
  datatype Element = Element(kind: Kind, children: seq<Id>, links: seq<Pointer>, data: seq<Datum>, unsaved: seq<nat>)

  type Graph = map<Id, Element>

  predicate IsVariable(k: Kind) {
    k.InstanceVariable? || k.ReferenceVariable? || k.DimensionVariable? || k.ContextVariable?
  }

  predicate IsOperation(k: Kind) {
    k.CallOperation? || k.StartOperation? || k.StopOperation? || k.PauseOperation? || k.ResumeOperation? ||
    k.DoneOperation? || k.WaitActionOperation? || k.WaitDimensionOperation? || k.GetActionOperation? ||
    k.GetDimensionOperation? || k.ReadOperation? || k.WriteOperation? || k.WriteLinkOperation? || k.RangeOperation?
  }

  /** `store` writes the base class part and then throws. */
  predicate ThrowsOnStore(k: Kind) {
    k.Failure? || k.Elimination? || k.Prune?
  }

  /** `load` creates an element of this kind when it meets the kind in the stream. */
  predicate Creatable(k: Kind) {
    !k.RootInstruction? && !ThrowsOnStore(k)
  }

  /** The static types of pointer fields; `AChild` is the non-null instruction pointer of a child list. */
  datatype Class = AnyVariable | AnInstance | AReference | ADimensionReference | AContext | AChild

  predicate IsA(k: Kind, c: Class) {
    match c
    case AnyVariable => IsVariable(k)
    case AnInstance => k.InstanceVariable?
    case AReference => k.ReferenceVariable? || k.DimensionVariable? || k.ContextVariable?
    case ADimensionReference => k.DimensionVariable?
    case AContext => k.ContextVariable?
    case AChild => !IsVariable(k)
  }

  function LinkClasses(k: Kind): seq<Class> {
    match k
    case InstanceVariable | ReferenceVariable | DimensionVariable | ContextVariable => [AnyVariable]
    case RootInstruction => [AContext]
    case ParentDerivation | ChildDerivation | EnumDerivation => [AnInstance, AnInstance]
    case Enumeration => [AnInstance]
    case Failure | Elimination | Prune => []
    case DimensionReferenceRead => [AnInstance, ADimensionReference]
    case MonoReference => [AReference, AnInstance]
    case PolyReference => [AReference]
    case PolyCase => [AReference, AnInstance]
    case _ => [AnInstance]
  }

  function DataTypes(k: Kind): seq<DatumType> {
    match k
    case InstanceVariable => [AnObject]
    case ReferenceVariable => [AVector]
    case RootInstruction => [ANumber]
    case Enumeration => [AVector, ANumber]
    case DimensionReferenceRead => [AnObject]
    case WriteLinkOperation => [AnObject, AnObject, AnObject]
    case RangeOperation => [AnObject, AnObject, ANumber]
    case _ => if IsOperation(k) then [AnObject, AnObject] else []
  }

  predicate HasType(d: Datum, t: DatumType) {
    match t
    case AnObject => d.Object?
    case AVector => d.Objects?
    case ANumber => d.Number?
  }

  /** Every pointer an element stores, in storing order, and the static types of those fields. */
  function Pointers(e: Element): seq<Pointer> {
    seq(|e.children|, i requires 0 <= i < |e.children| => To(e.children[i])) + e.links
  }

  function PointerClasses(k: Kind, children: nat): seq<Class> {
    seq(children, _ => AChild) + LinkClasses(k)
  }

  predicate Fits(g: Graph, p: Pointer, c: Class) {
    match p
    case Null => !c.AChild?
    case To(id) => id in g && IsA(g[id].kind, c)
  }

  /** What the C++ types guarantee: pointers are null or point to live elements of their class. */
  ghost predicate WellTyped(g: Graph) {
    forall id {:trigger WellTypedElement(g, g[id])} :: id in g ==> WellTypedElement(g, g[id])
  }

  predicate WellFormedData(e: Element) {
    (IsVariable(e.kind) ==> e.children == []) &&
    |e.data| == |DataTypes(e.kind)| && forall i :: 0 <= i < |e.data| ==> HasType(e.data[i], DataTypes(e.kind)[i])
  }

  predicate WellTypedElement(g: Graph, e: Element) {
    WellFormedData(e) && |e.links| == |LinkClasses(e.kind)| &&
    forall i :: 0 <= i < |Pointers(e)| ==> Fits(g, Pointers(e)[i], PointerClasses(e.kind, |e.children|)[i])
  }

  predicate PlainOperation(k: Kind) {
    k.CallOperation? || k.StartOperation? || k.StopOperation? || k.PauseOperation? || k.ResumeOperation? ||
    k.DoneOperation? || k.WaitActionOperation? || k.WaitDimensionOperation? || k.GetActionOperation? ||
    k.GetDimensionOperation? || k.ReadOperation? || k.WriteOperation?
  }

  /** What each class stores besides its children: so many pointers, and this data. */
  lemma StoredFields(g: Graph, e: Element)
    requires WellTypedElement(g, e)
    ensures e.kind.InstanceVariable? ==> |e.links| == 1 && |e.data| == 1 && e.data[0].Object?
    ensures e.kind.ReferenceVariable? ==> |e.links| == 1 && |e.data| == 1 && e.data[0].Objects?
    ensures e.kind.DimensionVariable? || e.kind.ContextVariable? ==> |e.links| == 1 && e.data == []
    ensures e.kind.RootInstruction? ==> |e.links| == 1 && |e.data| == 1 && e.data[0].Number?
    ensures e.kind.ParentDerivation? || e.kind.ChildDerivation? || e.kind.EnumDerivation? ==>
      |e.links| == 2 && e.data == []
    ensures e.kind.MonoReference? || e.kind.PolyCase? ==> |e.links| == 2 && e.data == []
    ensures e.kind.PolyReference? ==> |e.links| == 1 && e.data == []
    ensures e.kind.DimensionReferenceRead? ==> |e.links| == 2 && |e.data| == 1 && e.data[0].Object?
    ensures e.kind.Enumeration? ==> |e.links| == 1 && |e.data| == 2 && e.data[0].Objects? && e.data[1].Number?
    ensures e.kind.Failure? || e.kind.Elimination? || e.kind.Prune? ==> e.links == [] && e.data == []
    ensures PlainOperation(e.kind) ==> |e.links| == 1 && |e.data| == 2 && e.data[0].Object? && e.data[1].Object?
    ensures e.kind.WriteLinkOperation? ==>
      |e.links| == 1 && |e.data| == 3 && e.data[0].Object? && e.data[1].Object? && e.data[2].Object?
    ensures e.kind.RangeOperation? ==>
      |e.links| == 1 && |e.data| == 3 && e.data[0].Object? && e.data[1].Object? && e.data[2].Number?
  {
  }

  // ---- storing ----

  datatype Token = Flag(isNull: bool) | Size(n: nat) | Type(kind: Kind) | Data(datum: Datum)

  /** The address map after storing and what was written; or the element whose `store` threw. */
  datatype Stored = Stored(addr: map<Id, nat>, tokens: seq<Token>) | Thrown(culprit: Id)

  function DataTokens(data: seq<Datum>): (ts: seq<Token>)
    ensures |ts| == |data|
  {
    seq(|data|, i requires 0 <= i < |data| => Data(data[i]))
  }

  predicate Covers(addr: map<Id, nat>, ps: seq<Pointer>) {
    forall i :: 0 <= i < |ps| ==> ps[i].To? ==> ps[i].id in addr
  }

  function StorePointer(g: Graph, p: Pointer, addr: map<Id, nat>): (s: Stored)
    requires WellTyped(g) && addr.Keys <= g.Keys && (p.To? ==> p.id in g)
    ensures s.Stored? ==> addr.Keys <= s.addr.Keys <= g.Keys && Covers(s.addr, [p])
    decreases g.Keys - addr.Keys, 1, 0
  {
    if p.Null? then Stored(addr, [Flag(true)])
    else if p.id in addr then Stored(addr, [Flag(false), Size(addr[p.id])])
    else
      var added := addr[p.id := |addr|];
      assert p.id in g.Keys - addr.Keys;
      var body := StoreBody(g, g[p.id], p.id, added);
      if body.Thrown? then body
      else Stored(body.addr, [Flag(false), Size(|addr|), Type(g[p.id].kind)] + body.tokens)
  }

  /** The virtual `store` of an element: child count and children, links, data. */
  function StoreBody(g: Graph, e: Element, id: Id, addr: map<Id, nat>): (s: Stored)
    requires WellTyped(g) && addr.Keys <= g.Keys && WellTypedElement(g, e)
    ensures s.Stored? ==> addr.Keys <= s.addr.Keys <= g.Keys && Covers(s.addr, Pointers(e))
    decreases g.Keys - addr.Keys, 2, 0
  {
    var ps := StoreList(g, Pointers(e), addr);
    if ps.Thrown? then ps
    else if ThrowsOnStore(e.kind) then Thrown(id)
    else Stored(ps.addr, Header(e) + ps.tokens + DataTokens(e.data))
  }

  function Header(e: Element): seq<Token> {
    if IsVariable(e.kind) then [] else [Size(|e.children|)]
  }

  function StoreList(g: Graph, ps: seq<Pointer>, addr: map<Id, nat>): (s: Stored)
    requires WellTyped(g) && addr.Keys <= g.Keys && forall i :: 0 <= i < |ps| ==> ps[i].To? ==> ps[i].id in g
    ensures s.Stored? ==> addr.Keys <= s.addr.Keys <= g.Keys && Covers(s.addr, ps)
    decreases g.Keys - addr.Keys, 1, |ps|
  {
    if ps == [] then Stored(addr, [])
    else
      var head := StorePointer(g, ps[0], addr);
      if head.Thrown? then head
      else
        var tail := StoreList(g, ps[1..], head.addr);
        assert Covers(head.addr, [ps[0]]) && ps[0] == [ps[0]][0];
        if tail.Thrown? then tail else Stored(tail.addr, head.tokens + tail.tokens)
  }

  // ---- loading ----

  /** `back` is the index map, `heap` the elements created so far, in order; the address of an
      element is its place there. */
  datatype LoadState = LoadState(back: map<nat, Id>, heap: seq<Element>)

  datatype Loaded<T> = Loaded(value: T, state: LoadState, rest: seq<Token>) | LoadError

  function Blank(k: Kind): Element {
    Element(k, [], [], [], [])
  }

  function LoadPointer(ts: seq<Token>, c: Class, st: LoadState): (l: Loaded<Pointer>)
    ensures l.Loaded? ==> |l.rest| < |ts| && |st.heap| <= |l.state.heap| && (c.AChild? ==> l.value.To?)
    decreases |ts|, 0
  {
    if |ts| < 1 || !ts[0].Flag? then LoadError
    else if ts[0].isNull then (if c.AChild? then LoadError else Loaded(Null, st, ts[1..]))
    else if |ts| < 2 || !ts[1].Size? then LoadError
    else if ts[1].n in st.back then
      var id := st.back[ts[1].n];
      if id < |st.heap| && IsA(st.heap[id].kind, c) then Loaded(To(id), st, ts[2..]) else LoadError
    else if |ts| < 3 || !ts[2].Type? || !Creatable(ts[2].kind) then LoadError
    else
      var id, kind := |st.heap|, ts[2].kind;
      var body := LoadBody(ts[3..], kind, LoadState(st.back[ts[1].n := id], st.heap + [Blank(kind)]));
      if body.LoadError? || !IsA(kind, c) then LoadError
      else Loaded(To(id), body.state.(heap := body.state.heap[id := body.value]), body.rest)
  }

  function LoadBody(ts: seq<Token>, k: Kind, st: LoadState): (l: Loaded<Element>)
    ensures l.Loaded? ==> |l.rest| <= |ts| && |st.heap| <= |l.state.heap|
    decreases |ts|, 3
  {
    if IsVariable(k) then LoadFields(ts, k, 0, st)
    else if ts == [] || !ts[0].Size? then LoadError
    else LoadFields(ts[1..], k, ts[0].n, st)
  }

  function LoadFields(ts: seq<Token>, k: Kind, children: nat, st: LoadState): (l: Loaded<Element>)
    ensures l.Loaded? ==> |l.rest| <= |ts| && |st.heap| <= |l.state.heap|
    decreases |ts|, 2
  {
    var ps := LoadList(ts, PointerClasses(k, children), st);
    if ps.LoadError? || !DataReady(ps.rest, DataTypes(k)) then LoadError
    else
      Loaded(Assemble(k, children, ps.value, DataOf(ps.rest, DataTypes(k))), ps.state, ps.rest[|DataTypes(k)|..])
  }

  predicate DataReady(ts: seq<Token>, types: seq<DatumType>) {
    |types| <= |ts| && forall i :: 0 <= i < |types| ==> ts[i].Data? && HasType(ts[i].datum, types[i])
  }

  function DataOf(ts: seq<Token>, types: seq<DatumType>): seq<Datum>
    requires DataReady(ts, types)
  {
    seq(|types|, i requires 0 <= i < |types| => ts[i].datum)
  }

  function Assemble(k: Kind, children: nat, ps: seq<Pointer>, data: seq<Datum>): Element
    requires children <= |ps| && forall i :: 0 <= i < children ==> ps[i].To?
  {
    Element(k, seq(children, i requires 0 <= i < children => ps[i].id), ps[children..], data, [])
  }

  function LoadList(ts: seq<Token>, cs: seq<Class>, st: LoadState): (l: Loaded<seq<Pointer>>)
    ensures l.Loaded? ==> |l.rest| <= |ts| && |st.heap| <= |l.state.heap|
    ensures l.Loaded? ==> |l.value| == |cs| && forall i :: 0 <= i < |cs| ==> cs[i].AChild? ==> l.value[i].To?
    decreases |ts|, 1
  {
    if cs == [] then Loaded([], st, ts)
    else
      var head := LoadPointer(ts, cs[0], st);
      if head.LoadError? then LoadError
      else
        var tail := LoadList(head.rest, cs[1..], head.state);
        if tail.LoadError? then LoadError else Loaded([head.value] + tail.value, tail.state, tail.rest)
  }

  // ---- the round trip ----

  function ImagePointer(addr: map<Id, nat>, p: Pointer): Pointer
    requires p.To? ==> p.id in addr
  {
    if p.Null? then Null else To(addr[p.id])
  }

  function ImageList(addr: map<Id, nat>, ps: seq<Pointer>): (r: seq<Pointer>)
    requires Covers(addr, ps)
    ensures |r| == |ps|
  {
    seq(|ps|, i requires 0 <= i < |ps| => ImagePointer(addr, ps[i]))
  }

  /** The copy an element becomes under the renaming `addr`: every stored field, nothing else. */
  ghost predicate IsImage(addr: map<Id, nat>, e: Element, copy: Element) {
    Covers(addr, Pointers(e)) && copy.kind == e.kind && |copy.children| == |e.children| &&
    Pointers(copy) == ImageList(addr, Pointers(e)) && copy.data == e.data && copy.unsaved == []
  }

  /** The loader is in step with the storer: indices are addresses, numbered without gaps,
      and every element met so far exists with its kind. */
  ghost predicate InStep(g: Graph, addr: map<Id, nat>, st: LoadState) {
    addr.Keys <= g.Keys && |st.heap| == |addr| &&
    (forall i :: i in st.back <==> 0 <= i < |addr|) &&
    (forall i :: i in st.back ==> st.back[i] == i) &&
    (forall x :: x in addr ==> addr[x] < |addr| && st.heap[addr[x]].kind == g[x].kind) &&
    (forall x, y :: x in addr && y in addr && addr[x] == addr[y] ==> x == y)
  }

  /** From (addr, st) to (addr2, st2): old entries stay, and every new element is a finished copy. */
  ghost predicate Copied(g: Graph, addr: map<Id, nat>, st: LoadState, addr2: map<Id, nat>, st2: LoadState) {
    InStep(g, addr2, st2) && addr.Keys <= addr2.Keys &&
    (forall x :: x in addr ==> addr2[x] == addr[x]) &&
    st.heap <= st2.heap &&
    (forall x :: x in addr2 && x !in addr ==> IsImage(addr2, g[x], st2.heap[addr2[x]]))
  }

  ghost predicate AllCreatable(g: Graph, addr: map<Id, nat>, addr2: map<Id, nat>) {
    forall x :: x in addr2 && x !in addr ==> x in g && Creatable(g[x].kind)
  }

  lemma ImageGrows(addr: map<Id, nat>, addr2: map<Id, nat>, e: Element, copy: Element)
    requires IsImage(addr, e, copy) && addr.Keys <= addr2.Keys && forall x :: x in addr ==> addr2[x] == addr[x]
    ensures IsImage(addr2, e, copy)
  {
    assert ImageList(addr2, Pointers(e)) == ImageList(addr, Pointers(e));
  }

  lemma CopiedTransitive(g: Graph, a: map<Id, nat>, s: LoadState, b: map<Id, nat>, t: LoadState, c: map<Id, nat>,
          u: LoadState)
    requires Copied(g, a, s, b, t) && Copied(g, b, t, c, u) && InStep(g, b, t)
    ensures Copied(g, a, s, c, u)
  {
    forall x | x in c && x !in a ensures IsImage(c, g[x], u.heap[c[x]]) {
      if x in b {
        ImageGrows(b, c, g[x], t.heap[b[x]]);
      }
    }
  }

  /** What the loader does on the three forms a pointer is stored in. */
  lemma LoadNull(tail: seq<Token>, c: Class, st: LoadState)
    requires !c.AChild?
    ensures LoadPointer([Flag(true)] + tail, c, st) == Loaded(Null, st, tail)
  {
    assert ([Flag(true)] + tail)[1..] == tail;
  }

  lemma LoadKnown(n: nat, tail: seq<Token>, c: Class, st: LoadState)
    requires n in st.back && st.back[n] < |st.heap| && IsA(st.heap[st.back[n]].kind, c)
    ensures LoadPointer([Flag(false), Size(n)] + tail, c, st) == Loaded(To(st.back[n]), st, tail)
  {
    assert ([Flag(false), Size(n)] + tail)[2..] == tail;
  }

  lemma LoadNew(n: nat, kind: Kind, tail: seq<Token>, c: Class, st: LoadState)
    requires n !in st.back && IsA(kind, c)
    ensures var id := |st.heap|;
      var body := LoadBody(tail, kind, LoadState(st.back[n := id], st.heap + [Blank(kind)]));
      LoadPointer([Flag(false), Size(n), Type(kind)] + tail, c, st)
      == if !Creatable(kind) || body.LoadError? then LoadError
         else Loaded(To(id), body.state.(heap := body.state.heap[id := body.value]), body.rest)
  {
    var ts := [Flag(false), Size(n), Type(kind)] + tail;
    assert ts[3..] == tail && ts[0] == Flag(false) && ts[1] == Size(n) && ts[2] == Type(kind);
  }

  lemma {:induction false} PointerTrip(g: Graph, p: Pointer, c: Class, addr: map<Id, nat>, st: LoadState,
          rest: seq<Token>)
    returns (st2: LoadState)
    requires WellTyped(g) && Fits(g, p, c) && InStep(g, addr, st) && StorePointer(g, p, addr).Stored?
    ensures var s := StorePointer(g, p, addr);
      if AllCreatable(g, addr, s.addr)
      then LoadPointer(s.tokens + rest, c, st) == Loaded(ImagePointer(s.addr, p), st2, rest) &&
        Copied(g, addr, st, s.addr, st2)
      else LoadPointer(s.tokens + rest, c, st).LoadError?
    decreases g.Keys - addr.Keys, 1, 0
  {
    st2 := st;
    if p.Null? {
      LoadNull(rest, c, st);
    } else if p.id in addr {
      LoadKnown(addr[p.id], rest, c, st);
    } else {
      st2 := NewTrip(g, p.id, c, addr, st, rest);
    }
  }

  lemma {:induction false} NewTrip(g: Graph, id: Id, c: Class, addr: map<Id, nat>, st: LoadState, rest: seq<Token>)
    returns (st2: LoadState)
    requires WellTyped(g) && Fits(g, To(id), c) && id !in addr && InStep(g, addr, st) &&
        StorePointer(g, To(id), addr).Stored?
    ensures var s := StorePointer(g, To(id), addr);
      if AllCreatable(g, addr, s.addr)
      then LoadPointer(s.tokens + rest, c, st) == Loaded(To(|addr|), st2, rest) && Copied(g, addr, st, s.addr, st2) &&
        s.addr[id] == |addr|
      else LoadPointer(s.tokens + rest, c, st).LoadError?
    decreases g.Keys - addr.Keys, 0, 0
  {
    var n, e := |addr|, g[id];
    var added := addr[id := n];
    var st1 := LoadState(st.back[n := n], st.heap + [Blank(e.kind)]);
    var body := StoreBody(g, e, id, added);
    var s := StorePointer(g, To(id), addr);
    assert id in g.Keys - addr.Keys;
    assert s.tokens + rest == [Flag(false), Size(n), Type(e.kind)] + (body.tokens + rest);
    LoadNew(n, e.kind, body.tokens + rest, c, st);
    InStepAdd(g, addr, st, id);
    var copy, st3 := BodyTrip(g, e, id, added, st1, rest);
    CreatableAdd(g, addr, id, body.addr);
    st2 := st3;
    if AllCreatable(g, addr, s.addr) {
      st2 := st3.(heap := st3.heap[n := copy]);
      CopiedFinish(g, addr, st, id, body.addr, st3, copy);
    }
  }

  lemma CreatableAdd(g: Graph, addr: map<Id, nat>, id: Id, addr2: map<Id, nat>)
    requires addr.Keys + {id} <= addr2.Keys && id !in addr && id in g
    ensures AllCreatable(g, addr, addr2) <==> Creatable(g[id].kind) && AllCreatable(g, addr[id := |addr|], addr2)
  {
  }

  lemma CreatableSplit(g: Graph, a: map<Id, nat>, b: map<Id, nat>, c: map<Id, nat>)
    requires a.Keys <= b.Keys <= c.Keys
    ensures AllCreatable(g, a, c) <==> AllCreatable(g, a, b) && AllCreatable(g, b, c)
  {
  }

  lemma InStepAdd(g: Graph, addr: map<Id, nat>, st: LoadState, id: Id)
    requires InStep(g, addr, st) && id in g && id !in addr
    ensures InStep(g, addr[id := |addr|], LoadState(st.back[|addr| := |addr|], st.heap + [Blank(g[id].kind)]))
  {
  }

  lemma InStepFinish(g: Graph, id: Id, addr2: map<Id, nat>, st3: LoadState, copy: Element)
    requires InStep(g, addr2, st3) && id in addr2 && copy.kind == g[id].kind
    ensures InStep(g, addr2, st3.(heap := st3.heap[addr2[id] := copy]))
  {
  }

  lemma ImageKind(addr: map<Id, nat>, e: Element, copy: Element)
    requires IsImage(addr, e, copy)
    ensures copy.kind == e.kind
  {
  }

  lemma FinishKeeps(st: LoadState, st3: LoadState, blank: Element, copy: Element)
    requires st.heap + [blank] <= st3.heap
    ensures st.heap <= st3.heap[|st.heap| := copy]
  {
    assert st3.heap[..|st.heap|] == (st.heap + [blank])[..|st.heap|] == st.heap;
  }

  /** The new element itself is finished once its body has been read. */
  lemma CopiedFinish(g: Graph, addr: map<Id, nat>, st: LoadState, id: Id, addr2: map<Id, nat>, st3: LoadState,
          copy: Element)
    requires InStep(g, addr, st) && id in g && id !in addr
    requires Copied(g, addr[id := |addr|], LoadState(st.back[|addr| := |addr|], st.heap +
        [Blank(g[id].kind)]), addr2, st3)
    requires IsImage(addr2, g[id], copy)
    ensures Copied(g, addr, st, addr2, st3.(heap := st3.heap[|addr| := copy]))
  {
    hide IsImage, Creatable;
    var n := |addr|;
    assert addr[id := n][id] == n && addr2[id] == n;
    ImageKind(addr2, g[id], copy);
    InStepFinish(g, id, addr2, st3, copy);
    FinishKeeps(st, st3, Blank(g[id].kind), copy);
    FinishImages(g, addr, id, addr2, st3, copy);
    assert forall x :: x in addr ==> x in addr[id := n] && addr[id := n][x] == addr[x];
  }

  /** Every other element was finished before. */
  lemma FinishImages(g: Graph, addr: map<Id, nat>, id: Id, addr2: map<Id, nat>, st3: LoadState, copy: Element)
    requires InStep(g, addr2, st3) && id in addr2 && IsImage(addr2, g[id], copy)
    requires forall x :: x in addr2 && x !in addr && x != id ==> IsImage(addr2, g[x], st3.heap[addr2[x]])
    ensures forall x :: x in addr2 && x !in addr ==> IsImage(addr2, g[x], st3.heap[addr2[id] := copy][addr2[x]])
  {
    hide IsImage;
    forall x | x in addr2 && x !in addr ensures IsImage(addr2, g[x], st3.heap[addr2[id] := copy][addr2[x]]) {
      if x != id { assert addr2[x] != addr2[id]; }
    }
  }

  lemma {:induction false} ListTrip(g: Graph, ps: seq<Pointer>, cs: seq<Class>, addr: map<Id, nat>, st: LoadState,
          rest: seq<Token>)
    returns (st2: LoadState)
    requires WellTyped(g) && |ps| == |cs| && forall i :: 0 <= i < |ps| ==> Fits(g, ps[i], cs[i])
    requires InStep(g, addr, st) &&
        (forall i :: 0 <= i < |ps| ==> ps[i].To? ==> ps[i].id in g) && StoreList(g, ps, addr).Stored?
    ensures var s := StoreList(g, ps, addr);
      if AllCreatable(g, addr, s.addr)
      then LoadList(s.tokens + rest, cs, st) == Loaded(ImageList(s.addr, ps), st2, rest) &&
        Copied(g, addr, st, s.addr, st2)
      else LoadList(s.tokens + rest, cs, st).LoadError?
    decreases g.Keys - addr.Keys, 1, |ps|
  {
    hide IsImage, StorePointer, LoadPointer, AllCreatable, Fits;
    st2 := st;
    if ps == [] {
      AllKnown(g, addr);
      assert [] + rest == rest;
    } else {
      var head := StorePointer(g, ps[0], addr);
      var tail := StoreList(g, ps[1..], head.addr);
      LoadListForm(head.tokens, tail.tokens, rest, cs, st);
      var st1 := PointerTrip(g, ps[0], cs[0], addr, st, tail.tokens + rest);
      CreatableSplit(g, addr, head.addr, tail.addr);
      if AllCreatable(g, addr, head.addr) {
        st2 := ListTrip(g, ps[1..], cs[1..], head.addr, st1, rest);
        if AllCreatable(g, head.addr, tail.addr) {
          CopiedTransitive(g, addr, st, head.addr, st1, tail.addr, st2);
          ImageListCons(head.addr, tail.addr, ps);
        }
      }
    }
  }

  lemma AllKnown(g: Graph, addr: map<Id, nat>)
    ensures AllCreatable(g, addr, addr)
  {
  }

  lemma LoadListForm(h: seq<Token>, t: seq<Token>, rest: seq<Token>, cs: seq<Class>, st: LoadState)
    requires cs != []
    ensures LoadList(h + t + rest, cs, st) ==
      match LoadPointer(h + (t + rest), cs[0], st)
      case LoadError => LoadError
      case Loaded(p, st1, ts1) =>
        match LoadList(ts1, cs[1..], st1)
        case LoadError => LoadError
        case Loaded(ps, st2, ts2) => Loaded([p] + ps, st2, ts2)
  {
    assert h + t + rest == h + (t + rest);
  }

  lemma ImageListCons(a: map<Id, nat>, b: map<Id, nat>, ps: seq<Pointer>)
    requires ps != [] && Covers(a, [ps[0]]) && Covers(b, ps) && a.Keys <= b.Keys && forall x :: x in a ==> b[x] == a[x]
    ensures (ps[0].To? ==> ps[0].id in a) && ImageList(b, ps) == [ImagePointer(a, ps[0])] + ImageList(b, ps[1..])
  {
    assert [ps[0]][0] == ps[0];
  }

  lemma {:induction false} BodyTrip(g: Graph, e: Element, id: Id, addr: map<Id, nat>, st: LoadState, rest: seq<Token>)
    returns (copy: Element, st2: LoadState)
    requires WellTyped(g) && WellTypedElement(g, e) && InStep(g, addr, st) && StoreBody(g, e, id, addr).Stored?
    ensures var s := StoreBody(g, e, id, addr);
      if AllCreatable(g, addr, s.addr)
      then LoadBody(s.tokens + rest, e.kind, st) == Loaded(copy, st2, rest) &&
           Copied(g, addr, st, s.addr, st2) && IsImage(s.addr, e, copy)
      else LoadBody(s.tokens + rest, e.kind, st).LoadError?
    decreases g.Keys - addr.Keys, 2, 0
  {
    hide IsImage, Copied, InStep, AllCreatable, LoadBody, LoadList, StoreList, WellTyped;
    var list := StoreList(g, Pointers(e), addr);
    var after := DataTokens(e.data) + rest;
    st2 := ListTrip(g, Pointers(e), PointerClasses(e.kind, |e.children|), addr, st, after);
    copy := e;
    BodyForm(e, list.tokens, rest, st, LoadList(list.tokens + after, PointerClasses(e.kind, |e.children|), st));
    if AllCreatable(g, addr, list.addr) {
      copy := Assemble(e.kind, |e.children|, ImageList(list.addr, Pointers(e)), e.data);
      AssembleImage(list.addr, e);
    }
  }

  /** Once the pointers are read back, so is the element. */
  lemma BodyForm(e: Element, list: seq<Token>, rest: seq<Token>, st: LoadState, l: Loaded<seq<Pointer>>)
    requires WellFormedData(e)
    requires l == LoadList(list + (DataTokens(e.data) + rest), PointerClasses(e.kind, |e.children|), st)
    requires l.Loaded? ==> l.rest == DataTokens(e.data) + rest
    ensures LoadBody(Header(e) + list + DataTokens(e.data) + rest, e.kind, st) ==
      if l.LoadError? then LoadError else Loaded(Assemble(e.kind, |e.children|, l.value, e.data), l.state, rest)
  {
    var tail := DataTokens(e.data) + rest;
    assert Header(e) + list + DataTokens(e.data) + rest == Header(e) + (list + tail);
    HeaderForm(e, list + tail, st);
    DataForm(e, rest);
  }

  lemma HeaderForm(e: Element, tail: seq<Token>, st: LoadState)
    requires IsVariable(e.kind) ==> e.children == []
    ensures LoadBody(Header(e) + tail, e.kind, st) == LoadFields(tail, e.kind, |e.children|, st)
  {
    assert [] + tail == tail && ([Size(|e.children|)] + tail)[1..] == tail;
  }

  lemma DataForm(e: Element, rest: seq<Token>)
    requires WellFormedData(e)
    ensures var after, d := DataTokens(e.data) + rest, |e.data|;
      DataReady(after, DataTypes(e.kind)) && after[d..] == rest && DataOf(after, DataTypes(e.kind)) == e.data
  {
  }

  lemma AssembleImage(addr: map<Id, nat>, e: Element)
    requires Covers(addr, Pointers(e))
    ensures IsImage(addr, e, Assemble(e.kind, |e.children|, ImageList(addr, Pointers(e)), e.data))
  {
    var image := ImageList(addr, Pointers(e));
    assert forall i :: 0 <= i < |e.children| ==> Pointers(e)[i].To?;
    assert Pointers(Assemble(e.kind, |e.children|, image, e.data)) == image;
  }

  // ---- what is reached ----

  ghost predicate ClosedSet(g: Graph, S: set<Id>) {
    forall x :: x in S && x in g ==> InSet(Pointers(g[x]), S)
  }

  predicate InSet(ps: seq<Pointer>, S: set<Id>) {
    forall i :: 0 <= i < |ps| ==> ps[i].To? ==> ps[i].id in S
  }

  /** `x` is in every set that holds what `e` points to and is closed under pointers. */
  ghost predicate Reachable(g: Graph, e: Element, x: Id) {
    forall S :: ClosedSet(g, S) && InSet(Pointers(e), S) ==> x in S
  }

  /** Storing stays inside every closed set, and throws only at an element that throws. */
  lemma {:induction false} PointerStays(g: Graph, p: Pointer, addr: map<Id, nat>, S: set<Id>)
    requires WellTyped(g) && addr.Keys <= g.Keys && (p.To? ==> p.id in g)
    requires ClosedSet(g, S) && addr.Keys <= S && InSet([p], S)
    ensures match StorePointer(g, p, addr)
      case Stored(addr2, _) => addr2.Keys <= S
      case Thrown(x) => x in S && x in g && ThrowsOnStore(g[x].kind)
    decreases g.Keys - addr.Keys, 1, 0
  {
    if p.To? && p.id !in addr {
      assert p.id in g.Keys - addr.Keys && [p][0] == p && WellTypedElement(g, g[p.id]);
      ListStays(g, Pointers(g[p.id]), addr[p.id := |addr|], S);
    }
  }

  lemma {:induction false} ListStays(g: Graph, ps: seq<Pointer>, addr: map<Id, nat>, S: set<Id>)
    requires WellTyped(g) && addr.Keys <= g.Keys && forall i :: 0 <= i < |ps| ==> ps[i].To? ==> ps[i].id in g
    requires ClosedSet(g, S) && addr.Keys <= S && InSet(ps, S)
    ensures match StoreList(g, ps, addr)
      case Stored(addr2, _) => addr2.Keys <= S
      case Thrown(x) => x in S && x in g && ThrowsOnStore(g[x].kind)
    decreases g.Keys - addr.Keys, 1, |ps|
  {
    if ps != [] {
      PointerStays(g, ps[0], addr, S);
      var head := StorePointer(g, ps[0], addr);
      if head.Stored? { ListStays(g, ps[1..], head.addr, S); }
    }
  }

  /** Every element stored on the way is storable, and so is all it points to. */
  ghost predicate Settled(g: Graph, addr: map<Id, nat>, addr2: map<Id, nat>) {
    forall x :: x in addr2 && x !in addr ==> x in g && !ThrowsOnStore(g[x].kind) && Covers(addr2, Pointers(g[x]))
  }

  lemma {:induction false} PointerSettles(g: Graph, p: Pointer, addr: map<Id, nat>)
    requires WellTyped(g) && addr.Keys <= g.Keys && (p.To? ==> p.id in g) && StorePointer(g, p, addr).Stored?
    ensures Settled(g, addr, StorePointer(g, p, addr).addr)
    decreases g.Keys - addr.Keys, 1, 0
  {
    if p.To? && p.id !in addr {
      assert p.id in g.Keys - addr.Keys;
      ListSettles(g, Pointers(g[p.id]), addr[p.id := |addr|]);
    }
  }

  lemma {:induction false} ListSettles(g: Graph, ps: seq<Pointer>, addr: map<Id, nat>)
    requires WellTyped(g) && addr.Keys <= g.Keys && (forall i :: 0 <= i < |ps| ==> ps[i].To? ==> ps[i].id in g)
    requires StoreList(g, ps, addr).Stored?
    ensures Settled(g, addr, StoreList(g, ps, addr).addr)
    decreases g.Keys - addr.Keys, 1, |ps|
  {
    if ps != [] {
      PointerSettles(g, ps[0], addr);
      ListSettles(g, ps[1..], StorePointer(g, ps[0], addr).addr);
    }
  }

  const EMPTY := LoadState(map[], [])

  /** Storing the tree below a root instruction, as an invocation does, and loading it again.
      Storing throws exactly when an elimination, failure or prune instruction is reachable.
      Otherwise the elements stored are exactly the reachable ones, and loading what was
      written succeeds exactly when none of them is a root instruction; it then consumes
      exactly the tokens written and yields the same graph on the stored fields: `addr` is a
      one-to-one renaming of the reachable elements onto all elements created, so two pointers
      are equal after loading exactly when they were before. */
  lemma RoundTripTheorem(g: Graph, root: Element, rest: seq<Token>)
    requires WellTyped(g) && root.kind.RootInstruction? && WellTypedElement(g, root)
    ensures var s := StoreBody(g, root, 0, map[]);
      && (s.Thrown? <==> exists x ::
        x in g && Reachable(g, root, x) && (g[x].kind.Failure? || g[x].kind.Elimination? || g[x].kind.Prune?))
      && (s.Stored? ==>
           (forall x :: x in s.addr <==> Reachable(g, root, x)) &&
           var l := LoadBody(s.tokens + rest, RootInstruction, EMPTY);
           (l.Loaded? <==> forall x :: x in s.addr ==> !g[x].kind.RootInstruction?) &&
           (l.Loaded? ==>
             l.rest == rest && IsImage(s.addr, root, l.value) && |l.state.heap| == |s.addr| &&
             (forall x :: x in s.addr ==> s.addr[x] < |s.addr| && IsImage(s.addr, g[x], l.state.heap[s.addr[x]])) &&
             (forall x, y :: x in s.addr && y in s.addr && s.addr[x] == s.addr[y] ==> x == y)))
  {
    var s := StoreBody(g, root, 0, map[]);
    StoredIsReachable(g, root);
    if s.Stored? {
      var copy, st2 := BodyTrip(g, root, 0, map[], EMPTY, rest);
      assert AllCreatable(g, map[], s.addr) <==> forall x :: x in s.addr ==> !g[x].kind.RootInstruction?;
    }
  }

  lemma StoredIsReachable(g: Graph, root: Element)
    requires WellTyped(g) && root.kind.RootInstruction? && WellTypedElement(g, root)
    ensures var s := StoreBody(g, root, 0, map[]);
      (s.Stored? ==>
        (forall x :: x in s.addr <==> Reachable(g, root, x)) &&
          forall x :: x in s.addr ==> !g[x].kind.Failure? && !g[x].kind.Elimination? && !g[x].kind.Prune?) &&
      (s.Thrown? ==> s.culprit in g && Reachable(g, root, s.culprit)) &&
      (s.Thrown? ==>
        g[s.culprit].kind.Failure? || g[s.culprit].kind.Elimination? || g[s.culprit].kind.Prune?)
  {
    var s := StoreBody(g, root, 0, map[]);
    forall S | ClosedSet(g, S) && InSet(Pointers(root), S)
      ensures s.Stored? ==> s.addr.Keys <= S
      ensures s.Thrown? ==> s.culprit in S && s.culprit in g && ThrowsOnStore(g[s.culprit].kind)
    {
      ListStays(g, Pointers(root), map[], S);
    }
    if s.Stored? {
      ListSettles(g, Pointers(root), map[]);
      assert ClosedSet(g, s.addr.Keys) && InSet(Pointers(root), s.addr.Keys);
    } else {
      forall x | x in g ensures InSet(Pointers(g[x]), g.Keys) {
        assert WellTypedElement(g, g[x]);
      }
      assert ClosedSet(g, g.Keys) && InSet(Pointers(root), g.Keys);
      assert s.culprit in g;
    }
  }
}
