/** The serialiser as it runs: two address maps and a stream, updated in place. */
module SerialiserInPlace {
  import opened SerialiserSpec

  class Storer {
    var tokens: seq<Token>
    constructor ()
      ensures tokens == []
    {
      tokens := [];
    }
  }

  /** A stream being read, and the elements created from it. */
  class Loader {
    var tokens: seq<Token>
    var elements: seq<Element>
    constructor (ts: seq<Token>)
      ensures tokens == ts && elements == []
    {
      tokens, elements := ts, [];
    }
  }

  class ASTSerialiser {
    var addressMap: map<Id, nat>
    var addressMapBack: map<nat, Id>

    constructor ()
      ensures addressMap == map[] && addressMapBack == map[]
    {
      addressMap, addressMapBack := map[], map[];
    }

    /** `ASTSerialiser::store` */
    method Store(g: Graph, storer: Storer, p: Pointer) returns (thrown: bool)
      requires WellTyped(g) && addressMap.Keys <= g.Keys && (p.To? ==> p.id in g)
      modifies this, storer
      ensures Wrote(StorePointer(g, p, old(addressMap)), old(storer.tokens), storer.tokens, addressMap, thrown)
      decreases g.Keys - addressMap.Keys, 1, 0
    {
      hide StoreBody, Fits, WellFormedData, IsVariable, Creatable;
      thrown := false;
      if p.Null? {
        storer.tokens := storer.tokens + [Flag(true)];
      } else {
        storer.tokens := storer.tokens + [Flag(false)];
        if p.id in addressMap {
          storer.tokens := storer.tokens + [Size(addressMap[p.id])];
        } else {
          var index := |addressMap|;
          storer.tokens := storer.tokens + [Size(index)];
          assert p.id in g.Keys - addressMap.Keys;
          addressMap, addressMapBack := addressMap[p.id := index], addressMapBack[index := p.id];
          storer.tokens := storer.tokens + [Type(g[p.id].kind)];
          thrown := StoreElement(g, storer, g[p.id], p.id);
        }
      }
    }

    /** The virtual `store` of an element: `Instruction::store`, then the fields of the class. */
    method StoreElement(g: Graph, storer: Storer, e: Element, id: Id) returns (thrown: bool)
      requires WellTyped(g) && addressMap.Keys <= g.Keys && WellTypedElement(g, e)
      modifies this, storer
      ensures Wrote(StoreBody(g, e, id, old(addressMap)), old(storer.tokens), storer.tokens, addressMap, thrown)
      decreases g.Keys - addressMap.Keys, 2, 0
    {
      hide StoreList, WellTyped, Pointers;
      if !IsVariable(e.kind) {
        storer.tokens := storer.tokens + [Size(|e.children|)];
      }
      thrown := StoreAll(g, storer, Pointers(e));
      if thrown {
        return;
      }
      if ThrowsOnStore(e.kind) {
        return true;
      }
      StoreData(storer, e.data);
    }

    method StoreData(storer: Storer, data: seq<Datum>)
      modifies storer
      ensures storer.tokens == old(storer.tokens) + DataTokens(data)
    {
      for k := 0 to |data|
        invariant storer.tokens == old(storer.tokens) + DataTokens(data)[..k]
      {
        storer.tokens := storer.tokens + [Data(data[k])];
        assert DataTokens(data)[..k + 1] == DataTokens(data)[..k] + [Data(data[k])];
      }
      assert DataTokens(data)[..|data|] == DataTokens(data);
    }

    /** The stores of the children and of the pointer fields, one after the other. */
    method StoreAll(g: Graph, storer: Storer, ps: seq<Pointer>) returns (thrown: bool)
      requires WellTyped(g) && addressMap.Keys <= g.Keys && forall i :: 0 <= i < |ps| ==> ps[i].To? ==> ps[i].id in g
      modifies this, storer
      ensures Wrote(StoreList(g, ps, old(addressMap)), old(storer.tokens), storer.tokens, addressMap, thrown)
      decreases g.Keys - addressMap.Keys, 1, |ps| + 1
    {
      hide StoreList;
      thrown := false;
      ghost var all := StoreList(g, ps, addressMap);
      ghost var done: seq<Token> := [];
      PrefixedStart(all);
      assert ps[0..] == ps;
      for i := 0 to |ps|
        invariant !thrown && storer.tokens == old(storer.tokens) + done
        invariant old(addressMap).Keys <= addressMap.Keys <= g.Keys
        invariant all == Prefixed(done, StoreList(g, ps[i..], addressMap))
      {
        PrefixedStep(g, ps, i, addressMap, done);
        done := done + Written(StorePointer(g, ps[i], addressMap));
        thrown := Store(g, storer, ps[i]);
        if thrown {
          return;
        }
      }
      StoreNone(g, addressMap, done);
      assert ps[|ps|..] == [];
    }

    /** `ASTSerialiser::load` for a field of static type `c`. */
    method Load(loader: Loader, c: Class) returns (ok: bool, p: Pointer)
      modifies this, loader
      ensures Read(LoadPointer(old(loader.tokens), c, LoadState(old(addressMapBack), old(loader.elements))),
                   loader.tokens, LoadState(addressMapBack, loader.elements), ok, p)
      decreases |loader.tokens|, 0
    {
      ok, p := false, Null;
      var ts := loader.tokens;
      if |ts| < 1 || !ts[0].Flag? { return; }
      loader.tokens := ts[1..];
      if ts[0].isNull {
        ok := !c.AChild?;
        return;
      }
      if |ts| < 2 || !ts[1].Size? { return; }
      var index := ts[1].n;
      loader.tokens := ts[2..];
      if index in addressMapBack {
        p := To(addressMapBack[index]);
        ok := p.id < |loader.elements| && IsA(loader.elements[p.id].kind, c);
        return;
      }
      if |ts| < 3 || !ts[2].Type? || !Creatable(ts[2].kind) { return; }
      var kind, id := ts[2].kind, |loader.elements|;
      loader.tokens := ts[3..];
      loader.elements := loader.elements + [Blank(kind)];
      if id !in addressMap { addressMap := addressMap[id := index]; }
      addressMapBack := addressMapBack[index := id];
      var e;
      ok, e := LoadElement(loader, kind);
      if !ok { return; }
      loader.elements := loader.elements[id := e];
      p := To(id);
      ok := IsA(kind, c);
    }

    /** The virtual `load` of an element. */
    method LoadElement(loader: Loader, k: Kind) returns (ok: bool, e: Element)
      modifies this, loader
      ensures Read(LoadBody(old(loader.tokens), k, LoadState(old(addressMapBack), old(loader.elements))),
                   loader.tokens, LoadState(addressMapBack, loader.elements), ok, e)
      decreases |loader.tokens|, 3
    {
      ok, e := false, Blank(k);
      var n := 0;
      if !IsVariable(k) {
        if loader.tokens == [] || !loader.tokens[0].Size? { return; }
        n := loader.tokens[0].n;
        loader.tokens := loader.tokens[1..];
      }
      ghost var ts, st := loader.tokens, LoadState(addressMapBack, loader.elements);
      assert LoadBody(old(loader.tokens), k, st) == LoadFields(ts, k, n, st);
      var ps, data;
      ok, ps := LoadAll(loader, PointerClasses(k, n));
      if !ok { return; }
      ok, data := LoadData(loader, DataTypes(k));
      if ok { e := Assemble(k, n, ps, data); }
    }

    method LoadData(loader: Loader, types: seq<DatumType>) returns (ok: bool, data: seq<Datum>)
      modifies loader`tokens
      ensures ok == DataReady(old(loader.tokens), types)
      ensures ok ==> loader.tokens == old(loader.tokens)[|types|..] && data == DataOf(old(loader.tokens), types)
    {
      ok, data := true, [];
      ghost var ts := loader.tokens;
      for d := 0 to |types|
        invariant ok && |data| == d <= |ts| && loader.tokens == ts[d..]
        invariant forall i :: 0 <= i < d ==> ts[i] == Data(data[i]) && HasType(data[i], types[i])
      {
        if loader.tokens == [] || !loader.tokens[0].Data? || !HasType(loader.tokens[0].datum, types[d]) {
          ok := false;
          return;
        }
        data := data + [loader.tokens[0].datum];
        loader.tokens := loader.tokens[1..];
      }
    }

    method LoadAll(loader: Loader, cs: seq<Class>) returns (ok: bool, ps: seq<Pointer>)
      modifies this, loader
      ensures Read(LoadList(old(loader.tokens), cs, LoadState(old(addressMapBack), old(loader.elements))),
                   loader.tokens, LoadState(addressMapBack, loader.elements), ok, ps)
      decreases |loader.tokens|, 1
    {
      ok, ps := true, [];
      ghost var all := LoadList(loader.tokens, cs, LoadState(addressMapBack, loader.elements));
      JoinedStart(all);
      assert cs[0..] == cs;
      for i := 0 to |cs|
        invariant ok && |loader.tokens| <= |old(loader.tokens)|
        invariant all == Joined(ps, LoadList(loader.tokens, cs[i..], LoadState(addressMapBack, loader.elements)))
      {
        JoinedStep(loader.tokens, cs, i, LoadState(addressMapBack, loader.elements), ps);
        var p;
        ok, p := Load(loader, cs[i]);
        if !ok { return; }
        ps := ps + [p];
      }
      assert ps + [] == ps;
    }
  }

  /** A store did what `s` says: it threw, or wrote the tokens and left the address map of `s`. */
  predicate Wrote(s: Stored, before: seq<Token>, after: seq<Token>, addr: map<Id, nat>, thrown: bool) {
    match s
    case Stored(addr2, ts) => !thrown && addr == addr2 && after == before + ts
    case Thrown(_) => thrown
  }

  /** A load did what `l` says. */
  predicate Read<T(==)>(l: Loaded<T>, rest: seq<Token>, state: LoadState, ok: bool, value: T) {
    match l
    case Loaded(v, st, ts) => ok && value == v && state == st && rest == ts
    case LoadError => !ok
  }

  function Written(s: Stored): seq<Token> {
    if s.Thrown? then [] else s.tokens
  }

  lemma StoreNone(g: Graph, addr: map<Id, nat>, done: seq<Token>)
    requires WellTyped(g) && addr.Keys <= g.Keys
    ensures Prefixed(done, StoreList(g, [], addr)) == Stored(addr, done)
  {
    assert done + [] == done;
  }

  lemma PrefixedStart(s: Stored)
    ensures Prefixed([], s) == s
  {
    if s.Stored? { assert [] + s.tokens == s.tokens; }
  }

  lemma JoinedStart(l: Loaded<seq<Pointer>>)
    ensures Joined([], l) == l
  {
    if l.Loaded? { assert [] + l.value == l.value; }
  }

  function Prefixed(done: seq<Token>, s: Stored): Stored {
    if s.Thrown? then s else Stored(s.addr, done + s.tokens)
  }

  function Joined(done: seq<Pointer>, l: Loaded<seq<Pointer>>): Loaded<seq<Pointer>> {
    if l.LoadError? then l else Loaded(done + l.value, l.state, l.rest)
  }

  lemma PrefixedStep(g: Graph, ps: seq<Pointer>, i: nat, addr: map<Id, nat>, done: seq<Token>)
    requires WellTyped(g) && addr.Keys <= g.Keys && i < |ps| &&
        forall j :: 0 <= j < |ps| ==> ps[j].To? ==> ps[j].id in g
    ensures Prefixed(done, StoreList(g, ps[i..], addr)) ==
      match StorePointer(g, ps[i], addr)
      case Thrown(x) => Thrown(x)
      case Stored(addr2, ts) => Prefixed(done + ts, StoreList(g, ps[i + 1..], addr2))
  {
    assert ps[i..][0] == ps[i] && ps[i..][1..] == ps[i + 1..];
    match StorePointer(g, ps[i], addr)
    case Thrown(_) =>
    case Stored(addr2, ts) =>
      var tail := StoreList(g, ps[i + 1..], addr2);
      if tail.Stored? { assert done + (ts + tail.tokens) == done + ts + tail.tokens; }
  }

  lemma JoinedStep(ts: seq<Token>, cs: seq<Class>, i: nat, st: LoadState, done: seq<Pointer>)
    requires i < |cs|
    ensures Joined(done, LoadList(ts, cs[i..], st)) ==
      match LoadPointer(ts, cs[i], st)
      case LoadError => LoadError
      case Loaded(p, st2, ts2) => Joined(done + [p], LoadList(ts2, cs[i + 1..], st2))
  {
    assert cs[i..][0] == cs[i] && cs[i..][1..] == cs[i + 1..];
    match LoadPointer(ts, cs[i], st)
    case LoadError =>
    case Loaded(p, st2, ts2) =>
      var tail := LoadList(ts2, cs[i + 1..], st2);
      if tail.Loaded? { assert done + ([p] + tail.value) == done + [p] + tail.value; }
  }
}
