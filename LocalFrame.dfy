/** What a generated decoder body does with the values it reads, shared by
    the stream and the buffer decoders: each component's value is stored
    into a local-variable slot with a typed store, and the constructor's
    arguments are then loaded back from those slots with typed loads. The
    class verifier rejects a body whose stores or loads do not match the
    values they move. */
module LocalFrame {
  import opened Types
  import opened Wire
  import opened DecoderUtils
  import opened ClassUtils

  /** The store/load family a value of kind `k` needs: `long`, `double` and
      `float` have their own; `int`, `short`, `byte` and `char` all use the
      `int` family. */
  function KindCategory(k: Kind): (c: Category)
    ensures CategorySlots(c) == 2 <==> k == JLong || k == JDouble
    ensures c == IntCat <==> k in {JInt, JShort, JByte, JChar}
  {
    match k
    case JLong => LongCat
    case JDouble => DoubleCat
    case JFloat => FloatCat
    case _ => IntCat
  }

  /** Local-variable slots a value occupies. */
  function ValueSlots(v: Value): nat {
    CategorySlots(KindCategory(v.kind))
  }

  /** Read one component with `reader` and store it with family `cat` into
      `slot`. */
  datatype Store = Store(reader: Reader, cat: Category, slot: nat)

  /** Load one constructor argument with family `cat` from `slot`. */
  datatype Load = Load(cat: Category, slot: nat)

  /** A generated decoder body: the stores in component order, then the
      loads in argument order. */
  datatype Fill = Fill(stores: seq<Store>, loads: seq<Load>)

  function Readers(stores: seq<Store>): (rs: seq<Reader>)
    ensures |rs| == |stores|
    ensures forall k :: 0 <= k < |stores| ==> rs[k] == stores[k].reader
  {
    seq(|stores|, k requires 0 <= k < |stores| => stores[k].reader)
  }

  /** The local variables holding a usable value, by slot. */
  type Locals = map<nat, Value>

  /** A typed store of `v` into slot `s`: `s` then holds `v`, and a value
      whose slots overlap the slots `v` now takes is no longer usable (a
      `long` or `double` takes `s` and `s + 1`; a store into the upper slot
      of one invalidates it). */
  function Put(locals: Locals, s: nat, v: Value): (l: Locals)
    ensures s in l && l[s] == v
    ensures forall t :: t in locals && (t + ValueSlots(locals[t]) <= s || s + ValueSlots(v) <= t) ==>
      t in l && l[t] == locals[t]
  {
    (map t | t in locals && (t + ValueSlots(locals[t]) <= s || s + ValueSlots(v) <= t) :: locals[t])[s := v]
  }

  /** The locals after the stores of `stores` have put `vs` away, in order,
      starting from an empty frame; `VerifyError` when a store's family is
      not the one its value needs. */
  function StoreAll(stores: seq<Store>, vs: seq<Value>): (r: Result<Locals>)
    requires |vs| == |stores|
    ensures r.Err? ==> r == Err(VerifyError)
    decreases |stores|
  {
    if stores == [] then Ok(map[])
    else
      var n := |stores| - 1;
      var before := StoreAll(stores[..n], vs[..n]);
      if before.Err? then before
      else if stores[n].cat != KindCategory(vs[n].kind) then Err(VerifyError)
      else Ok(Put(before.value, stores[n].slot, vs[n]))
  }

  /** The arguments the loads push, in order; `VerifyError` when a load
      finds no usable value of its family in its slot. */
  function LoadAll(loads: seq<Load>, locals: Locals): (r: Result<seq<Value>>)
    ensures r.Err? ==> r == Err(VerifyError)
    ensures r.Ok? ==> |r.value| == |loads|
  {
    if loads == [] then Ok([])
    else if loads[0].slot !in locals || KindCategory(locals[loads[0].slot].kind) != loads[0].cat then Err(VerifyError)
    else
      var rest := LoadAll(loads[1..], locals);
      if rest.Err? then rest else Ok([locals[loads[0].slot]] + rest.value)
  }

  /** The constructor arguments a body produces when its reads yield `vs`. */
  function Frame(f: Fill, vs: seq<Value>): Result<seq<Value>>
    requires |vs| == |f.stores|
  {
    var stored := StoreAll(f.stores, vs);
    if stored.Err? then Err(stored.error) else LoadAll(f.loads, stored.value)
  }

  /** Running a body over the bytes `bs`: its reads decode the components
      in order, and the constructor receives what its loads fetch. */
  function Run(f: Fill, bs: seq<uint8>): Result<seq<Value>>
    requires TotalWidth(Readers(f.stores)) <= |bs|
  {
    Frame(f, DecodeAll(Readers(f.stores), bs).values)
  }

  /** Every store uses the family its value needs. */
  predicate Typed(stores: seq<Store>, vs: seq<Value>)
    requires |vs| == |stores|
  {
    forall k :: 0 <= k < |stores| ==> stores[k].cat == KindCategory(vs[k].kind)
  }

  /** Each value's slots end before the next stored value's slot. */
  predicate Disjoint(stores: seq<Store>, vs: seq<Value>)
    requires |vs| == |stores|
  {
    forall i, j :: 0 <= i < j < |stores| ==> stores[i].slot + ValueSlots(vs[i]) <= stores[j].slot
  }

  /** With well-typed stores into disjoint slots, every stored value is
      still in its slot once all stores have run. */
  lemma {:induction false} StoreAllHolds(stores: seq<Store>, vs: seq<Value>, k: nat)
    requires |vs| == |stores| && Typed(stores, vs) && Disjoint(stores, vs) && k < |stores|
    ensures StoreAll(stores, vs).Ok?
    ensures stores[k].slot in StoreAll(stores, vs).value
    ensures StoreAll(stores, vs).value[stores[k].slot] == vs[k]
    decreases |stores|
  {
    var n := |stores| - 1;
    var front, fvs := stores[..n], vs[..n];
    assert Typed(front, fvs) && Disjoint(front, fvs);
    if k < n {
      StoreAllHolds(front, fvs, k);
      assert front[k] == stores[k] && fvs[k] == vs[k];
    } else if n > 0 {
      StoreAllHolds(front, fvs, 0);
    }
  }

  /** A store of the wrong family makes the class verifier reject the
      body. */
  lemma {:induction false} StoreAllRejects(stores: seq<Store>, vs: seq<Value>, k: nat)
    requires |vs| == |stores| && k < |stores|
    requires stores[k].cat != KindCategory(vs[k].kind)
    ensures StoreAll(stores, vs) == Err(VerifyError)
    decreases |stores|
  {
    var n := |stores| - 1;
    if k < n {
      StoreAllRejects(stores[..n], vs[..n], k);
    }
  }

  /** Loads that each find their value, of their own family, fetch exactly
      those values in order. */
  lemma {:induction false} LoadAllGets(loads: seq<Load>, locals: Locals, vs: seq<Value>)
    requires |loads| == |vs|
    requires forall k :: 0 <= k < |loads| ==>
      loads[k].slot in locals && locals[loads[k].slot] == vs[k] && KindCategory(vs[k].kind) == loads[k].cat
    ensures LoadAll(loads, locals) == Ok(vs)
  {
    if loads != [] {
      LoadAllGets(loads[1..], locals, vs[1..]);
      assert [vs[0]] + vs[1..] == vs;
    }
  }

  /** The body both builders emit for component types `types` read by `rs`:
      component `k` is stored with `storeType`'s family into its slot of
      the layout that starts at slot 1 (slot 0 holds the stream or the
      buffer), and argument `k` is loaded with `loadType`'s family from the
      same slot. */
  function FillFor(types: seq<JType>, rs: seq<Reader>): (f: Fill)
    requires |types| == |rs|
    ensures |f.stores| == |f.loads| == |rs|
    ensures Readers(f.stores) == rs
    ensures forall k :: 0 <= k < |rs| ==> f.loads[k] == Load(f.stores[k].cat, f.stores[k].slot)
  {
    var slots := SlotLayout(types, 1);
    Fill(seq(|rs|, k requires 0 <= k < |rs| => Store(rs[k], StoreCategory(types[k]), slots[k])),
         seq(|rs|, k requires 0 <= k < |rs| => Load(LoadCategory(types[k]), slots[k])))
  }

  /** Component `k` goes to slot 1 plus the slots `slotsFor` gives the
      components before it, stored with `storeType`'s family. */
  lemma FillForStore(types: seq<JType>, rs: seq<Reader>, k: nat)
    requires |types| == |rs| && k < |rs|
    ensures FillFor(types, rs).stores[k] == Store(rs[k], StoreCategory(types[k]), 1 + TotalSlots(types[..k]))
  {
    SlotLayoutAt(types, 1, k);
  }

  /** Each read produces a value of the family `storeType` picks for its
      component type. */
  predicate Agree(types: seq<JType>, rs: seq<Reader>) {
    |types| == |rs| && forall k :: 0 <= k < |rs| ==> KindCategory(KindOf(rs[k])) == StoreCategory(types[k])
  }

  /** The emitted stores are well typed and never overlap. */
  lemma FillForSound(types: seq<JType>, rs: seq<Reader>, vs: seq<Value>)
    requires Agree(types, rs) && |vs| == |rs|
    requires forall k :: 0 <= k < |rs| ==> vs[k].kind == KindOf(rs[k])
    ensures Typed(FillFor(types, rs).stores, vs)
    ensures Disjoint(FillFor(types, rs).stores, vs)
  {
    var stores := FillFor(types, rs).stores;
    var slots := SlotLayout(types, 1);
    forall i, j | 0 <= i < j < |rs|
      ensures stores[i].slot + ValueSlots(vs[i]) <= stores[j].slot
    {
      SlotLayoutDisjoint(types, 1, i, j);
      SlotsMatchCategory(types[i]);
    }
  }

  /** The slot invariant of the emitted body: whatever the reads yield, the
      class verifier accepts it and the constructor receives exactly the
      values read, in declaration order. */
  lemma FrameFillFor(types: seq<JType>, rs: seq<Reader>, vs: seq<Value>)
    requires Agree(types, rs) && |vs| == |rs|
    requires forall k :: 0 <= k < |rs| ==> vs[k].kind == KindOf(rs[k])
    ensures Frame(FillFor(types, rs), vs) == Ok(vs)
  {
    var f := FillFor(types, rs);
    if rs != [] {
      FillForSound(types, rs, vs);
      StoreAllHolds(f.stores, vs, 0);
      var locals := StoreAll(f.stores, vs).value;
      forall k | 0 <= k < |rs|
        ensures f.loads[k].slot in locals && locals[f.loads[k].slot] == vs[k]
        ensures KindCategory(vs[k].kind) == f.loads[k].cat
      {
        StoreAllHolds(f.stores, vs, k);
      }
      LoadAllGets(f.loads, locals, vs);
    }
  }

  /** Running the emitted body over enough bytes gives the constructor the
      decoded components. */
  lemma RunFillFor(types: seq<JType>, rs: seq<Reader>, bs: seq<uint8>)
    requires Agree(types, rs) && TotalWidth(rs) <= |bs|
    ensures Run(FillFor(types, rs), bs) == Ok(DecodeAll(rs, bs).values)
  {
    var vs := DecodeAll(rs, bs).values;
    forall k | 0 <= k < |rs|
      ensures vs[k].kind == KindOf(rs[k])
    {
      AllFitAt(rs, vs, k);
    }
    FrameFillFor(types, rs, vs);
  }

  /** The component types, in declaration order. */
  function TypesOf(cs: seq<Component>): (ts: seq<JType>)
    ensures |ts| == |cs|
    ensures forall k :: 0 <= k < |cs| ==> ts[k] == cs[k].ty
  {
    seq(|cs|, k requires 0 <= k < |cs| => cs[k].ty)
  }

  /** The reads a builder chooses with `dispatch` for components `cs`, one
      per component in order, or the exception of the first component it
      has no read for. */
  function Plan(cs: seq<Component>, dispatch: Component -> Result<Reader>): (r: Result<seq<Reader>>)
    ensures r.Ok? <==> forall k :: 0 <= k < |cs| ==> dispatch(cs[k]).Ok?
    ensures r.Ok? ==> |r.value| == |cs|
    ensures r.Ok? ==> forall k :: 0 <= k < |cs| ==> dispatch(cs[k]) == Ok(r.value[k])
  {
    if cs == [] then Ok([])
    else
      var head := dispatch(cs[0]);
      var tail := Plan(cs[1..], dispatch);
      if head.Err? then Err(head.error)
      else if tail.Err? then tail
      else Ok([head.value] + tail.value)
  }

  /** A plan fails with the exception of its first component without a
      read. */
  lemma {:induction false} PlanFirstError(cs: seq<Component>, dispatch: Component -> Result<Reader>, k: nat)
    requires k < |cs| && dispatch(cs[k]).Err?
    requires forall j :: 0 <= j < k ==> dispatch(cs[j]).Ok?
    ensures Plan(cs, dispatch) == Err(dispatch(cs[k]).error)
  {
    if k > 0 {
      PlanFirstError(cs[1..], dispatch, k - 1);
    }
  }

  /** The first component `dispatch` has no read for, at or before `k`:
      the one at which the generation loop throws. */
  lemma FirstFailure(cs: seq<Component>, dispatch: Component -> Result<Reader>, k: nat) returns (j: nat)
    requires k < |cs| && dispatch(cs[k]).Err?
    ensures j <= k && dispatch(cs[j]).Err?
    ensures forall i :: 0 <= i < j ==> dispatch(cs[i]).Ok?
  {
    j := 0;
    while dispatch(cs[j]).Ok?
      invariant j <= k
      invariant forall i :: 0 <= i < j ==> dispatch(cs[i]).Ok?
      decreases k - j
    {
      j := j + 1;
    }
  }

  /** Every read `dispatch` chooses consumes the width `sumFieldSizes`
      counts for its component. */
  predicate Sized(cs: seq<Component>, dispatch: Component -> Result<Reader>) {
    forall k :: 0 <= k < |cs| ==> dispatch(cs[k]).Ok? ==> FieldSize(cs[k]) == Ok(Width(dispatch(cs[k]).value))
  }

  /** Then a complete plan reads exactly the record size. */
  lemma {:induction false} PlanWidth(cs: seq<Component>, dispatch: Component -> Result<Reader>)
    requires Sized(cs, dispatch) && Plan(cs, dispatch).Ok?
    ensures SumFieldSizes(cs) == Ok(TotalWidth(Plan(cs, dispatch).value))
  {
    if cs != [] {
      assert Sized(cs[1..], dispatch);
      PlanWidth(cs[1..], dispatch);
    }
  }

  /** What generating a decoder body yields: the plan's first exception,
      or the body `FillFor` lays out for it. */
  function Body(cs: seq<Component>, dispatch: Component -> Result<Reader>): Result<Fill> {
    var p := Plan(cs, dispatch);
    if p.Err? then Err(p.error) else Ok(FillFor(TypesOf(cs), p.value))
  }

  /** The generation loops both builders run: one pass over the components
      choosing each read and storing it at `index`, which advances by
      `slotsFor`; then one pass loading each argument at `cursor`, which
      advances the same way. */
  method EmitBody(cs: seq<Component>, dispatch: Component -> Result<Reader>) returns (r: Result<Fill>)
    ensures r == Body(cs, dispatch)
  {
    var types := TypesOf(cs);
    var stores: seq<Store> := [];
    ghost var rs: seq<Reader> := [];
    var index := 1;
    var k := 0;
    while k < |cs|
      invariant 0 <= k <= |cs| && |stores| == |rs| == k
      invariant index == 1 + TotalSlots(types[..k])
      invariant forall j :: 0 <= j < k ==> dispatch(cs[j]) == Ok(rs[j])
      invariant forall j :: 0 <= j < k ==>
        stores[j] == Store(rs[j], StoreCategory(types[j]), 1 + TotalSlots(types[..j]))
    {
      var read := dispatch(cs[k]);
      if read.Err? {
        PlanFirstError(cs, dispatch, k);
        return Err(read.error);
      }
      stores := stores + [Store(read.value, StoreCategory(types[k]), index)];
      rs := rs + [read.value];
      TotalSlotsSnoc(types, k);
      index := index + SlotsFor(types[k]);
      k := k + 1;
    }
    var loads: seq<Load> := [];
    var cursor := 1;
    k := 0;
    while k < |cs|
      invariant 0 <= k <= |cs| && |loads| == k
      invariant cursor == 1 + TotalSlots(types[..k])
      invariant forall j :: 0 <= j < k ==> loads[j] == Load(LoadCategory(types[j]), 1 + TotalSlots(types[..j]))
    {
      loads := loads + [Load(LoadCategory(types[k]), cursor)];
      TotalSlotsSnoc(types, k);
      cursor := cursor + SlotsFor(types[k]);
      k := k + 1;
    }
    assert Plan(cs, dispatch).value == rs;
    BodyIs(types, rs, stores, loads);
    r := Ok(Fill(stores, loads));
  }

  lemma BodyIs(types: seq<JType>, rs: seq<Reader>, stores: seq<Store>, loads: seq<Load>)
    requires |types| == |rs| == |stores| == |loads|
    requires forall j :: 0 <= j < |rs| ==> stores[j] == Store(rs[j], StoreCategory(types[j]), 1 + TotalSlots(types[..j]))
    requires forall j :: 0 <= j < |rs| ==> loads[j] == Load(LoadCategory(types[j]), 1 + TotalSlots(types[..j]))
    ensures FillFor(types, rs) == Fill(stores, loads)
  {
    var f := FillFor(types, rs);
    forall j | 0 <= j < |rs|
      ensures f.stores[j] == stores[j] && f.loads[j] == loads[j]
    {
      FillForStore(types, rs, j);
    }
  }
}
