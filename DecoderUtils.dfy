/** Local-variable slot helpers shared by the generated decoders: how many
    slots a component's value takes and which typed load/store instruction
    family moves it. */
module DecoderUtils {
  import opened Types

  /** The typed instruction family of a load or store: `lload`/`lstore`,
      `dload`/`dstore`, `fload`/`fstore`, or `iload`/`istore`. */
  datatype Category = LongCat | DoubleCat | FloatCat | IntCat

  /** Local-variable slots a value of category `c` occupies: section 2.6.1
      of the Java Virtual Machine Specification gives `long` and `double`
      two consecutive local variables and every other value one. */
  function CategorySlots(c: Category): nat {
    if c == LongCat || c == DoubleCat then 2 else 1
  }

  /** `slotsFor`: two slots for `long` and `double`, one for every other
      type, references included. */
  function SlotsFor(t: JType): (n: nat)
    ensures n == 1 || n == 2
    ensures n == 2 <==> t == Prim(Long) || t == Prim(Double)
  {
    if t == Prim(Long) || t == Prim(Double) then 2 else 1
  }

  /** `loadType`: the load family chosen for a component type. */
  function LoadCategory(t: JType): (c: Category)
    ensures c == LongCat <==> t == Prim(Long)
    ensures c == DoubleCat <==> t == Prim(Double)
    ensures c == FloatCat <==> t == Prim(Float)
  {
    if t == Prim(Long) then LongCat
    else if t == Prim(Double) then DoubleCat
    else if t == Prim(Float) then FloatCat
    else IntCat
  }

  /** `storeType`: the store family chosen for a component type; it is the
      same family `loadType` picks, so a value is read back with the
      instruction that wrote it. */
  function StoreCategory(t: JType): (c: Category)
    ensures c == LoadCategory(t)
    ensures c == IntCat <==> !(t == Prim(Long) || t == Prim(Double) || t == Prim(Float))
  {
    if t == Prim(Long) then LongCat
    else if t == Prim(Double) then DoubleCat
    else if t == Prim(Float) then FloatCat
    else IntCat
  }

  /** The slot count `slotsFor` gives agrees with the width the virtual
      machine assigns to the category `storeType` stores with: the two-slot
      types are exactly those stored by `lstore` or `dstore`. */
  lemma SlotsMatchCategory(t: JType)
    ensures SlotsFor(t) == CategorySlots(StoreCategory(t))
    ensures SlotsFor(t) == 2 <==> StoreCategory(t) in {LongCat, DoubleCat}
  {
  }

  /** The slot of each component when the components are laid out from
      slot `base` in order, each taking `SlotsFor` of its type. */
  function SlotLayout(ts: seq<JType>, base: nat): (slots: seq<nat>)
    ensures |slots| == |ts|
    decreases |ts|
  {
    if ts == [] then []
    else [base] + SlotLayout(ts[1..], base + SlotsFor(ts[0]))
  }

  /** Slots taken by all values of `ts` together. */
  function TotalSlots(ts: seq<JType>): nat {
    if ts == [] then 0 else SlotsFor(ts[0]) + TotalSlots(ts[1..])
  }

  /** The slots of one more component add to the slots of those before. */
  lemma {:induction false} TotalSlotsSnoc(ts: seq<JType>, k: nat)
    requires k < |ts|
    ensures TotalSlots(ts[..k + 1]) == TotalSlots(ts[..k]) + SlotsFor(ts[k])
    decreases k
  {
    if k > 0 {
      TotalSlotsSnoc(ts[1..], k - 1);
      assert ts[..k + 1][1..] == ts[1..][..k];
      assert ts[..k][1..] == ts[1..][..k - 1];
    } else {
      assert ts[..1][1..] == [];
    }
  }

  /** A longer prefix takes at least as many slots. */
  lemma {:induction false} TotalSlotsGrow(ts: seq<JType>, a: nat, b: nat)
    requires a <= b <= |ts|
    ensures TotalSlots(ts[..a]) <= TotalSlots(ts[..b])
    decreases b - a
  {
    if a < b {
      TotalSlotsSnoc(ts, a);
      TotalSlotsGrow(ts, a + 1, b);
    }
  }

  /** The slot of component `k` is `base` plus the slots of the components
      before it. */
  lemma {:induction false} SlotLayoutAt(ts: seq<JType>, base: nat, k: nat)
    requires k < |ts|
    ensures SlotLayout(ts, base)[k] == base + TotalSlots(ts[..k])
    decreases |ts|
  {
    if k > 0 {
      SlotLayoutAt(ts[1..], base + SlotsFor(ts[0]), k - 1);
      assert ts[1..][..k - 1] == ts[..k][1..];
    }
  }

  /** In the layout, an earlier component's slots end at or before a later
      component's first slot, so no two values share a local variable and
      slot order is declaration order. */
  lemma SlotLayoutDisjoint(ts: seq<JType>, base: nat, i: nat, j: nat)
    requires i < j < |ts|
    ensures SlotLayout(ts, base)[i] + SlotsFor(ts[i]) <= SlotLayout(ts, base)[j]
  {
    SlotLayoutAt(ts, base, i);
    SlotLayoutAt(ts, base, j);
    TotalSlotsSnoc(ts, i);
    TotalSlotsGrow(ts, i + 1, j);
  }
}
