/** The records of the cycle, fixed-size and size tests, as registries, and
    what the analysis answers for each of them. */
module ClassUtilsExamples {
  import opened Types
  import opened ClassUtils

  function Plain(t: JType): Component {
    Component(t, NoAnnotations)
  }

  function Ref(name: string): Component {
    Plain(Class(name))
  }

  const SimpleComps := [Plain(Prim(Int)), Plain(Prim(Float))]

  /** `record Simple(int x, float y)` has only leaf components. */
  lemma SimpleIsLeafOnly(reg: Registry, path: set<JType>)
    ensures NestedComps(reg, SimpleComps, 0, path) == Ok(false)
  {
    assert NestedComps(reg, SimpleComps, 2, path) == Ok(false);
    assert NestedComps(reg, SimpleComps, 1, path) == Ok(false);
  }

  lemma DirectSelfIsCyclic()
    ensures Nested(map["DirectSelf" := [Ref("DirectSelf")]], Class("DirectSelf"), {}) == Ok(true)
  {
    var reg := map["DirectSelf" := [Ref("DirectSelf")]];
    var t := Class("DirectSelf");
    assert Nested(reg, t, {t}) == Ok(true);
    assert NestedComps(reg, reg[t.name], 0, {t}) == Ok(true);
  }

  /** `NullableStyle(NullableStyle next)` and `LinkedList(LinkedList next)`
      refer to themselves once, as a nullable link would, and are flagged
      all the same. */
  lemma SelfLinksAreCyclic()
    ensures Nested(map["NullableStyle" := [Ref("NullableStyle")]], Class("NullableStyle"), {}) == Ok(true)
    ensures Nested(map["LinkedList" := [Ref("LinkedList")]], Class("LinkedList"), {}) == Ok(true)
  {
    var n := Class("NullableStyle");
    var l := Class("LinkedList");
    assert NestedComps(map["NullableStyle" := [Ref("NullableStyle")]], [Ref("NullableStyle")], 0, {n}) == Ok(true);
    assert NestedComps(map["LinkedList" := [Ref("LinkedList")]], [Ref("LinkedList")], 0, {l}) == Ok(true);
  }

  lemma TreeIsCyclic()
    ensures Nested(map["Tree" := [Ref("Tree"), Ref("Tree")]], Class("Tree"), {}) == Ok(true)
  {
    var reg := map["Tree" := [Ref("Tree"), Ref("Tree")]];
    var t := Class("Tree");
    assert Nested(reg, t, {t}) == Ok(true);
    assert NestedComps(reg, reg[t.name], 0, {t}) == Ok(true);
  }

  function IndirectRegistry(): Registry {
    map["IndirectA" := [Ref("IndirectB")], "IndirectB" := [Ref("IndirectC")], "IndirectC" := [Ref("IndirectA")]]
  }

  lemma IndirectCycleIsCyclic()
    ensures Nested(IndirectRegistry(), Class("IndirectA"), {}) == Ok(true)
  {
    var reg := IndirectRegistry();
    var a, b, c := Class("IndirectA"), Class("IndirectB"), Class("IndirectC");
    assert reg["IndirectA"] == [Ref("IndirectB")] && reg["IndirectB"] == [Ref("IndirectC")] && reg["IndirectC"] == [Ref("IndirectA")];
    assert Nested(reg, a, {a, b, c}) == Ok(true);
    assert NestedComps(reg, reg["IndirectC"], 0, {a, b, c}) == Ok(true);
    assert {a, b} + {c} == {a, b, c};
    assert Nested(reg, c, {a, b}) == Ok(true);
    assert NestedComps(reg, reg["IndirectB"], 0, {a, b}) == Ok(true);
    assert {a} + {b} == {a, b};
    assert Nested(reg, b, {a}) == Ok(true);
    assert NestedComps(reg, reg["IndirectA"], 0, {a}) == Ok(true);
    assert {} + {a} == {a};
    assert Nested(reg, a, {}) == NestedComps(reg, reg["IndirectA"], 0, {} + {a});
  }

  function MixedRegistry(): Registry {
    map["Mixed" := [Ref("Simple"), Ref("DirectSelf")], "Simple" := SimpleComps, "DirectSelf" := [Ref("DirectSelf")]]
  }

  lemma MixedIsCyclic()
    ensures Nested(MixedRegistry(), Class("Mixed"), {}) == Ok(true)
  {
    var reg := MixedRegistry();
    var m, s, d := Class("Mixed"), Class("Simple"), Class("DirectSelf");
    assert reg["Mixed"] == [Ref("Simple"), Ref("DirectSelf")] && reg["Simple"] == SimpleComps && reg["DirectSelf"] == [Ref("DirectSelf")];
    SimpleIsLeafOnly(reg, {m} + {s});
    assert Nested(reg, s, {m}) == Ok(false);
    assert Nested(reg, d, {m, d}) == Ok(true);
    assert NestedComps(reg, reg["DirectSelf"], 0, {m} + {d}) == Ok(true);
    assert Nested(reg, d, {m}) == Ok(true);
    assert NestedComps(reg, reg["Mixed"], 1, {m}) == Ok(true);
    assert NestedComps(reg, reg["Mixed"], 0, {m}) == Ok(true);
    assert {} + {m} == {m};
    assert Nested(reg, m, {}) == NestedComps(reg, reg["Mixed"], 0, {} + {m});
  }

  function DiamondRegistry(): Registry {
    map["Diamond" := [Ref("Simple"), Ref("Simple")], "Simple" := SimpleComps]
  }

  function FlatReferenceRegistry(): Registry {
    map["FlatReference" := [Ref("Simple")], "Simple" := SimpleComps]
  }

  /** A flat record is not flagged, nor is `FlatReference(Simple other)`;
      neither are two sibling references to the same acyclic record
      (`Diamond`), because the walk takes a record off the visited set when
      it backtracks. */
  lemma AcyclicRecordsAreNotFlagged()
    ensures Nested(map["Simple" := SimpleComps], Class("Simple"), {}) == Ok(false)
    ensures Nested(FlatReferenceRegistry(), Class("FlatReference"), {}) == Ok(false)
    ensures Nested(DiamondRegistry(), Class("Diamond"), {}) == Ok(false)
  {
    var flat := map["Simple" := SimpleComps];
    SimpleIsLeafOnly(flat, {} + {Class("Simple")});
    var fr := FlatReferenceRegistry();
    var f, s0 := Class("FlatReference"), Class("Simple");
    assert fr["FlatReference"] == [Ref("Simple")] && fr["Simple"] == SimpleComps;
    SimpleIsLeafOnly(fr, {f} + {s0});
    assert Nested(fr, s0, {f}) == Ok(false);
    assert NestedComps(fr, fr["FlatReference"], 1, {f}) == Ok(false);
    assert NestedComps(fr, fr["FlatReference"], 0, {f}) == Ok(false);
    assert {} + {f} == {f};
    assert Nested(fr, f, {}) == NestedComps(fr, fr["FlatReference"], 0, {} + {f});
    var reg := DiamondRegistry();
    var s, d := Class("Simple"), Class("Diamond");
    assert reg["Diamond"] == [Ref("Simple"), Ref("Simple")] && reg["Simple"] == SimpleComps;
    SimpleIsLeafOnly(reg, {d} + {s});
    assert Nested(reg, s, {d}) == Ok(false);
    assert NestedComps(reg, reg["Diamond"], 2, {d}) == Ok(false);
    assert NestedComps(reg, reg["Diamond"], 1, {d}) == Ok(false);
    assert NestedComps(reg, reg["Diamond"], 0, {d}) == Ok(false);
    assert {} + {d} == {d};
    assert Nested(reg, d, {}) == NestedComps(reg, reg["Diamond"], 0, {} + {d});
  }

  /** `PrimitiveRecord(int i, long l, boolean b, double d)`: its `boolean`
      has no width (`sumFieldSizes` and `getDescriptor` both reject it), so
      the record is not fixed-size here, although its test expects it to
      be. */
  lemma BooleanRecordIsNotFixed()
    ensures !IsFixedSize(map["PrimitiveRecord" := [Plain(Prim(Int)), Plain(Prim(Long)), Plain(Prim(Boolean)), Plain(Prim(Double))]], "PrimitiveRecord")
    ensures SumFieldSizes([Plain(Prim(Int)), Plain(Prim(Long)), Plain(Prim(Boolean)), Plain(Prim(Double))]) == Err(IllegalState)
  {
    var cs := [Plain(Prim(Int)), Plain(Prim(Long)), Plain(Prim(Boolean)), Plain(Prim(Double))];
    var reg := map["PrimitiveRecord" := cs];
    assert reg["PrimitiveRecord"][2] == Plain(Prim(Boolean));
    assert !FieldSize(cs[2]).Ok?;
  }

  /** The remaining fixed-size tests, each over the records it declares.
      An enum component is fixed-size. */
  lemma EnumRecordIsFixed()
    ensures IsFixedSize(map["EnumRecord" := [Plain(Enum("SampleEnum"))]], "EnumRecord")
  {
  }

  /** A record nesting an all-primitive record is fixed-size. */
  lemma NestedFixedIsFixed()
    ensures IsFixedSize(map["OuterFixed" := [Ref("InnerFixed")],
                            "InnerFixed" := [Plain(Prim(Int)), Plain(Prim(Short))]], "OuterFixed")
  {
    var outer := map["OuterFixed" := [Ref("InnerFixed")],
                     "InnerFixed" := [Plain(Prim(Int)), Plain(Prim(Short))]];
    assert outer["InnerFixed"] == [Plain(Prim(Int)), Plain(Prim(Short))];
    assert FixedFrom(outer, Class("InnerFixed"), {} + {Class("OuterFixed")});
  }

  /** Three levels of nesting over an `int` are fixed-size. */
  lemma DeepNestingIsFixed()
    ensures IsFixedSize(map["Level3" := [Ref("Level2")], "Level2" := [Ref("Level1")],
                            "Level1" := [Plain(Prim(Int))]], "Level3")
  {
    var levels := map["Level3" := [Ref("Level2")], "Level2" := [Ref("Level1")],
                      "Level1" := [Plain(Prim(Int))]];
    var l1, l2, l3 := Class("Level1"), Class("Level2"), Class("Level3");
    assert levels["Level2"] == [Ref("Level1")] && levels["Level1"] == [Plain(Prim(Int))];
    assert FixedFrom(levels, l1, {} + {l3} + {l2});
    assert FixedFrom(levels, l2, {} + {l3});
  }

  /** `String`, primitive arrays and enum arrays are not fixed-size. */
  lemma FlatDynamicCases()
    ensures !IsFixedSize(map["StringRecord" := [Plain(Str)]], "StringRecord")
    ensures !IsFixedSize(map["IntArrayRecord" := [Plain(Array(Prim(Int)))]], "IntArrayRecord")
    ensures !IsFixedSize(map["EnumArrayRecord" := [Plain(Array(Enum("SampleEnum")))]], "EnumArrayRecord")
  {
    var s := map["StringRecord" := [Plain(Str)]];
    assert s["StringRecord"][0] == Plain(Str);
    var a := map["IntArrayRecord" := [Plain(Array(Prim(Int)))]];
    assert a["IntArrayRecord"][0] == Plain(Array(Prim(Int)));
    var e := map["EnumArrayRecord" := [Plain(Array(Enum("SampleEnum")))]];
    assert e["EnumArrayRecord"][0] == Plain(Array(Enum("SampleEnum")));
  }

  /** A record nesting a `String` record is not fixed-size. */
  lemma NestedDynamicIsDynamic()
    ensures !IsFixedSize(map["OuterDynamic" := [Ref("InnerDynamic")],
                             "InnerDynamic" := [Plain(Str)]], "OuterDynamic")
  {
    var od := map["OuterDynamic" := [Ref("InnerDynamic")], "InnerDynamic" := [Plain(Str)]];
    assert od["InnerDynamic"][0] == Plain(Str) && od["OuterDynamic"][0] == Ref("InnerDynamic");
    assert !FixedFrom(od, Class("InnerDynamic"), {} + {Class("OuterDynamic")});
  }

  /** One dynamic component deep inside makes the outer record dynamic. */
  lemma MixedDynamicIsDynamic()
    ensures !IsFixedSize(map["MixedOuter" := [Ref("MixedInner"), Plain(Prim(Long))],
                             "MixedInner" := [Plain(Prim(Int)), Plain(Str)]], "MixedOuter")
  {
    var mo := map["MixedOuter" := [Ref("MixedInner"), Plain(Prim(Long))],
                  "MixedInner" := [Plain(Prim(Int)), Plain(Str)]];
    assert mo["MixedInner"][1] == Plain(Str) && mo["MixedOuter"][0] == Ref("MixedInner");
    assert !FixedFrom(mo, Class("MixedInner"), {} + {Class("MixedOuter")});
  }

  /** `UnsignedTest(@UnsignedByte int, @UnsignedShort int, @UnsignedInteger long)`. */
  function UnsignedTest(): seq<Component> {
    [ Component(Prim(Int), Annotations(true, false, false)),
      Component(Prim(Int), Annotations(false, true, false)),
      Component(Prim(Long), Annotations(false, false, true)) ]
  }

  lemma UnsignedTestSize()
    ensures SumFieldSizes(UnsignedTest()) == Ok(7)
  {
    var cs := UnsignedTest();
    assert cs[1..][1..][1..] == [];
  }
}
