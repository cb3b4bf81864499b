/** Schema analysis over reflected record components: per-component wire
    widths, the memoised record size, the cycle check over nested records,
    the fixed-size test, and the JVM field descriptor of a component type. */
module ClassUtils {
  import opened Types
  import opened Sequences

  // ---------------------------------------------------------------------
  // Wire widths (sumFieldSizes)
  // ---------------------------------------------------------------------

  /** The number of wire bytes of one component, or the exception that
      `sumFieldSizes` raises for it. Enums are recognised before the switch on
      the type name; `long` honours all three unsigned annotations, `int`
      only the byte and short ones. */
  function FieldSize(c: Component): (r: Result<int>)
    ensures r.Ok? <==> c.ty.Enum? || (c.ty.Prim? && c.ty.prim != Boolean)
    ensures r.Err? ==> r.error == IllegalState
    ensures r.Ok? ==> r.value == 1 || r.value == 2 || r.value == 4 || r.value == 8
    ensures c.ty == Prim(Long) ==>
              r == Ok(if c.ann.unsignedByte then 1 else if c.ann.unsignedShort then 2
                      else if c.ann.unsignedInteger then 4 else 8)
    ensures c.ty == Prim(Int) ==>
              r == Ok(if c.ann.unsignedByte then 1 else if c.ann.unsignedShort then 2 else 4)
  {
    if c.ty.Enum? then Ok(1)
    else match c.ty
      case Prim(Long) =>
        if c.ann.unsignedByte then Ok(1)
        else if c.ann.unsignedShort then Ok(2)
        else if c.ann.unsignedInteger then Ok(4)
        else Ok(8)
      case Prim(Int) =>
        if c.ann.unsignedByte then Ok(1)
        else if c.ann.unsignedShort then Ok(2)
        else Ok(4)
      case Prim(Short) => Ok(2)
      case Prim(Byte) => Ok(1)
      case Prim(Double) => Ok(8)
      case Prim(Float) => Ok(4)
      case Prim(Char) => Ok(2)
      case Prim(Boolean) => Err(IllegalState)
      case _ => Err(IllegalState)
  }

  /** The sum of the component widths, evaluated left to right: the first
      component without a width aborts the sum with its exception. */
  function SumFieldSizes(cs: seq<Component>): (r: Result<int>)
    ensures r.Ok? <==> forall i :: 0 <= i < |cs| ==> FieldSize(cs[i]).Ok?
    ensures r.Err? ==> r.error == IllegalState
    ensures r.Ok? ==> |cs| <= r.value <= 8 * |cs|
  {
    if cs == [] then Ok(0)
    else match FieldSize(cs[0])
      case Err(e) => Err(e)
      case Ok(w) =>
        match SumFieldSizes(cs[1..])
        case Err(e) => Err(e)
        case Ok(s) => Ok(w + s)
  }

  /** How the sums of two consecutive runs of components combine. */
  function CombineSizes(a: Result<int>, b: Result<int>): Result<int> {
    if a.Err? then a else if b.Err? then b else Ok(a.value + b.value)
  }

  /** The size of a concatenation is the sum of the sizes, and the first
      failing part decides the exception. */
  lemma {:induction false} SumFieldSizesAppend(a: seq<Component>, b: seq<Component>)
    ensures SumFieldSizes(a + b) == CombineSizes(SumFieldSizes(a), SumFieldSizes(b))
  {
    if a != [] {
      AppendCons(a, b);
      SumFieldSizesAppend(a[1..], b);
      SumFieldSizesCons(a);
      SumFieldSizesCons(a + b);
    } else {
      assert a + b == b;
    }
  }

  lemma SumFieldSizesCons(cs: seq<Component>)
    requires cs != []
    ensures SumFieldSizes(cs) == CombineSizes(FieldSize(cs[0]), SumFieldSizes(cs[1..]))
  {
  }

  /** A single component on its own is sized by `FieldSize`. */
  lemma SumFieldSizesSingle(c: Component)
    ensures SumFieldSizes([c]) == FieldSize(c)
  {
    assert [c][1..] == [];
  }

  // ---------------------------------------------------------------------
  // The size cache (getRecordSize)
  // ---------------------------------------------------------------------

  /** The process-wide memo from record class to its size. */
  class SizeCache {
    var entries: map<string, int>

    /** Every cached entry is the size of a registered record. */
    ghost predicate Valid(reg: Registry)
      reads this
    {
      forall n :: n in entries ==> n in reg && SumFieldSizes(reg[n]) == Ok(entries[n])
    }

    constructor ()
      ensures entries == map[]
    {
      entries := map[];
    }

    /** `getRecordSize`: `computeIfAbsent` then `get`. When the size cannot be
        computed the exception propagates and nothing is recorded. */
    method GetRecordSize(reg: Registry, name: string) returns (r: Result<int>)
      requires name in reg && Valid(reg)
      modifies this
      ensures Valid(reg)
      ensures r == SumFieldSizes(reg[name])
      ensures r.Ok? ==> entries == old(entries)[name := r.value]
      ensures r.Err? ==> entries == old(entries)
    {
      if name !in entries {
        var s := SumFieldSizes(reg[name]);
        if s.Err? {
          return s;
        }
        entries := entries[name := s.value];
      }
      r := Ok(entries[name]);
    }
  }

  /** A second lookup of the same record returns the first answer and leaves
      the cache as the first lookup left it. */
  method GetRecordSizeTwice(cache: SizeCache, reg: Registry, name: string) returns (first: Result<int>, second: Result<int>)
    requires name in reg && cache.Valid(reg)
    modifies cache
    ensures cache.Valid(reg)
    ensures first == second == SumFieldSizes(reg[name])
    ensures first.Ok? ==> cache.entries == old(cache.entries)[name := first.value]
  {
    first := cache.GetRecordSize(reg, name);
    ghost var afterFirst := cache.entries;
    second := cache.GetRecordSize(reg, name);
    assert first.Ok? ==> cache.entries == afterFirst;
  }

  // ---------------------------------------------------------------------
  // Cycle detection (isInfinitelyNested)
  // ---------------------------------------------------------------------

  /** The types of all registered records: the walk can only keep going
      through these, which bounds its depth. */
  function RecordTypes(reg: Registry): set<JType> {
    set n | n in reg :: Class(n)
  }

  lemma PathShrinks(reg: Registry, t: JType, path: set<JType>)
    requires IsRecord(reg, t) && t !in path
    ensures |RecordTypes(reg) - (path + {t})| < |RecordTypes(reg) - path|
  {
    assert t in RecordTypes(reg);
    assert RecordTypes(reg) - path == (RecordTypes(reg) - (path + {t})) + {t};
  }

  /** The meaning of the private walk: `Ok(true)` once a type already on
      `path` is reached, `Err(NullPointer)` when a non-leaf component is not
      a record (its `getRecordComponents()` is null), otherwise the
      components are tried in declaration order. */
  function Nested(reg: Registry, t: JType, path: set<JType>): (r: Result<bool>)
    ensures r.Err? ==> r.error == NullPointer
    decreases |RecordTypes(reg) - path|, 0
  {
    if t in path then Ok(true)
    else if !IsRecord(reg, t) then Err(NullPointer)
    else
      PathShrinks(reg, t, path);
      NestedComps(reg, reg[t.name], 0, path + {t})
  }

  /** The component loop of the walk, from component `i` on. */
  function NestedComps(reg: Registry, cs: seq<Component>, i: nat, path: set<JType>): (r: Result<bool>)
    requires i <= |cs|
    ensures r.Err? ==> r.error == NullPointer
    decreases |RecordTypes(reg) - path|, 1, |cs| - i
  {
    if i == |cs| then Ok(false)
    else if IsLeaf(cs[i].ty) then NestedComps(reg, cs, i + 1, path)
    else
      match Nested(reg, cs[i].ty, path)
      case Ok(false) => NestedComps(reg, cs, i + 1, path)
      case other => other
  }

  /** The private overload: adds `t` to the path-local visited set, walks
      the non-leaf components depth first and returns early on a cycle, and
      removes `t` again before answering false. */
  method IsInfinitelyNestedFrom(reg: Registry, t: JType, visited: set<JType>)
    returns (r: Result<bool>, visitedOut: set<JType>)
    ensures r == Nested(reg, t, visited)
    ensures r == Ok(false) ==> visitedOut == visited
    decreases |RecordTypes(reg) - visited|
  {
    if t in visited {
      return Ok(true), visited;
    }
    var v := visited + {t};
    if !IsRecord(reg, t) {
      return Err(NullPointer), v;
    }
    var comps := reg[t.name];
    PathShrinks(reg, t, visited);
    var i := 0;
    while i < |comps|
      invariant 0 <= i <= |comps|
      invariant v == visited + {t}
      invariant NestedComps(reg, comps, i, v) == Nested(reg, t, visited)
    {
      var ty := comps[i].ty;
      if !IsLeaf(ty) {
        var sub, v' := IsInfinitelyNestedFrom(reg, ty, v);
        if sub != Ok(false) {
          return sub, v';
        }
        v := v';
      }
      i := i + 1;
    }
    v := v - {t};
    return Ok(false), v;
  }

  /** The public overload: the walk from a record with an empty visited set. */
  method IsInfinitelyNested(reg: Registry, name: string) returns (r: Result<bool>)
    requires name in reg
    ensures r == Nested(reg, Class(name), {})
  {
    var visited;
    r, visited := IsInfinitelyNestedFrom(reg, Class(name), {});
  }

  /** `b` is the type of a component of record `a` that the walk descends into. */
  ghost predicate Edge(reg: Registry, a: JType, b: JType) {
    IsRecord(reg, a) && !IsLeaf(b) && exists c :: c in reg[a.name] && c.ty == b
  }

  /** A path through the nesting graph. */
  ghost predicate IsWalk(reg: Registry, w: seq<JType>) {
    |w| > 0 && forall i :: 0 <= i < |w| - 1 ==> Edge(reg, w[i], w[i + 1])
  }

  /** No type occurs twice on the walk. */
  ghost predicate SimpleWalk(w: seq<JType>) {
    forall i, j :: 0 <= i < j < |w| ==> w[i] != w[j]
  }

  lemma {:induction false} NestedCompsFalse(reg: Registry, cs: seq<Component>, i: nat, path: set<JType>, k: nat)
    requires i <= k < |cs| && NestedComps(reg, cs, i, path) == Ok(false) && !IsLeaf(cs[k].ty)
    ensures Nested(reg, cs[k].ty, path) == Ok(false)
    decreases k - i
  {
    if i < k {
      NestedCompsFalse(reg, cs, i + 1, path, k);
    }
  }

  lemma {:induction false} NestedCompsTrue(reg: Registry, cs: seq<Component>, i: nat, path: set<JType>)
    returns (k: nat)
    requires i <= |cs| && NestedComps(reg, cs, i, path) == Ok(true)
    ensures i <= k < |cs| && !IsLeaf(cs[k].ty) && Nested(reg, cs[k].ty, path) == Ok(true)
    decreases |cs| - i
  {
    if IsLeaf(cs[i].ty) || Nested(reg, cs[i].ty, path) == Ok(false) {
      k := NestedCompsTrue(reg, cs, i + 1, path);
    } else {
      k := i;
    }
  }

  /** A false answer means every walk from `t` is simple and avoids the
      current path. */
  lemma {:induction false} AcyclicWalks(reg: Registry, t: JType, path: set<JType>, w: seq<JType>)
    requires Nested(reg, t, path) == Ok(false)
    requires IsWalk(reg, w) && w[0] == t
    ensures SimpleWalk(w)
    ensures forall i :: 0 <= i < |w| ==> w[i] !in path
    decreases |RecordTypes(reg) - path|
  {
    assert t !in path && IsRecord(reg, t);
    if |w| > 1 {
      var comps := reg[t.name];
      assert Edge(reg, w[0], w[1]);
      var c :| c in comps && c.ty == w[1];
      var k :| 0 <= k < |comps| && comps[k] == c;
      PathShrinks(reg, t, path);
      NestedCompsFalse(reg, comps, 0, path + {t}, k);
      var rest := w[1..];
      assert IsWalk(reg, rest) by {
        forall i | 0 <= i < |rest| - 1 ensures Edge(reg, rest[i], rest[i + 1]) {
          assert rest[i] == w[i + 1] && rest[i + 1] == w[i + 2];
        }
      }
      AcyclicWalks(reg, w[1], path + {t}, rest);
      forall i | 0 <= i < |w| ensures w[i] !in path {
        if i > 0 { assert w[i] == rest[i - 1]; }
      }
      forall i, j | 0 <= i < j < |w| ensures w[i] != w[j] {
        assert w[j] == rest[j - 1];
        if i > 0 { assert w[i] == rest[i - 1]; }
      }
    }
  }

  /** A true answer comes with a walk from `t` that repeats a type or runs
      into the current path. */
  lemma {:induction false} CycleWitness(reg: Registry, t: JType, path: set<JType>) returns (w: seq<JType>)
    requires Nested(reg, t, path) == Ok(true)
    ensures IsWalk(reg, w) && w[0] == t
    ensures !SimpleWalk(w) || exists i :: 0 <= i < |w| && w[i] in path
    decreases |RecordTypes(reg) - path|
  {
    if t in path {
      w := [t];
      assert w[0] in path;
    } else {
      var comps := reg[t.name];
      PathShrinks(reg, t, path);
      var k := NestedCompsTrue(reg, comps, 0, path + {t});
      var sub := CycleWitness(reg, comps[k].ty, path + {t});
      w := [t] + sub;
      assert Edge(reg, t, sub[0]) by {
        assert comps[k] in comps;
      }
      assert IsWalk(reg, w) by {
        forall i | 0 <= i < |w| - 1 ensures Edge(reg, w[i], w[i + 1]) {
          if i > 0 { assert w[i] == sub[i - 1] && w[i + 1] == sub[i]; }
        }
      }
      if SimpleWalk(sub) {
        var i :| 0 <= i < |sub| && sub[i] in path + {t};
        assert w[i + 1] == sub[i];
        if sub[i] == t {
          assert w[0] == w[i + 1];
        } else {
          assert w[i + 1] in path;
        }
      } else {
        var i, j :| 0 <= i < j < |sub| && sub[i] == sub[j];
        assert w[i + 1] == w[j + 1];
      }
    }
  }

  /** Every non-leaf component type of every record is itself a record. */
  ghost predicate Closed(reg: Registry) {
    forall n, c :: n in reg && c in reg[n] && !IsLeaf(c.ty) ==> IsRecord(reg, c.ty)
  }

  lemma {:induction false} NestedTotal(reg: Registry, t: JType, path: set<JType>)
    requires Closed(reg) && (IsRecord(reg, t) || t in path)
    ensures Nested(reg, t, path).Ok?
    decreases |RecordTypes(reg) - path|, 0
  {
    if t !in path {
      PathShrinks(reg, t, path);
      NestedCompsTotal(reg, reg[t.name], 0, path + {t}, t.name);
    }
  }

  lemma {:induction false} NestedCompsTotal(reg: Registry, cs: seq<Component>, i: nat, path: set<JType>, owner: string)
    requires Closed(reg) && owner in reg && cs == reg[owner] && i <= |cs|
    ensures NestedComps(reg, cs, i, path).Ok?
    decreases |RecordTypes(reg) - path|, 1, |cs| - i
  {
    if i < |cs| {
      if !IsLeaf(cs[i].ty) {
        assert cs[i] in reg[owner];
        NestedTotal(reg, cs[i].ty, path);
      }
      NestedCompsTotal(reg, cs, i + 1, path, owner);
    }
  }

  /** What `isInfinitelyNested` decides: true exactly when some walk from the
      record revisits a type, false exactly when every walk is simple; on a
      registry whose non-leaf components are all records it never throws. */
  lemma InfinitelyNestedMeaning(reg: Registry, name: string)
    requires name in reg
    ensures Nested(reg, Class(name), {}) == Ok(true) ==>
              exists w :: IsWalk(reg, w) && w[0] == Class(name) && !SimpleWalk(w)
    ensures Nested(reg, Class(name), {}) == Ok(false) ==>
              forall w :: IsWalk(reg, w) && w[0] == Class(name) ==> SimpleWalk(w)
    ensures Closed(reg) ==>
              (Nested(reg, Class(name), {}) == Ok(true) <==>
               exists w :: IsWalk(reg, w) && w[0] == Class(name) && !SimpleWalk(w))
  {
    var root := Class(name);
    var r := Nested(reg, root, {});
    if Closed(reg) {
      NestedTotal(reg, root, {});
      if r.value {
        assert r == Ok(true);
      } else {
        assert r == Ok(false);
      }
    }
    if r == Ok(true) {
      var w := CycleWitness(reg, root, {});
      assert !SimpleWalk(w);
    } else if r == Ok(false) {
      forall w | IsWalk(reg, w) && w[0] == root ensures SimpleWalk(w) {
        AcyclicWalks(reg, root, {}, w);
      }
    }
  }

  // ---------------------------------------------------------------------
  // Fixed size (isFixedSize, defined by its tests)
  // ---------------------------------------------------------------------

  /** A type has a statically fixed wire size: a primitive other than
      `boolean`, an enum, or a record that is not on the current path and
      whose components all have fixed size. `String`, arrays and classes
      that are not records are dynamic. */
  function FixedFrom(reg: Registry, t: JType, path: set<JType>): bool
    decreases |RecordTypes(reg) - path|
  {
    match t
    case Prim(p) => p != Boolean
    case Enum(_) => true
    case Str => false
    case Array(_) => false
    case Class(n) =>
      if n in reg && t !in path then
        PathShrinks(reg, t, path);
        forall c :: c in reg[n] ==> FixedFrom(reg, c.ty, path + {t})
      else
        false
  }

  /** `isFixedSize`. A fixed-size record is never infinitely nested. */
  function IsFixedSize(reg: Registry, name: string): (r: bool)
    requires name in reg
    ensures r ==> Nested(reg, Class(name), {}) == Ok(false)
  {
    var r := FixedFrom(reg, Class(name), {});
    if r then FixedIsAcyclic(reg, Class(name), {}); r else r
  }

  lemma {:induction false} FixedIsAcyclic(reg: Registry, t: JType, path: set<JType>)
    requires FixedFrom(reg, t, path) && !IsLeaf(t)
    ensures Nested(reg, t, path) == Ok(false)
    decreases |RecordTypes(reg) - path|, 0
  {
    PathShrinks(reg, t, path);
    FixedCompsAcyclic(reg, reg[t.name], 0, path + {t});
  }

  lemma {:induction false} FixedCompsAcyclic(reg: Registry, cs: seq<Component>, i: nat, path: set<JType>)
    requires i <= |cs| && forall c :: c in cs ==> FixedFrom(reg, c.ty, path)
    ensures NestedComps(reg, cs, i, path) == Ok(false)
    decreases |RecordTypes(reg) - path|, 1, |cs| - i
  {
    if i < |cs| {
      assert cs[i] in cs;
      if !IsLeaf(cs[i].ty) {
        FixedIsAcyclic(reg, cs[i].ty, path);
      }
      FixedCompsAcyclic(reg, cs, i + 1, path);
    }
  }

  /** For a record without nested classes, being fixed-size and having a
      computable `sumFieldSizes` are the same thing. */
  lemma FlatFixedIffSized(reg: Registry, name: string)
    requires name in reg
    requires forall c :: c in reg[name] ==> !c.ty.Class?
    ensures IsFixedSize(reg, name) <==> SumFieldSizes(reg[name]).Ok?
  {
    var cs := reg[name];
    var root := Class(name);
    assert IsFixedSize(reg, name) == FixedFrom(reg, root, {});
    assert FixedFrom(reg, root, {}) <==> forall c :: c in cs ==> FixedFrom(reg, c.ty, {} + {root});
    assert forall c :: c in cs ==> (FixedFrom(reg, c.ty, {} + {root}) <==> FieldSize(c).Ok?);
    assert (forall c :: c in cs ==> FieldSize(c).Ok?) <==>
           (forall i :: 0 <= i < |cs| ==> FieldSize(cs[i]).Ok?) by {
      if forall i :: 0 <= i < |cs| ==> FieldSize(cs[i]).Ok? {
        forall c | c in cs ensures FieldSize(c).Ok? {
          var i :| 0 <= i < |cs| && cs[i] == c;
        }
      }
    }
  }

  // ---------------------------------------------------------------------
  // Field descriptors (getDescriptor), section 4.3.2 of the JVM specification
  // ---------------------------------------------------------------------

  /** The base-type letter of a primitive (Table 4.3-A of the JVM specification). */
  function PrimLetter(p: Primitive): char {
    match p
    case Long => 'J'
    case Int => 'I'
    case Short => 'S'
    case Byte => 'B'
    case Double => 'D'
    case Float => 'F'
    case Char => 'C'
    case Boolean => 'Z'
  }

  /** `Class.getName()` of a reference type: the dotted binary name, and for
      arrays a `[` before the element's letter, `L<name>;`, or nested array name. */
  function ClassName(t: JType): string
    requires !t.Prim?
  {
    match t
    case Enum(n) => n
    case Str => "java.lang.String"
    case Class(n) => n
    case Array(e) =>
      "[" + (if e.Prim? then [PrimLetter(e.prim)]
             else if e.Array? then ClassName(e)
             else "L" + ClassName(e) + ";")
  }

  /** `getDescriptor`: one letter per primitive, `boolean` rejected, and any
      reference type as `L` + its `getName()` + `;`. */
  function Descriptor(t: JType): (r: Result<string>)
    ensures r.Err? <==> t == Prim(Boolean)
    ensures r.Err? ==> r.error == IllegalArgument
    ensures r.Ok? && t.Prim? ==> |r.value| == 1 && r.value[0] in "JISBDFC"
    ensures !t.Prim? ==> r.Ok? && |r.value| >= 2 && r.value[0] == 'L' && r.value[|r.value| - 1] == ';'
  {
    if t.Prim? then
      if t.prim == Boolean then Err(IllegalArgument) else Ok([PrimLetter(t.prim)])
    else
      Ok("L" + ClassName(t) + ";")
  }

  /** Distinct supported primitives get distinct descriptors. */
  lemma DescriptorInjective(p: Primitive, q: Primitive)
    requires p != q && p != Boolean && q != Boolean
    ensures Descriptor(Prim(p)) != Descriptor(Prim(q))
  {
  }
}
