/**
 The memory layout of a type once the sizes of the types it refers to are known: where each
 entity starts, how large the type is, and why the padding decided at append time is right.
 */
module TypeLayout {
  import opened Wrappers
  import opened ProtoType
  import opened Remainders

  /** The known sizes of types. */
  type Sizes = map<Name, nat>

  /** The types that the first `k` entities of a type refer to. */
  function TargetsTo(def: TypeDef, k: nat): set<Name>
    requires k <= |def.entities|
  {
    if k == 0 then {}
    else TargetsTo(def, k - 1) + if def.entities[k - 1].Compound? then {def.entities[k - 1].target} else {}
  }

  function Targets(def: TypeDef): set<Name> {
    TargetsTo(def, |def.entities|)
  }

  function ElementSize(e: Entity, sizes: Sizes): nat
    requires e.Compound? ==> e.target in sizes
  {
    match e
    case Atomic(_, elemSize, _) => elemSize
    case Compound(_, _, target) => sizes[target]
    case Alias(_, _) => 0
  }

  function Dims(e: Entity): seq<nat> {
    if e.Alias? then [] else e.dims
  }

  /** The bytes of an entity, without the padding after it. */
  function EntitySize(e: Entity, sizes: Sizes): nat
    requires e.Compound? ==> e.target in sizes
  {
    ElementSize(e, sizes) * Product(Dims(e))
  }

  /** The padding needed after a referenced type before the next field. */
  function GapAfter(e: Entity, sizes: Sizes, padding: nat): nat
    requires e.Compound? ==> e.target in sizes
  {
    if e.Compound? && padding > 0 then (padding - EntitySize(e, sizes) % padding) % padding else 0
  }

  /** The state of the layout pass: bytes used, padding due before the next field, offsets so far. */
  datatype Cursor = Cursor(size: nat, gap: nat, offsets: seq<Option<nat>>)

  /** One entity of the layout pass. */
  function Place(c: Cursor, e: Entity, sizes: Sizes, padding: nat): Cursor
    requires e.Compound? ==> e.target in sizes
  {
    var offsets := c.offsets + [if e.Alias? then None else Some(c.size + c.gap)];
    if EntitySize(e, sizes) == 0 || e.Alias? then c.(offsets := offsets)
    else Cursor(c.size + c.gap + EntitySize(e, sizes), GapAfter(e, sizes, padding), offsets)
  }

  /** The layout of the first `k` entities. */
  function LayoutTo(def: TypeDef, sizes: Sizes, k: nat): (c: Cursor)
    requires k <= |def.entities| && TargetsTo(def, k) <= sizes.Keys
    ensures |c.offsets| == k
  {
    if k == 0 then Cursor(0, 0, []) else Place(LayoutTo(def, sizes, k - 1), def.entities[k - 1], sizes, def.padding)
  }

  function Layout(def: TypeDef, sizes: Sizes): Cursor
    requires Targets(def) <= sizes.Keys
  {
    LayoutTo(def, sizes, |def.entities|)
  }

  lemma {:induction false} TargetsMonotone(def: TypeDef, i: nat, k: nat)
    requires i <= k <= |def.entities|
    ensures TargetsTo(def, i) <= TargetsTo(def, k)
    ensures i < k && def.entities[i].Compound? ==> def.entities[i].target in TargetsTo(def, k)
  {
    if i < k {
      if i < k - 1 {
        TargetsMonotone(def, i, k - 1);
      }
    }
  }

  /** The layout depends only on the sizes of the types referred to. */
  lemma {:induction false} LayoutAgrees(def: TypeDef, s1: Sizes, s2: Sizes, k: nat)
    requires k <= |def.entities| && TargetsTo(def, k) <= s1.Keys && TargetsTo(def, k) <= s2.Keys
    requires forall t :: t in TargetsTo(def, k) ==> s1[t] == s2[t]
    ensures LayoutTo(def, s1, k) == LayoutTo(def, s2, k)
  {
    if k > 0 {
      LayoutAgrees(def, s1, s2, k - 1);
    }
  }

  lemma {:induction false} OffsetsStay(def: TypeDef, sizes: Sizes, i: nat, k: nat)
    requires i <= k <= |def.entities| && TargetsTo(def, k) <= sizes.Keys
    ensures TargetsTo(def, i) <= sizes.Keys
    ensures LayoutTo(def, sizes, k).offsets[..i] == LayoutTo(def, sizes, i).offsets
    ensures LayoutTo(def, sizes, i).size <= LayoutTo(def, sizes, k).size
  {
    TargetsMonotone(def, i, k);
    if i < k {
      OffsetsStay(def, sizes, i, k - 1);
    }
  }

  // ----- Fields are inside the type and apart from each other -----

  /** The offset of the `i`-th entity, which is not an alias. */
  function Offset(def: TypeDef, sizes: Sizes, i: nat): nat
    requires Targets(def) <= sizes.Keys && i < |def.entities| && !def.entities[i].Alias?
  {
    OffsetsStay(def, sizes, i + 1, |def.entities|);
    assert Layout(def, sizes).offsets[i] == LayoutTo(def, sizes, i + 1).offsets[i];
    Layout(def, sizes).offsets[i].value
  }

  lemma OffsetIsCursor(def: TypeDef, sizes: Sizes, i: nat)
    requires Targets(def) <= sizes.Keys && i < |def.entities| && !def.entities[i].Alias?
    ensures TargetsTo(def, i) <= sizes.Keys
    ensures var c := LayoutTo(def, sizes, i); Offset(def, sizes, i) == c.size + c.gap
    ensures def.entities[i].Compound? ==> def.entities[i].target in sizes
    ensures EntitySize(def.entities[i], sizes) > 0 ==>
              LayoutTo(def, sizes, i + 1).size == Offset(def, sizes, i) + EntitySize(def.entities[i], sizes)
  {
    TargetsMonotone(def, i, |def.entities|);
    TargetsMonotone(def, i + 1, |def.entities|);
    OffsetsStay(def, sizes, i + 1, |def.entities|);
    assert Layout(def, sizes).offsets[i] == LayoutTo(def, sizes, i + 1).offsets[i];
  }

  /** A non-empty field lies inside the type. */
  lemma FieldInside(def: TypeDef, sizes: Sizes, i: nat)
    requires Targets(def) <= sizes.Keys && i < |def.entities| && !def.entities[i].Alias?
    ensures def.entities[i].Compound? ==> def.entities[i].target in sizes
    ensures EntitySize(def.entities[i], sizes) > 0 ==>
              Offset(def, sizes, i) + EntitySize(def.entities[i], sizes) <= Layout(def, sizes).size
  {
    OffsetIsCursor(def, sizes, i);
    OffsetsStay(def, sizes, i + 1, |def.entities|);
  }

  /** A non-empty field ends before every later field starts. */
  lemma FieldsApart(def: TypeDef, sizes: Sizes, i: nat, j: nat)
    requires Targets(def) <= sizes.Keys && i < j < |def.entities|
    requires !def.entities[i].Alias? && !def.entities[j].Alias?
    ensures def.entities[i].Compound? ==> def.entities[i].target in sizes
    ensures EntitySize(def.entities[i], sizes) > 0 ==>
              Offset(def, sizes, i) + EntitySize(def.entities[i], sizes) <= Offset(def, sizes, j)
  {
    OffsetIsCursor(def, sizes, i);
    OffsetIsCursor(def, sizes, j);
    OffsetsStay(def, sizes, i + 1, j);
  }

  // ----- There are no other gaps -----

  /** The entity takes no bytes. */
  predicate TakesNothing(e: Entity, sizes: Sizes)
    requires e.Compound? ==> e.target in sizes
  {
    match e
    case Atomic(_, elemSize, dims) => elemSize * Product(dims) == 0
    case Compound(_, dims, target) => sizes[target] * Product(dims) == 0
    case Alias(_, _) => true
  }

  ghost predicate NothingBetween(def: TypeDef, sizes: Sizes, i: nat, j: nat)
    requires i <= j <= |def.entities| && Targets(def) <= sizes.Keys
  {
    forall k :: i <= k < j ==>
      (def.entities[k].Compound? ==> def.entities[k].target in sizes) && TakesNothing(def.entities[k], sizes)
  }

  lemma {:induction false} NothingMoves(def: TypeDef, sizes: Sizes, i: nat, j: nat)
    requires i <= j <= |def.entities| && Targets(def) <= sizes.Keys && NothingBetween(def, sizes, i, j)
    ensures TargetsTo(def, i) <= sizes.Keys && TargetsTo(def, j) <= sizes.Keys
    ensures LayoutTo(def, sizes, j).size == LayoutTo(def, sizes, i).size
    ensures LayoutTo(def, sizes, j).gap == LayoutTo(def, sizes, i).gap
  {
    hide Product;
    TargetsMonotone(def, i, |def.entities|);
    TargetsMonotone(def, j, |def.entities|);
    if i < j {
      NothingMoves(def, sizes, i, j - 1);
      assert TakesNothing(def.entities[j - 1], sizes);
    }
  }

  /** The first field that takes bytes starts at zero. */
  lemma FirstStart(def: TypeDef, sizes: Sizes, j: nat)
    requires Targets(def) <= sizes.Keys && j < |def.entities| && !def.entities[j].Alias? && NothingBetween(def, sizes, 0, j)
    ensures Offset(def, sizes, j) == 0
  {
    OffsetIsCursor(def, sizes, j);
    NothingMoves(def, sizes, 0, j);
  }

  /**
   The next field starts where the one before it ends, unless that is a reference: then it starts
   after the least gap that makes up a multiple of the padding size.
   */
  lemma NextStart(def: TypeDef, sizes: Sizes, i: nat, j: nat)
    requires Targets(def) <= sizes.Keys && i < j < |def.entities| && NothingBetween(def, sizes, i + 1, j)
    requires !def.entities[i].Alias? && !def.entities[j].Alias?
    ensures def.entities[i].Compound? ==> def.entities[i].target in sizes
    ensures var e := def.entities[i];
            var bytes := (if e.Compound? then sizes[e.target] else e.elemSize) * Product(e.dims);
            bytes > 0 ==>
              var gap := Offset(def, sizes, j) - (Offset(def, sizes, i) + bytes);
              if e.Compound? && def.padding > 0 then 0 <= gap < def.padding && (bytes + gap) % def.padding == 0 else gap == 0
  {
    hide Product, GapAfter;
    OffsetIsCursor(def, sizes, i);
    OffsetIsCursor(def, sizes, j);
    NothingMoves(def, sizes, i + 1, j);
    GapIsLeast(def.entities[i], sizes, def.padding);
  }

  lemma GapIsLeast(e: Entity, sizes: Sizes, padding: nat)
    requires e.Compound? ==> e.target in sizes
    ensures var gap, bytes := GapAfter(e, sizes, padding), EntitySize(e, sizes);
            if e.Compound? && padding > 0 then gap < padding && (bytes + gap) % padding == 0 else gap == 0
  {
    hide EntitySize;
    if e.Compound? && padding > 0 {
      ZeroRemainder(padding);
      FillUp(0, EntitySize(e, sizes), padding);
    }
  }

  /** A type ends where its last field ends; one without fields takes nothing. */
  lemma TypeEnds(def: TypeDef, sizes: Sizes, i: nat)
    requires Targets(def) <= sizes.Keys && i < |def.entities| && !def.entities[i].Alias?
    requires NothingBetween(def, sizes, i + 1, |def.entities|)
    ensures def.entities[i].Compound? ==> def.entities[i].target in sizes
    ensures var e := def.entities[i];
            var bytes := (if e.Compound? then sizes[e.target] else e.elemSize) * Product(e.dims);
            bytes > 0 ==> Layout(def, sizes).size == Offset(def, sizes, i) + bytes
  {
    hide Product;
    OffsetIsCursor(def, sizes, i);
    NothingMoves(def, sizes, i + 1, |def.entities|);
  }

  /** Only a type none of whose fields takes bytes takes none itself. */
  lemma EmptyType(def: TypeDef, sizes: Sizes)
    requires Targets(def) <= sizes.Keys
    ensures Layout(def, sizes).size == 0 <==> NothingBetween(def, sizes, 0, |def.entities|)
  {
    hide Product;
    if NothingBetween(def, sizes, 0, |def.entities|) {
      NothingMoves(def, sizes, 0, |def.entities|);
    } else if Layout(def, sizes).size == 0 {
      forall k | 0 <= k < |def.entities|
        ensures (def.entities[k].Compound? ==> def.entities[k].target in sizes) && TakesNothing(def.entities[k], sizes)
      {
        TargetsMonotone(def, k, |def.entities|);
        TargetsMonotone(def, k + 1, |def.entities|);
        OffsetsStay(def, sizes, k + 1, |def.entities|);
      }
    }
  }

  // ----- The padding decided at append time is right -----

  /**
   Whatever sizes the referenced types turn out to have, an entity starts, modulo the padding size,
   where the append functions thought it would.
   */
  lemma {:induction false} CursorMatchesPadding(def: TypeDef, sizes: Sizes, k: nat)
    requires WellBuilt(def) && def.padding > 0 && k <= |def.entities| && TargetsTo(def, k) <= sizes.Keys
    ensures var c := LayoutTo(def, sizes, k); (c.size + c.gap) % def.padding == PaddingOffset(def, k)
  {
    hide Place, EntitySize, GapAfter, FixedSize;
    if k > 0 {
      CursorMatchesPadding(def, sizes, k - 1);
      assert Placed(def, k - 1);
      StepMatchesPadding(LayoutTo(def, sizes, k - 1), def.entities[k - 1], sizes, def.padding, PaddingOffset(def, k - 1));
    }
  }

  lemma StepMatchesPadding(c: Cursor, e: Entity, sizes: Sizes, padding: nat, offset: nat)
    requires padding > 0 && (e.Compound? ==> e.target in sizes)
    requires (c.size + c.gap) % padding == offset && (e.Compound? ==> offset == 0)
    ensures var after := Place(c, e, sizes, padding); (after.size + after.gap) % padding == (offset + FixedSize(e)) % padding
  {
    hide EntitySize, FixedSize, GapAfter, Place;
    ZeroRemainder(padding);
    PlaceSum(c, e, sizes, padding);
    if e.Compound? {
      FillUp(c.size + c.gap, EntitySize(e, sizes), padding);
    } else {
      AddRemainder(c.size + c.gap, FixedSize(e), padding);
    }
  }

  /** How far placing an entity moves the start of the next one. */
  lemma PlaceSum(c: Cursor, e: Entity, sizes: Sizes, padding: nat)
    requires padding > 0 && (e.Compound? ==> e.target in sizes)
    ensures var after := Place(c, e, sizes, padding);
            after.size + after.gap == c.size + c.gap +
              if e.Compound? then EntitySize(e, sizes) + (padding - EntitySize(e, sizes) % padding) % padding else FixedSize(e)
    ensures e.Compound? ==> FixedSize(e) == 0
  {
    hide Product;
    ZeroRemainder(padding);
  }

  lemma ZeroRemainder(n: nat)
    requires n > 0
    ensures 0 % n == 0 && n % n == 0
  {
  }

  /**
   In a type made by the append functions a named field that does not fill more than one padding
   unit stays within one, and a larger field or a reference starts on a boundary.
   */
  lemma FieldsRespectPadding(def: TypeDef, sizes: Sizes, i: nat)
    requires WellBuilt(def) && def.padding > 0 && Targets(def) <= sizes.Keys
    requires i < |def.entities| && !def.entities[i].Alias? && (def.entities[i].Atomic? ==> def.entities[i].symbol.Some?)
    ensures def.entities[i].Compound? ==> def.entities[i].target in sizes
    ensures var start, bytes := Offset(def, sizes, i) % def.padding, EntitySize(def.entities[i], sizes);
            if def.entities[i].Compound? || bytes > def.padding then start == 0 else start + bytes <= def.padding
  {
    OffsetIsCursor(def, sizes, i);
    CursorMatchesPadding(def, sizes, i);
    assert Placed(def, i);
  }
}
