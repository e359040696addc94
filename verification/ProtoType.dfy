/**
 Protocol type descriptions: how the append functions insert padding between the entities of a
 type, before the sizes of the referenced types are known.
 */
module ProtoType {
  import opened Wrappers

  type Name = string

  /** One segment of a name expression. */
  datatype Segment = Symbol(name: string) | Subscript(index: nat)

  /**
   An entity of a type: a field of a known element size (or anonymous padding), a field of a
   referenced type (or the anonymous base type), or another name for a field.
   */
  datatype Entity =
    | Atomic(symbol: Option<string>, elemSize: nat, dims: seq<nat>)
    | Compound(symbol: Option<string>, dims: seq<nat>, target: Name)
    | Alias(symbol: Option<string>, path: seq<Segment>)

  datatype TypeDef = TypeDef(padding: nat, entities: seq<Entity>)

  function Product(dims: seq<nat>): nat {
    if |dims| == 0 then 1 else dims[0] * Product(dims[1..])
  }

  /** The bytes an entity is known to take when it is appended: references count as nothing. */
  function FixedSize(e: Entity): nat {
    if e.Atomic? then e.elemSize * Product(e.dims) else 0
  }

  /** The offset modulo the padding size at which the `k`-th entity starts, as far as it is known. */
  function PaddingOffset(def: TypeDef, k: nat): nat
    requires k <= |def.entities|
  {
    if k == 0 || def.padding == 0 then 0
    else (PaddingOffset(def, k - 1) + FixedSize(def.entities[k - 1])) % def.padding
  }

  /** Compounds start on a padding boundary; named atomic fields do so or stay within one padding unit. */
  ghost predicate Placed(def: TypeDef, i: nat)
    requires i < |def.entities|
  {
    match def.entities[i]
    case Compound(_, dims, _) => PaddingOffset(def, i) == 0 && AllPositive(dims)
    case Atomic(symbol, _, dims) =>
      && AllPositive(dims)
      && (symbol.Some? && def.padding > 0 ==>
            PaddingOffset(def, i) == 0 || PaddingOffset(def, i) + FixedSize(def.entities[i]) <= def.padding)
    case Alias(_, _) => true
  }

  ghost predicate AllPositive(dims: seq<nat>) {
    forall i :: 0 <= i < |dims| ==> dims[i] > 0
  }

  ghost predicate WellBuilt(def: TypeDef) {
    forall i :: 0 <= i < |def.entities| ==> Placed(def, i)
  }

  lemma {:induction false} PaddingOffsetPrefix(def: TypeDef, more: TypeDef, k: nat)
    requires def.padding == more.padding && k <= |def.entities| && def.entities <= more.entities
    ensures PaddingOffset(more, k) == PaddingOffset(def, k)
  {
    if k > 0 {
      PaddingOffsetPrefix(def, more, k - 1);
    }
  }

  function Extended(def: TypeDef, e: Entity): TypeDef {
    def.(entities := def.entities + [e])
  }

  /** `def`, padded to the next boundary unless `nextSize` bytes may follow right away. */
  function Padded(def: TypeDef, nextSize: nat): TypeDef {
    var offset := PaddingOffset(def, |def.entities|);
    if offset == 0 || offset + nextSize <= def.padding then def
    else OffsetInRange(def); Extended(def, Atomic(None, def.padding - offset, [1]))
  }

  lemma AppendKeepsWellBuilt(def: TypeDef, e: Entity)
    requires WellBuilt(def) && Placed(Extended(def, e), |def.entities|)
    ensures WellBuilt(Extended(def, e))
    ensures PaddingOffset(Extended(def, e), |def.entities|) == PaddingOffset(def, |def.entities|)
  {
    var more := Extended(def, e);
    PaddingOffsetPrefix(def, more, |def.entities|);
    forall i | 0 <= i < |more.entities|
      ensures Placed(more, i)
    {
      if i < |def.entities| {
        PaddingOffsetPrefix(def, more, i);
        assert Placed(def, i);
      }
    }
  }

  /** A type description under construction. */
  class Builder {
    var def: TypeDef

    /** A new type, optionally inheriting from a base type, which becomes its anonymous first entity. */
    constructor (base: Option<Name>, padding: nat)
      ensures WellBuilt(def) && def.padding == padding
      ensures def.entities == if base.Some? then [Compound(None, [1], base.value)] else []
    {
      def := TypeDef(padding, if base.Some? then [Compound(None, [1], base.value)] else []);
    }

    /** A new type, if the padding size is one that is supported. */
    static method New(base: Option<Name>, padding: nat) returns (r: Option<Builder>)
      ensures r.Some? <==> padding in {0, 4, 8}
      ensures r.Some? ==> fresh(r.value) && WellBuilt(r.value.def) && r.value.def.padding == padding
      ensures r.Some? ==> r.value.def.entities == if base.Some? then [Compound(None, [1], base.value)] else []
    {
      if padding != 0 && padding != 4 && padding != 8 {
        return None;
      }
      var b := new Builder(base, padding);
      r := Some(b);
    }

    /** The padding offset at the end of the type, by one pass over the entities and their dimensions. */
    method CurrentOffset() returns (offset: nat)
      ensures offset == PaddingOffset(def, |def.entities|)
    {
      if def.padding == 0 {
        return 0;
      }
      offset := 0;
      for i := 0 to |def.entities|
        invariant offset == PaddingOffset(def, i)
      {
        var e := def.entities[i];
        var delta := 0;
        if e.Atomic? {
          delta := TotalSize(e.elemSize, e.dims);
        }
        offset := (offset + delta) % def.padding;
      }
    }

    static method TotalSize(elemSize: nat, dims: seq<nat>) returns (size: nat)
      ensures size == elemSize * Product(dims)
    {
      size := elemSize;
      for j := 0 to |dims|
        invariant size * Product(dims[j..]) == elemSize * Product(dims)
      {
        assert dims[j..][1..] == dims[j + 1..];
        assert size * Product(dims[j..]) == (size * dims[j]) * Product(dims[j + 1..]);
        size := size * dims[j];
      }
    }

    /** Append padding unless the next `nextSize` bytes start on a boundary or do not reach the next one. */
    method AppendPadding(nextSize: nat)
      requires WellBuilt(def)
      modifies this
      ensures WellBuilt(def) && def == Padded(old(def), nextSize) && def.padding == old(def.padding)
      ensures PaddingOffset(def, |def.entities|) == 0
              || PaddingOffset(def, |def.entities|) + nextSize <= def.padding
      ensures var offset := PaddingOffset(old(def), |old(def).entities|);
              def.entities == old(def).entities +
                if offset == 0 || offset + nextSize <= def.padding then [] else [Atomic(None, def.padding - offset, [1])]
    {
      var offset := CurrentOffset();
      if offset == 0 || offset + nextSize <= def.padding {
        return;
      }
      OffsetInRange(def);
      var pad := Atomic(None, def.padding - offset, [1]);
      AppendKeepsWellBuilt(def, pad);
      PaddingReaches(def, pad, offset);
      def := Extended(def, pad);
    }

    /** Append a field of known element size; without dimensions it is a single element. */
    method AppendAtomic(symbol: string, elemSize: nat, dims: seq<nat>)
      requires WellBuilt(def) && AllPositive(dims)
      modifies this
      ensures var e := Atomic(Some(symbol), elemSize, if |dims| == 0 then [1] else dims);
              WellBuilt(def) && def == Extended(Padded(old(def), FixedSize(e)), e)
      ensures var e := Atomic(Some(symbol), elemSize, if |dims| == 0 then [1] else dims);
              var offset := PaddingOffset(old(def), |old(def).entities|);
              def.padding == old(def.padding) && def.entities ==
                old(def).entities
                + (if offset == 0 || offset + elemSize * Product(e.dims) <= def.padding then []
                   else [Atomic(None, def.padding - offset, [1])])
                + [e]
    {
      var actual := if |dims| == 0 then [1] else dims;
      var size := TotalSize(elemSize, actual);
      AppendPadding(size);
      var e := Atomic(Some(symbol), elemSize, actual);
      PaddingOffsetPrefix(def, Extended(def, e), |def.entities|);
      AppendKeepsWellBuilt(def, e);
      def := Extended(def, e);
    }

    /** Append a field of a referenced type. */
    method AppendCompound(symbol: string, dims: seq<nat>, target: Name)
      requires WellBuilt(def) && AllPositive(dims)
      modifies this
      ensures var e := Compound(Some(symbol), if |dims| == 0 then [1] else dims, target);
              WellBuilt(def) && def == Extended(Padded(old(def), old(def.padding)), e)
      ensures var offset := PaddingOffset(old(def), |old(def).entities|);
              def.padding == old(def.padding) && def.entities ==
                old(def).entities + (if offset == 0 then [] else [Atomic(None, def.padding - offset, [1])])
                + [Compound(Some(symbol), if |dims| == 0 then [1] else dims, target)]
    {
      AppendPadding(def.padding);
      var e := Compound(Some(symbol), if |dims| == 0 then [1] else dims, target);
      PaddingOffsetPrefix(def, Extended(def, e), |def.entities|);
      AppendKeepsWellBuilt(def, e);
      def := Extended(def, e);
    }

    /** Append another name for a field. */
    method AppendAlias(symbol: string, path: seq<Segment>)
      requires WellBuilt(def)
      modifies this
      ensures WellBuilt(def) && def == Extended(old(def), Alias(Some(symbol), path))
      ensures def.padding == old(def.padding) && def.entities == old(def).entities + [Alias(Some(symbol), path)]
    {
      AppendKeepsWellBuilt(def, Alias(Some(symbol), path));
      def := Extended(def, Alias(Some(symbol), path));
    }
  }

  lemma OffsetInRange(def: TypeDef)
    ensures PaddingOffset(def, |def.entities|) == 0 || PaddingOffset(def, |def.entities|) < def.padding
  {
  }

  lemma PaddingReaches(def: TypeDef, pad: Entity, offset: nat)
    requires offset == PaddingOffset(def, |def.entities|) && 0 < offset < def.padding
    requires pad == Atomic(None, def.padding - offset, [1])
    ensures PaddingOffset(Extended(def, pad), |def.entities| + 1) == 0
  {
    PaddingOffsetPrefix(def, Extended(def, pad), |def.entities|);
    assert Product([1]) == 1 by { assert [1][1..] == []; }
    var more := Extended(def, pad);
    assert more.entities[|def.entities|] == pad && FixedSize(pad) == def.padding - offset;
    calc {
      PaddingOffset(more, |def.entities| + 1);
      (PaddingOffset(more, |def.entities|) + FixedSize(pad)) % def.padding;
      def.padding % def.padding;
      { SelfRemainder(def.padding); }
      0;
    }
  }

  /** With less padding than is inserted, a named field would break the rules. */
  lemma PaddingIsNeeded(def: TypeDef, e: Entity, n: nat)
    requires e.Atomic? && e.symbol.Some? && AllPositive(e.dims)
    requires var offset := PaddingOffset(def, |def.entities|);
             offset != 0 && offset + FixedSize(e) > def.padding && n < def.padding - offset
    ensures !Placed(Extended(Extended(def, Atomic(None, n, [1])), e), |def.entities| + 1)
  {
    var offset, pad := PaddingOffset(def, |def.entities|), Atomic(None, n, [1]);
    var more := Extended(def, pad);
    PaddingOffsetPrefix(def, more, |def.entities|);
    PaddingOffsetPrefix(more, Extended(more, e), |more.entities|);
    assert Product([1]) == 1 by { assert [1][1..] == []; }
    assert more.entities[|def.entities|] == pad && FixedSize(pad) == n;
    SmallRemainder(offset + n, def.padding);
  }

  lemma SmallRemainder(x: nat, n: nat)
    requires x < n
    ensures x % n == x
  {
  }

  lemma SelfRemainder(n: nat)
    requires n > 0
    ensures n % n == 0
  {
  }
}
