/**
 What a name expression stands for in a type: fields of nested types, inherited fields, aliases and
 subscripts, without the marks that stop circular aliases.
 */
module NameResolution {
  import opened Wrappers
  import opened ProtoType
  import opened TypeLayout
  import opened TypeMetadata
  import opened Subscripts

  /** A part of a type: where it starts, its element size, remaining dimensions and element type. */
  datatype Part = Part(offset: nat, elemSize: nat, dims: seq<nat>, target: Option<Name>) {
    function Size(): nat {
      elemSize * Product(dims)
    }

    function Shifted(base: nat): Part {
      this.(offset := base + offset)
    }
  }

  type Path = seq<Segment>

  // ----- Steps -----

  /** The first entity from `from` on that has the given symbol. */
  function FindFrom(def: TypeDef, symbol: string, from: nat): (r: Option<nat>)
    requires from <= |def.entities|
    ensures r.Some? ==> r.value < |def.entities|
    decreases |def.entities| - from
  {
    if from == |def.entities| then None
    else if def.entities[from].symbol == Some(symbol) then Some(from)
    else FindFrom(def, symbol, from + 1)
  }

  function Find(def: TypeDef, symbol: string): Option<nat> {
    FindFrom(def, symbol, 0)
  }

  /** The base type, if the type inherits from one. */
  function BaseOf(def: TypeDef): (r: Option<Name>)
  {
    if |def.entities| > 0 && def.entities[0].Compound? && def.entities[0].symbol.None?
    then Some(def.entities[0].target)
    else None
  }

  lemma BaseIsTarget(def: TypeDef)
    ensures BaseOf(def).Some? ==> BaseOf(def).value in Targets(def)
  {
    if |def.entities| > 0 {
      TargetsMonotone(def, 0, |def.entities|);
    }
  }

  /** A field of the type `name` itself. */
  ghost function FieldPart(db: Database, name: Name, i: nat): (r: Part)
    requires HasSize(db, name) && name in db && i < |db[name].entities| && !db[name].entities[i].Alias?
    ensures r.target.Some? ==> HasSize(db, r.target.value) && Rank(db, r.target.value) < Rank(db, name)
  {
    TargetsRankLower(db, name);
    TargetsMonotone(db[name], i, |db[name].entities|);
    var e := db[name].entities[i];
    Part(Offset(db[name], SizesOf(db, name), i), ElementSize(e, SizesOf(db, name)), e.dims,
         if e.Compound? then Some(e.target) else None)
  }

  /** The subscripts at the front of a path. */
  function Indices(path: Path): (index: seq<nat>)
    ensures |index| <= |path|
  {
    if |path| == 0 || path[0].Symbol? then [] else [path[0].index] + Indices(path[1..])
  }

  /** The part picked by subscripts. */
  function Picked(part: Part, index: seq<nat>): Part
    requires |index| <= |part.dims|
  {
    part.(offset := part.offset + ElementsBefore(0, part.dims, index) * part.elemSize, dims := part.dims[|index|..])
  }

  /** A part whose members may be named without further subscripts. */
  predicate Single(dims: seq<nat>) {
    dims == [] || dims == [1]
  }

  /** Whether a target lies strictly below the type `name`. */
  ghost predicate Lower(db: Database, name: Name, target: Option<Name>)
    requires HasSize(db, name)
  {
    target.Some? ==> HasSize(db, target.value) && Rank(db, target.value) < Rank(db, name)
  }

  /** What `path` stands for in the type `name`, if that takes at most `fuel` steps. */
  ghost function Resolve(db: Database, name: Name, path: Path, fuel: nat): (r: Option<Part>)
    requires HasSize(db, name)
    ensures r.Some? ==> Lower(db, name, r.value.target)
    decreases fuel, 1
  {
    TargetsRankLower(db, name);
    if fuel == 0 || |path| == 0 || path[0].Subscript? then None
    else
      match Find(db[name], path[0].name)
      case None =>
        BaseIsTarget(db[name]);
        if BaseOf(db[name]).Some? then Resolve(db, BaseOf(db[name]).value, path, fuel - 1) else None
      case Some(i) =>
        var e := db[name].entities[i];
        var part := if e.Alias? then Resolve(db, name, e.path, fuel - 1) else Some(FieldPart(db, name, i));
        if part.None? then None else Follow(db, name, part.value, path[1..], fuel)
  }

  /** What the rest of a path stands for, starting from a part of the type `name`. */
  ghost function Follow(db: Database, name: Name, part: Part, rest: Path, fuel: nat): (r: Option<Part>)
    requires HasSize(db, name) && Lower(db, name, part.target) && fuel > 0
    ensures r.Some? ==> Lower(db, name, r.value.target)
    decreases fuel, 0
  {
    var index := Indices(rest);
    if !InBounds(part.dims, index) then None
    else
      var picked := Picked(part, index);
      if |index| == |rest| then Some(picked)
      else if !Single(picked.dims) || part.target.None? then None
      else
        match Resolve(db, part.target.value, rest[|index|..], fuel - 1)
        case None => None
        case Some(inner) => Some(inner.Shifted(picked.offset))
  }

  /** `path` stands for `part` in the type `name`. */
  ghost predicate StandsFor(db: Database, name: Name, path: Path, part: Part)
    requires HasSize(db, name)
  {
    exists fuel: nat :: Resolve(db, name, path, fuel) == Some(part)
  }

  ghost predicate Meaningless(db: Database, name: Name, path: Path)
    requires HasSize(db, name)
  {
    forall fuel: nat :: Resolve(db, name, path, fuel).None?
  }

  lemma {:induction false} MoreFuel(db: Database, name: Name, path: Path, f1: nat, f2: nat)
    requires HasSize(db, name) && Resolve(db, name, path, f1).Some? && f1 <= f2
    ensures Resolve(db, name, path, f2) == Resolve(db, name, path, f1)
    decreases f1, 1
  {
    TargetsRankLower(db, name);
    match Find(db[name], path[0].name)
    case None =>
      BaseIsTarget(db[name]);
      MoreFuel(db, BaseOf(db[name]).value, path, f1 - 1, f2 - 1);
    case Some(i) =>
      var e := db[name].entities[i];
      if e.Alias? {
        MoreFuel(db, name, e.path, f1 - 1, f2 - 1);
      }
      var part := if e.Alias? then Resolve(db, name, e.path, f1 - 1) else Some(FieldPart(db, name, i));
      MoreFuelToFollow(db, name, part.value, path[1..], f1, f2);
  }

  lemma {:induction false} MoreFuelToFollow(db: Database, name: Name, part: Part, rest: Path, f1: nat, f2: nat)
    requires HasSize(db, name) && Lower(db, name, part.target) && 0 < f1 <= f2
    requires Follow(db, name, part, rest, f1).Some?
    ensures Follow(db, name, part, rest, f2) == Follow(db, name, part, rest, f1)
    decreases f1, 0
  {
    var index := Indices(rest);
    if |index| < |rest| {
      MoreFuel(db, part.target.value, rest[|index|..], f1 - 1, f2 - 1);
    }
  }

  /** A path stands for one part at most. */
  lemma StandsForOne(db: Database, name: Name, path: Path, one: Part, other: Part)
    requires HasSize(db, name) && StandsFor(db, name, path, one) && StandsFor(db, name, path, other)
    ensures one == other
  {
    var f1: nat :| Resolve(db, name, path, f1) == Some(one);
    var f2: nat :| Resolve(db, name, path, f2) == Some(other);
    if f1 <= f2 {
      MoreFuel(db, name, path, f1, f2);
    } else {
      MoreFuel(db, name, path, f2, f1);
    }
  }

  // ----- Parts lie inside the type -----

  /** Every type was made by the append functions. */
  ghost predicate Built(db: Database) {
    forall n :: n in db ==> WellBuilt(db[n])
  }

  ghost predicate Inside(part: Part, size: nat) {
    part.Size() > 0 ==> part.offset + part.Size() <= size
  }

  lemma PickedInside(part: Part, index: seq<nat>)
    requires InBounds(part.dims, index)
    ensures var picked := Picked(part, index);
            picked.Size() > 0 ==>
              part.Size() > 0 && part.offset <= picked.offset && picked.offset + picked.Size() <= part.offset + part.Size()
  {
    hide Product, ElementsBefore;
    var before, some, all := ElementsBefore(0, part.dims, index), Product(part.dims[|index|..]), Product(part.dims);
    PartInside(0, part.dims, index);
    assert before + some <= all;
    ScaleUp(before, some, all, part.elemSize);
  }

  lemma ScaleUp(before: nat, some: nat, all: nat, size: nat)
    requires before + some <= all
    ensures before * size + size * some <= size * all
    ensures size * some > 0 ==> size * all > 0
  {
  }

  lemma FieldPartInside(db: Database, name: Name, i: nat)
    requires HasSize(db, name) && name in db && i < |db[name].entities| && !db[name].entities[i].Alias?
    ensures Inside(FieldPart(db, name, i), SizeOf(db, name))
  {
    FieldInside(db[name], SizesOf(db, name), i);
  }

  /** The members of an inherited type have the same offsets in the inheriting one. */
  lemma BaseInside(db: Database, name: Name)
    requires Built(db) && HasSize(db, name) && name in db && BaseOf(db[name]).Some?
    ensures HasSize(db, BaseOf(db[name]).value) && SizeOf(db, BaseOf(db[name]).value) <= SizeOf(db, name)
  {
    hide LayoutTo, Product;
    var def, sizes := db[name], SizesOf(db, name);
    TargetsRankLower(db, name);
    BaseIsTarget(def);
    FirstAtZero(def, sizes);
    FieldInside(def, sizes, 0);
    assert Placed(def, 0);
    ProductPositive(def.entities[0].dims);
    Grows(1, Product(def.entities[0].dims), SizeOf(db, BaseOf(def).value));
  }

  lemma FirstAtZero(def: TypeDef, sizes: Sizes)
    requires Targets(def) <= sizes.Keys && |def.entities| > 0 && !def.entities[0].Alias?
    ensures Offset(def, sizes, 0) == 0
  {
    OffsetIsCursor(def, sizes, 0);
  }

  /** The element size of a part with an element type is the size of that type. */
  ghost predicate Typed(db: Database, part: Part) {
    part.target.Some? ==> HasSize(db, part.target.value) && part.elemSize == SizeOf(db, part.target.value)
  }

  lemma SingleSize(part: Part)
    requires Single(part.dims)
    ensures part.Size() == part.elemSize
  {
    assert Product([1]) == 1 by { assert [1][1..] == []; }
  }

  /** Whatever a path stands for lies inside the type, unless it is empty. */
  lemma {:induction false} ResolvedInside(db: Database, name: Name, path: Path, fuel: nat)
    requires Built(db) && HasSize(db, name) && Resolve(db, name, path, fuel).Some?
    ensures Inside(Resolve(db, name, path, fuel).value, SizeOf(db, name))
    ensures Typed(db, Resolve(db, name, path, fuel).value)
    decreases fuel, 1
  {
    hide LayoutOf;
    TargetsRankLower(db, name);
    match Find(db[name], path[0].name)
    case None =>
      BaseIsTarget(db[name]);
      BaseInside(db, name);
      ResolvedInside(db, BaseOf(db[name]).value, path, fuel - 1);
    case Some(i) =>
      var e := db[name].entities[i];
      if e.Alias? {
        ResolvedInside(db, name, e.path, fuel - 1);
      } else {
        FieldPartInside(db, name, i);
      }
      var part := if e.Alias? then Resolve(db, name, e.path, fuel - 1) else Some(FieldPart(db, name, i));
      FollowedInside(db, name, part.value, path[1..], fuel);
  }

  lemma {:induction false} FollowedInside(db: Database, name: Name, part: Part, rest: Path, fuel: nat)
    requires Built(db) && HasSize(db, name) && Lower(db, name, part.target) && fuel > 0
    requires Inside(part, SizeOf(db, name)) && Typed(db, part)
    requires Follow(db, name, part, rest, fuel).Some?
    ensures Inside(Follow(db, name, part, rest, fuel).value, SizeOf(db, name))
    ensures Typed(db, Follow(db, name, part, rest, fuel).value)
    decreases fuel, 0
  {
    hide SizeOf, ElementsBefore, Product;
    var index := Indices(rest);
    PickedInside(part, index);
    if |index| < |rest| {
      SingleSize(Picked(part, index));
      ResolvedInside(db, part.target.value, rest[|index|..], fuel - 1);
    }
  }

  /** Every non-empty part that a path stands for lies inside the type. */
  lemma PartsLieInside(db: Database, name: Name, path: Path, part: Part)
    requires Built(db) && HasSize(db, name) && StandsFor(db, name, path, part)
    ensures part.Size() > 0 ==> part.offset + part.Size() <= SizeOf(db, name)
  {
    var fuel: nat :| Resolve(db, name, path, fuel) == Some(part);
    ResolvedInside(db, name, path, fuel);
  }

  // ----- Different subscripts -----

  function Subs(index: seq<nat>): (path: Path)
    ensures |path| == |index|
  {
    seq(|index|, i requires 0 <= i < |index| => Subscript(index[i]))
  }

  lemma {:induction false} IndicesAppend(rest: Path, index: seq<nat>)
    ensures Indices(rest + Subs(index)) == if |Indices(rest)| == |rest| then Indices(rest) + index else Indices(rest)
    decreases |rest|
  {
    hide Subs;
    var path := rest + Subs(index);
    if |rest| == 0 {
      assert path == Subs(index) && [] + index == index;
      IndicesOfSubs(index);
    } else {
      assert path[0] == rest[0] && path[1..] == rest[1..] + Subs(index);
      IndicesAppend(rest[1..], index);
      var tail := Indices(rest[1..]);
      if rest[0].Subscript? {
        assert [rest[0].index] + (tail + index) == [rest[0].index] + tail + index;
      }
    }
  }

  lemma {:induction false} IndicesOfSubs(index: seq<nat>)
    ensures Indices(Subs(index)) == index
  {
    if |index| > 0 {
      assert Subs(index)[0] == Subscript(index[0]) && Subs(index)[1..] == Subs(index[1..]);
      IndicesOfSubs(index[1..]);
      assert [index[0]] + index[1..] == index;
    }
  }

  /** Parts that do not overlap and have the same size. */
  ghost predicate Disjoint(x: Part, y: Part) {
    x.Size() == y.Size() && Apart(x.offset, y.offset, x.Size())
  }

  lemma PickedApart(part: Part, one: seq<nat>, other: seq<nat>)
    requires InBounds(part.dims, one) && InBounds(part.dims, other) && |one| == |other| && one != other
    ensures Disjoint(Picked(part, one), Picked(part, other))
  {
    hide Product, ElementsBefore;
    PartsApart(0, part.dims, one, other);
    var x, y := ElementsBefore(0, part.dims, one), ElementsBefore(0, part.dims, other);
    ScaleApart(x, y, Product(part.dims[|one|..]), part.elemSize);
  }

  lemma ScaleApart(x: nat, y: nat, some: nat, size: nat)
    requires Apart(x, y, some)
    ensures Apart(x * size, y * size, size * some)
  {
  }

  lemma {:induction false} ResolvedApart(db: Database, name: Name, path: Path, one: seq<nat>, other: seq<nat>, fuel: nat)
    requires HasSize(db, name) && |path| > 0 && |one| == |other| && one != other
    requires Resolve(db, name, path + Subs(one), fuel).Some? && Resolve(db, name, path + Subs(other), fuel).Some?
    ensures Disjoint(Resolve(db, name, path + Subs(one), fuel).value, Resolve(db, name, path + Subs(other), fuel).value)
    decreases fuel, 1
  {
    TargetsRankLower(db, name);
    match Find(db[name], path[0].name)
    case None =>
      BaseIsTarget(db[name]);
      ResolvedApart(db, BaseOf(db[name]).value, path, one, other, fuel - 1);
    case Some(i) =>
      var e := db[name].entities[i];
      var part := if e.Alias? then Resolve(db, name, e.path, fuel - 1) else Some(FieldPart(db, name, i));
      assert (path + Subs(one))[1..] == path[1..] + Subs(one);
      assert (path + Subs(other))[1..] == path[1..] + Subs(other);
      FollowedApart(db, name, part.value, path[1..], one, other, fuel);
  }

  lemma {:induction false} FollowedApart(db: Database, name: Name, part: Part, rest: Path, one: seq<nat>, other: seq<nat>,
                                         fuel: nat)
    requires HasSize(db, name) && Lower(db, name, part.target) && fuel > 0 && |one| == |other| && one != other
    requires Follow(db, name, part, rest + Subs(one), fuel).Some? && Follow(db, name, part, rest + Subs(other), fuel).Some?
    ensures Disjoint(Follow(db, name, part, rest + Subs(one), fuel).value,
                     Follow(db, name, part, rest + Subs(other), fuel).value)
    decreases fuel, 0
  {
    hide ElementsBefore, Product, Resolve, SizeOf, Picked, Disjoint, Subs, Follow;
    var index := Indices(rest);
    if |index| == |rest| {
      FollowEnds(db, name, part, rest, one, fuel);
      FollowEnds(db, name, part, rest, other, fuel);
      assert (index + one)[|index|..] == one && (index + other)[|index|..] == other;
      PickedApart(part, index + one, index + other);
    } else {
      FollowGoesOn(db, name, part, rest, one, fuel);
      FollowGoesOn(db, name, part, rest, other, fuel);
      var left := rest[|index|..];
      ResolvedApart(db, part.target.value, left, one, other, fuel - 1);
      var x, y := Resolve(db, part.target.value, left + Subs(one), fuel - 1),
                  Resolve(db, part.target.value, left + Subs(other), fuel - 1);
      ShiftedApart(x.value, y.value, Picked(part, index).offset);
    }
  }

  /** Subscripts after the last segment of a path pick a part of what it stands for. */
  lemma FollowEnds(db: Database, name: Name, part: Part, rest: Path, index: seq<nat>, fuel: nat)
    requires HasSize(db, name) && Lower(db, name, part.target) && fuel > 0 && |Indices(rest)| == |rest|
    requires Follow(db, name, part, rest + Subs(index), fuel).Some?
    ensures InBounds(part.dims, Indices(rest) + index)
    ensures Follow(db, name, part, rest + Subs(index), fuel).value == Picked(part, Indices(rest) + index)
  {
    hide Resolve, Picked, Subs;
    IndicesAppend(rest, index);
  }

  /** Subscripts at the end of a longer path are left to the types below. */
  lemma FollowGoesOn(db: Database, name: Name, part: Part, rest: Path, index: seq<nat>, fuel: nat)
    requires HasSize(db, name) && Lower(db, name, part.target) && fuel > 0 && |Indices(rest)| < |rest|
    requires Follow(db, name, part, rest + Subs(index), fuel).Some?
    ensures part.target.Some? && InBounds(part.dims, Indices(rest))
    ensures var inner := Resolve(db, part.target.value, rest[|Indices(rest)|..] + Subs(index), fuel - 1);
            && inner.Some?
            && Follow(db, name, part, rest + Subs(index), fuel).value == inner.value.Shifted(Picked(part, Indices(rest)).offset)
  {
    hide Resolve, Picked, Subs;
    IndicesAppend(rest, index);
    assert (rest + Subs(index))[|Indices(rest)|..] == rest[|Indices(rest)|..] + Subs(index);
  }

  lemma ShiftedApart(x: Part, y: Part, base: nat)
    requires Disjoint(x, y)
    ensures Disjoint(x.Shifted(base), y.Shifted(base))
  {
  }

  /** The parts picked from one array by different subscripts of the same length do not overlap. */
  lemma SubscriptsPickDisjointParts(db: Database, name: Name, path: Path, one: seq<nat>, other: seq<nat>, x: Part, y: Part)
    requires HasSize(db, name) && |path| > 0 && |one| == |other| && one != other
    requires StandsFor(db, name, path + Subs(one), x) && StandsFor(db, name, path + Subs(other), y)
    ensures x.Size() == y.Size() && (x.offset + x.Size() <= y.offset || y.offset + y.Size() <= x.offset)
  {
    hide Resolve, Product;
    var f1: nat :| Resolve(db, name, path + Subs(one), f1) == Some(x);
    var f2: nat :| Resolve(db, name, path + Subs(other), f2) == Some(y);
    MoreFuel(db, name, path + Subs(one), f1, f1 + f2);
    MoreFuel(db, name, path + Subs(other), f2, f1 + f2);
    ResolvedApart(db, name, path, one, other, f1 + f2);
  }
}
