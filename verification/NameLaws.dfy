/**
 The laws that determine what names stand for: a field is where the layout puts it, a subscript
 moves by whole elements, a member lies where it lies in its own type, an alias is an abbreviation,
 and what is not found is inherited.
 */
module NameLaws {
  import opened Wrappers
  import opened ProtoType
  import opened TypeLayout
  import opened TypeMetadata
  import opened Subscripts
  import opened NameResolution

  // ----- A path and what follows it -----

  lemma {:induction false} IndicesConcat(rest: Path, more: Path)
    ensures Indices(rest + more) == if |Indices(rest)| == |rest| then Indices(rest) + Indices(more) else Indices(rest)
    decreases |rest|
  {
    if |rest| == 0 {
      assert rest + more == more && [] + Indices(more) == Indices(more);
    } else {
      assert (rest + more)[0] == rest[0] && (rest + more)[1..] == rest[1..] + more;
      IndicesConcat(rest[1..], more);
      if rest[0].Subscript? {
        var head, tail := [rest[0].index], Indices(rest[1..]);
        assert head + (tail + Indices(more)) == head + tail + Indices(more);
      }
    }
  }

  lemma PickedTwice(part: Part, one: seq<nat>, other: seq<nat>)
    requires InBounds(part.dims, one + other)
    ensures InBounds(part.dims, one) && InBounds(Picked(part, one).dims, other)
    ensures Picked(Picked(part, one), other) == Picked(part, one + other)
  {
    hide Product, ElementsBefore;
    BoundsOfParts(part.dims, one, other);
    StridesConcat(part.dims, one, other);
    Distribute(ElementsBefore(0, part.dims, one), ElementsBefore(0, part.dims[|one|..], other), part.elemSize);
    assert part.dims[|one|..][|other|..] == part.dims[|one + other|..];
  }

  lemma BoundsOfParts(dims: seq<nat>, one: seq<nat>, other: seq<nat>)
    requires |one| <= |dims|
    ensures InBounds(dims, one + other) <==> InBounds(dims, one) && InBounds(dims[|one|..], other)
  {
    var all := one + other;
    forall k | 0 <= k < |all|
      ensures k < |one| ==> all[k] == one[k]
      ensures k >= |one| ==> all[k] == other[k - |one|]
    {
    }
    if InBounds(dims, all) {
      forall k | 0 <= k < |one|
        ensures one[k] < dims[k]
      {
        assert all[k] == one[k];
      }
      forall k | 0 <= k < |other|
        ensures other[k] < dims[|one|..][k]
      {
        assert all[|one| + k] == other[k];
      }
    }
  }

  lemma FollowAnyName(db: Database, one: Name, other: Name, part: Part, rest: Path, fuel: nat)
    requires HasSize(db, one) && Lower(db, one, part.target) && HasSize(db, other) && Lower(db, other, part.target) && fuel > 0
    ensures Follow(db, one, part, rest, fuel) == Follow(db, other, part, rest, fuel)
  {
  }

  lemma PickedMoved(part: Part, base: nat, index: seq<nat>)
    requires |index| <= |part.dims|
    ensures Picked(part.(offset := base + part.offset), index) == Picked(part, index).(offset := base + Picked(part, index).offset)
  {
  }

  /** What follows a part does not depend on where the part is. */
  lemma FollowMoved(db: Database, name: Name, part: Part, base: nat, rest: Path, fuel: nat)
    requires HasSize(db, name) && Lower(db, name, part.target) && fuel > 0
    ensures var here, there := Follow(db, name, part, rest, fuel), Follow(db, name, part.(offset := base + part.offset), rest, fuel);
            there == if here.None? then None else Some(here.value.(offset := base + here.value.offset))
  {
    hide Resolve, Picked;
    if InBounds(part.dims, Indices(rest)) {
      PickedMoved(part, base, Indices(rest));
      PickedDims(part, Indices(rest));
    }
  }

  lemma PickedDims(part: Part, index: seq<nat>)
    requires |index| <= |part.dims|
    ensures Picked(part, index).dims == part.dims[|index|..] && Picked(part, index).target == part.target
    ensures Picked(part, index).elemSize == part.elemSize
  {
  }

  /** A path that goes on with subscripts, or with a member of the same part. */
  lemma {:induction false} FollowMore(db: Database, name: Name, part: Part, rest: Path, more: Path, f: nat, g: nat)
    requires HasSize(db, name) && Lower(db, name, part.target) && f > 0 && g > 0
    requires Follow(db, name, part, rest, f).Some?
    requires Follow(db, name, Follow(db, name, part, rest, f).value, more, g).Some?
    ensures Follow(db, name, part, rest + more, f + g) == Follow(db, name, Follow(db, name, part, rest, f).value, more, g)
    decreases f, 0
  {
    hide Resolve, Picked;
    var index := Indices(rest);
    IndicesConcat(rest, more);
    PickedDims(part, index);
    if |index| == |rest| {
      FollowSubscripts(db, name, part, rest, more, f, g);
    } else {
      var u := part.target.value;
      var inner := Resolve(db, u, rest[|index|..], f - 1).value;
      assert (rest + more)[|index|..] == rest[|index|..] + more;
      FollowMoved(db, name, inner, Picked(part, index).offset, more, g);
      FollowAnyName(db, name, u, inner, more, g);
      ResolveMore(db, u, rest[|index|..], more, f - 1, g);
    }
  }

  lemma FollowSubscripts(db: Database, name: Name, part: Part, rest: Path, more: Path, f: nat, g: nat)
    requires HasSize(db, name) && Lower(db, name, part.target) && f > 0 && g > 0
    requires |Indices(rest)| == |rest| && InBounds(part.dims, Indices(rest))
    requires Indices(rest + more) == Indices(rest) + Indices(more)
    requires Follow(db, name, Picked(part, Indices(rest)), more, g).Some?
    ensures Follow(db, name, part, rest + more, f + g) == Follow(db, name, Picked(part, Indices(rest)), more, g)
  {
    hide Resolve, Picked;
    var one, other := Indices(rest), Indices(more);
    PickedDims(part, one);
    BoundsOfParts(part.dims, one, other);
    PickedTwice(part, one, other);
    PickedDims(Picked(part, one), other);
    if |other| < |more| {
      assert (rest + more)[|one + other|..] == more[|other|..];
      MoreFuel(db, part.target.value, more[|other|..], g - 1, f + g - 1);
    }
  }

  lemma {:induction false} ResolveMore(db: Database, name: Name, path: Path, more: Path, f: nat, g: nat)
    requires HasSize(db, name) && Resolve(db, name, path, f).Some? && g > 0
    requires Follow(db, name, Resolve(db, name, path, f).value, more, g).Some?
    ensures Resolve(db, name, path + more, f + g) == Follow(db, name, Resolve(db, name, path, f).value, more, g)
    decreases f, 1
  {
    hide Follow;
    TargetsRankLower(db, name);
    assert (path + more)[0] == path[0] && (path + more)[1..] == path[1..] + more;
    match Find(db[name], path[0].name)
    case None =>
      BaseIsTarget(db[name]);
      var b := BaseOf(db[name]).value;
      FollowAnyName(db, name, b, Resolve(db, b, path, f - 1).value, more, g);
      ResolveMore(db, b, path, more, f - 1, g);
    case Some(i) =>
      var e := db[name].entities[i];
      if e.Alias? {
        MoreFuel(db, name, e.path, f - 1, f + g - 1);
      }
      var part := if e.Alias? then Resolve(db, name, e.path, f - 1) else Some(FieldPart(db, name, i));
      FollowMore(db, name, part.value, path[1..], more, f, g);
  }

  /** And the other way round: the start of a path that stands for something stands for something. */
  lemma {:induction false} FollowStart(db: Database, name: Name, part: Part, rest: Path, more: Path, f: nat)
    requires HasSize(db, name) && Lower(db, name, part.target) && f > 0
    requires Follow(db, name, part, rest + more, f).Some?
    ensures Follow(db, name, part, rest, f).Some?
    ensures Follow(db, name, Follow(db, name, part, rest, f).value, more, f) == Follow(db, name, part, rest + more, f)
    decreases f, 0
  {
    hide Resolve, Picked;
    var index := Indices(rest);
    IndicesConcat(rest, more);
    if |index| == |rest| {
      SubscriptsStart(db, name, part, rest, more, f);
    } else {
      PickedDims(part, index);
      var u := part.target.value;
      assert (rest + more)[|index|..] == rest[|index|..] + more;
      ResolveStart(db, u, rest[|index|..], more, f - 1);
      var inner := Resolve(db, u, rest[|index|..], f - 1).value;
      FollowLater(db, u, inner, more, f - 1, f);
      FollowAnyName(db, name, u, inner, more, f);
      FollowMoved(db, name, inner, Picked(part, index).offset, more, f);
    }
  }

  lemma SubscriptsStart(db: Database, name: Name, part: Part, rest: Path, more: Path, f: nat)
    requires HasSize(db, name) && Lower(db, name, part.target) && f > 0
    requires |Indices(rest)| == |rest| && Indices(rest + more) == Indices(rest) + Indices(more)
    requires Follow(db, name, part, rest + more, f).Some?
    ensures Follow(db, name, part, rest, f).Some?
    ensures Follow(db, name, Follow(db, name, part, rest, f).value, more, f) == Follow(db, name, part, rest + more, f)
  {
    hide Resolve, Picked;
    var one, other := Indices(rest), Indices(more);
    BoundsOfParts(part.dims, one, other);
    PickedDims(part, one);
    PickedTwice(part, one, other);
    PickedDims(Picked(part, one), other);
    if |other| < |more| {
      assert (rest + more)[|one + other|..] == more[|other|..];
    }
  }

  lemma FollowLater(db: Database, name: Name, part: Part, rest: Path, f: nat, g: nat)
    requires HasSize(db, name) && Lower(db, name, part.target) && 0 < f <= g
    requires Follow(db, name, part, rest, f).Some?
    ensures Follow(db, name, part, rest, g) == Follow(db, name, part, rest, f)
  {
    MoreFuelToFollow(db, name, part, rest, f, g);
  }

  lemma {:induction false} ResolveStart(db: Database, name: Name, path: Path, more: Path, f: nat)
    requires HasSize(db, name) && |path| > 0 && Resolve(db, name, path + more, f).Some?
    ensures f > 0 && Resolve(db, name, path, f).Some?
    ensures Follow(db, name, Resolve(db, name, path, f).value, more, f) == Resolve(db, name, path + more, f)
    decreases f, 1
  {
    hide Follow;
    TargetsRankLower(db, name);
    assert (path + more)[0] == path[0] && (path + more)[1..] == path[1..] + more;
    match Find(db[name], path[0].name)
    case None =>
      BaseIsTarget(db[name]);
      var b := BaseOf(db[name]).value;
      ResolveStart(db, b, path, more, f - 1);
      var part := Resolve(db, b, path, f - 1).value;
      FollowLater(db, b, part, more, f - 1, f);
      FollowAnyName(db, name, b, part, more, f);
    case Some(i) =>
      var e := db[name].entities[i];
      var part := if e.Alias? then Resolve(db, name, e.path, f - 1) else Some(FieldPart(db, name, i));
      FollowStart(db, name, part.value, path[1..], more, f);
  }

  // ----- The laws -----

  /** The first entity of a type with a symbol is what the symbol names. */
  ghost predicate FirstWith(def: TypeDef, symbol: string, i: nat) {
    && i < |def.entities| && def.entities[i].symbol == Some(symbol)
    && forall k :: 0 <= k < i ==> def.entities[k].symbol != Some(symbol)
  }

  lemma {:induction false} FoundFrom(def: TypeDef, symbol: string, from: nat)
    requires from <= |def.entities|
    ensures var r := FindFrom(def, symbol, from);
            && (r.Some? ==> from <= r.value && def.entities[r.value].symbol == Some(symbol))
            && (forall k :: from <= k < (if r.Some? then r.value else |def.entities|) ==> def.entities[k].symbol != Some(symbol))
    decreases |def.entities| - from
  {
    if from < |def.entities| && def.entities[from].symbol != Some(symbol) {
      FoundFrom(def, symbol, from + 1);
    }
  }

  lemma FoundIsFirst(def: TypeDef, symbol: string)
    ensures forall i: nat :: Find(def, symbol) == Some(i) <==> FirstWith(def, symbol, i)
    ensures Find(def, symbol).None? <==> forall k :: 0 <= k < |def.entities| ==> def.entities[k].symbol != Some(symbol)
  {
    FoundFrom(def, symbol, 0);
  }

  /** A field that is no alias is where the layout puts it. */
  lemma FieldLaw(db: Database, name: Name, symbol: string, i: nat)
    requires HasSize(db, name) && name in db && FirstWith(db[name], symbol, i) && !db[name].entities[i].Alias?
    ensures Targets(db[name]) <= SizesOf(db, name).Keys
    ensures var e := db[name].entities[i];
            && (e.Compound? ==> HasSize(db, e.target))
            && StandsFor(db, name, [Symbol(symbol)],
                         Part(Offset(db[name], SizesOf(db, name), i), if e.Compound? then SizeOf(db, e.target) else e.elemSize,
                              e.dims, if e.Compound? then Some(e.target) else None))
  {
    TargetsRankLower(db, name);
    TargetsMonotone(db[name], i, |db[name].entities|);
    FoundIsFirst(db[name], symbol);
    var part := FieldPart(db, name, i);
    NoSubscripts(part);
    assert [Symbol(symbol)][1..] == [];
    assert Follow(db, name, part, [], 1) == Some(part);
    assert Resolve(db, name, [Symbol(symbol)], 1) == Some(part);
  }

  lemma NoSubscripts(part: Part)
    ensures Picked(part, []) == part && InBounds(part.dims, [])
  {
    assert part.dims[0..] == part.dims;
  }

  /** A subscript moves by that many of the parts that it picks from. */
  lemma SubscriptLaw(db: Database, name: Name, path: Path, part: Part, i: nat)
    requires HasSize(db, name) && StandsFor(db, name, path, part) && |part.dims| > 0 && i < part.dims[0]
    ensures StandsFor(db, name, path + [Subscript(i)],
                      part.(offset := part.offset + i * (Product(part.dims[1..]) * part.elemSize), dims := part.dims[1..]))
  {
    hide Resolve;
    var f: nat :| Resolve(db, name, path, f) == Some(part);
    OneSubscriptPicked(part, i);
    assert [Subscript(i)][1..] == [];
    assert Indices([Subscript(i)]) == [i];
    ResolveMore(db, name, path, [Subscript(i)], f, 1);
  }

  lemma OneSubscriptPicked(part: Part, i: nat)
    requires |part.dims| > 0 && i < part.dims[0]
    ensures InBounds(part.dims, [i])
    ensures Picked(part, [i]) ==
            part.(offset := part.offset + i * (Product(part.dims[1..]) * part.elemSize), dims := part.dims[1..])
  {
    hide ElementsBefore, Product;
    OneStride(part.dims, [i]);
    OneStride(part.dims[1..], []);
    assert [i][1..] == [];
    Associate(i, Product(part.dims[1..]), part.elemSize);
  }

  /** Out of bounds, or in something that is no array, a subscript stands for nothing. */
  lemma NoSuchSubscript(db: Database, name: Name, path: Path, part: Part, i: nat)
    requires HasSize(db, name) && StandsFor(db, name, path, part) && (part.dims == [] || i >= part.dims[0])
    ensures Meaningless(db, name, path + [Subscript(i)])
  {
    hide Resolve;
    var f: nat :| Resolve(db, name, path, f) == Some(part);
    var more := [Subscript(i)];
    assert more[1..] == [] && Indices(more) == [i];
    forall g: nat | Resolve(db, name, path + more, g).Some?
      ensures false
    {
      PathIsNotEmpty(db, name, path, f);
      ResolveStart(db, name, path, more, g);
      var other := Resolve(db, name, path, g).value;
      assert StandsFor(db, name, path, other);
      StandsForOne(db, name, path, part, other);
    }
  }

  lemma PathIsNotEmpty(db: Database, name: Name, path: Path, f: nat)
    requires HasSize(db, name) && Resolve(db, name, path, f).Some?
    ensures |path| > 0 && path[0].Symbol?
  {
  }

  /** A member of a single element lies where it lies in the element's type. */
  lemma MemberLaw(db: Database, name: Name, path: Path, part: Part, more: Path, inner: Part)
    requires HasSize(db, name) && StandsFor(db, name, path, part)
    requires (part.dims == [] || part.dims == [1]) && part.target.Some? && HasSize(db, part.target.value)
    requires StandsFor(db, part.target.value, more, inner)
    ensures StandsFor(db, name, path + more, inner.(offset := part.offset + inner.offset))
  {
    hide Resolve;
    var f: nat :| Resolve(db, name, path, f) == Some(part);
    var g: nat :| Resolve(db, part.target.value, more, g) == Some(inner);
    PathIsNotEmpty(db, part.target.value, more, g);
    NoSubscripts(part);
    assert more[0..] == more && Indices(more) == [];
    ResolveMore(db, name, path, more, f, g + 1);
  }

  /** And only a single element has members. */
  lemma OnlyMembers(db: Database, name: Name, path: Path, part: Part, more: Path, outer: Part)
    requires HasSize(db, name) && StandsFor(db, name, path, part) && |more| > 0 && more[0].Symbol?
    requires StandsFor(db, name, path + more, outer)
    ensures (part.dims == [] || part.dims == [1]) && part.target.Some? && HasSize(db, part.target.value)
    ensures exists inner :: StandsFor(db, part.target.value, more, inner) && outer == inner.(offset := part.offset + inner.offset)
  {
    hide Resolve;
    var f: nat :| Resolve(db, name, path, f) == Some(part);
    var g: nat :| Resolve(db, name, path + more, g) == Some(outer);
    PathIsNotEmpty(db, name, path, f);
    ResolveStart(db, name, path, more, g);
    assert StandsFor(db, name, path, Resolve(db, name, path, g).value);
    StandsForOne(db, name, path, part, Resolve(db, name, path, g).value);
    NoSubscripts(part);
    assert more[0..] == more && Indices(more) == [];
    var inner := Resolve(db, part.target.value, more, g - 1).value;
    assert StandsFor(db, part.target.value, more, inner);
  }

  /** An alias is an abbreviation of its path, whatever follows. */
  lemma AliasLaw(db: Database, name: Name, symbol: string, i: nat, rest: Path, part: Part)
    requires HasSize(db, name) && name in db && FirstWith(db[name], symbol, i)
    requires db[name].entities[i].Alias? && |db[name].entities[i].path| > 0
    ensures StandsFor(db, name, [Symbol(symbol)] + rest, part) <==> StandsFor(db, name, db[name].entities[i].path + rest, part)
  {
    hide Follow;
    FoundIsFirst(db[name], symbol);
    var e, short := db[name].entities[i], [Symbol(symbol)] + rest;
    assert short[0] == Symbol(symbol) && short[1..] == rest;
    if StandsFor(db, name, short, part) {
      var f: nat :| Resolve(db, name, short, f) == Some(part);
      ResolveMore(db, name, e.path, rest, f - 1, f);
    }
    if StandsFor(db, name, e.path + rest, part) {
      var f: nat :| Resolve(db, name, e.path + rest, f) == Some(part);
      ResolveStart(db, name, e.path, rest, f);
      FollowLater(db, name, Resolve(db, name, e.path, f).value, rest, f, f + 1);
      assert Resolve(db, name, short, f + 1) == Some(part);
    }
  }

  /**
   What a type does not have itself is what its base type has, at the same place. The base type is
   that of an anonymous reference at the start.
   */
  lemma InheritanceLaw(db: Database, name: Name, path: Path, part: Part)
    requires HasSize(db, name) && name in db && |path| > 0 && path[0].Symbol?
    requires forall k :: 0 <= k < |db[name].entities| ==> db[name].entities[k].symbol != Some(path[0].name)
    ensures var inherits := |db[name].entities| > 0 && db[name].entities[0].Compound? && db[name].entities[0].symbol.None?;
            && (inherits ==> HasSize(db, db[name].entities[0].target))
            && (StandsFor(db, name, path, part) <==> inherits && StandsFor(db, db[name].entities[0].target, path, part))
  {
    TargetsRankLower(db, name);
    BaseIsTarget(db[name]);
    FoundIsFirst(db[name], path[0].name);
    if BaseOf(db[name]).Some? {
      var b := BaseOf(db[name]).value;
      if StandsFor(db, b, path, part) {
        var f: nat :| Resolve(db, b, path, f) == Some(part);
        assert Resolve(db, name, path, f + 1) == Some(part);
      }
      if StandsFor(db, name, path, part) {
        var f: nat :| Resolve(db, name, path, f) == Some(part);
        assert Resolve(db, b, path, f - 1) == Some(part);
      }
    }
  }

  // ----- A field holds all its parts -----

  lemma {:induction false} FollowedWithin(db: Database, name: Name, part: Part, rest: Path, fuel: nat)
    requires Built(db) && HasSize(db, name) && Lower(db, name, part.target) && fuel > 0 && Typed(db, part)
    requires Follow(db, name, part, rest, fuel).Some?
    ensures var r := Follow(db, name, part, rest, fuel).value;
            r.Size() > 0 ==> part.offset <= r.offset && r.offset + r.Size() <= part.offset + part.Size()
  {
    hide Resolve, SizeOf, ElementsBefore, Product;
    var index := Indices(rest);
    PickedInside(part, index);
    if |index| < |rest| {
      SingleSize(Picked(part, index));
      ResolvedInside(db, part.target.value, rest[|index|..], fuel - 1);
    }
  }

  /** Whatever a name that begins with a field stands for lies inside that field. */
  lemma FieldHoldsItsParts(db: Database, name: Name, path: Path, i: nat, part: Part)
    requires Built(db) && HasSize(db, name) && name in db
    requires |path| > 0 && path[0].Symbol? && FirstWith(db[name], path[0].name, i) && !db[name].entities[i].Alias?
    requires StandsFor(db, name, path, part) && part.Size() > 0
    ensures Targets(db[name]) <= SizesOf(db, name).Keys
    ensures db[name].entities[i].Compound? ==> db[name].entities[i].target in SizesOf(db, name)
    ensures var start, bytes := Offset(db[name], SizesOf(db, name), i), EntitySize(db[name].entities[i], SizesOf(db, name));
            start <= part.offset && part.offset + part.Size() <= start + bytes
  {
    hide Follow, Product;
    TargetsRankLower(db, name);
    TargetsMonotone(db[name], i, |db[name].entities|);
    FoundIsFirst(db[name], path[0].name);
    var f: nat :| Resolve(db, name, path, f) == Some(part);
    FollowedWithin(db, name, FieldPart(db, name, i), path[1..], f);
  }

  /** So names that begin with different fields stand for parts that do not overlap. */
  lemma FieldsShareNothing(db: Database, name: Name, one: Path, i: nat, x: Part, other: Path, j: nat, y: Part)
    requires Built(db) && HasSize(db, name) && name in db && i != j
    requires |one| > 0 && one[0].Symbol? && FirstWith(db[name], one[0].name, i) && !db[name].entities[i].Alias?
    requires |other| > 0 && other[0].Symbol? && FirstWith(db[name], other[0].name, j) && !db[name].entities[j].Alias?
    requires StandsFor(db, name, one, x) && StandsFor(db, name, other, y) && x.Size() > 0 && y.Size() > 0
    ensures x.offset + x.Size() <= y.offset || y.offset + y.Size() <= x.offset
  {
    FieldHoldsItsParts(db, name, one, i, x);
    FieldHoldsItsParts(db, name, other, j, y);
    if i < j {
      FieldsApart(db[name], SizesOf(db, name), i, j);
    } else {
      FieldsApart(db[name], SizesOf(db, name), j, i);
    }
  }

  /** A type is as large as where its last field starts and what that takes: a reference takes the size of its type. */
  lemma SizeLaw(db: Database, name: Name, i: nat)
    requires HasSize(db, name) && name in db && i < |db[name].entities| && !db[name].entities[i].Alias?
    requires Targets(db[name]) <= SizesOf(db, name).Keys
    requires NothingBetween(db[name], SizesOf(db, name), i + 1, |db[name].entities|)
    ensures db[name].entities[i].Compound? ==> HasSize(db, db[name].entities[i].target)
    ensures var e := db[name].entities[i];
            var bytes := (if e.Compound? then SizeOf(db, e.target) else e.elemSize) * Product(e.dims);
            bytes > 0 ==> SizeOf(db, name) == Offset(db[name], SizesOf(db, name), i) + bytes
  {
    hide Product;
    TargetsRankLower(db, name);
    TargetsMonotone(db[name], i, |db[name].entities|);
    TypeEnds(db[name], SizesOf(db, name), i);
  }
}
