/**
 Looking up a name expression with marks on the aliases used: the marks stop circular aliases, and
 nothing else.
 */
module NameOffset {
  import opened Wrappers
  import opened ProtoType
  import opened TypeLayout
  import opened TypeMetadata
  import opened Subscripts
  import opened NameResolution
  import opened NameExpr

  /** A used alias: the type and the number of the entity. */
  type Stamp = (Name, nat)

  // ----- Why a marked alias is circular -----

  /** Whenever `p` stands for something, so does `q`, and it takes no longer to see it. */
  ghost predicate Leads(db: Database, name: Name, p: Path, q: Path)
    requires HasSize(db, name)
  {
    forall f: nat {:trigger Resolve(db, name, p, f)} ::
      Resolve(db, name, p, f).Some? ==> exists g: nat :: g <= f && Resolve(db, name, q, g).Some?
  }

  ghost predicate IsAlias(db: Database, name: Name, i: nat) {
    name in db && i < |db[name].entities| && db[name].entities[i].Alias?
  }

  function AliasPath(db: Database, name: Name, i: nat): Path
    requires name in db && i < |db[name].entities| && db[name].entities[i].Alias?
  {
    db[name].entities[i].path
  }

  /** `path` starts with the alias `i` of the type `name`. */
  ghost predicate StartsWith(db: Database, name: Name, path: Path, i: nat) {
    IsAlias(db, name, i) && |path| > 0 && path[0].Symbol? && Find(db[name], path[0].name) == Some(i)
  }

  /** Every used alias belongs to a type above, or to this type, and then its lookup has come to `path`. */
  ghost predicate Ready(db: Database, stamped: set<Stamp>, name: Name, path: Path)
    requires HasSize(db, name)
  {
    forall s :: s in stamped ==> Behind(db, s, name, path)
  }

  ghost predicate Behind(db: Database, s: Stamp, name: Name, path: Path)
    requires HasSize(db, name)
  {
    && HasSize(db, s.0)
    && (Rank(db, s.0) > Rank(db, name)
        || (s.0 == name && IsAlias(db, name, s.1) && Leads(db, name, AliasPath(db, name, s.1), path)))
  }

  ghost predicate AllAbove(db: Database, stamped: set<Stamp>, target: Option<Name>) {
    target.Some? && HasSize(db, target.value) ==>
      forall s :: s in stamped ==> HasSize(db, s.0) && Rank(db, s.0) > Rank(db, target.value)
  }

  lemma AliasComesFirst(db: Database, name: Name, path: Path, i: nat, f: nat)
    requires HasSize(db, name) && StartsWith(db, name, path, i)
    requires Resolve(db, name, path, f).Some?
    ensures f > 0 && Resolve(db, name, AliasPath(db, name, i), f - 1).Some?
  {
  }

  lemma {:induction false} NoEnd(db: Database, name: Name, path: Path, i: nat, f: nat)
    requires HasSize(db, name) && StartsWith(db, name, path, i) && Leads(db, name, AliasPath(db, name, i), path)
    ensures Resolve(db, name, AliasPath(db, name, i), f).None?
    decreases f
  {
    hide Resolve;
    if Resolve(db, name, AliasPath(db, name, i), f).Some? {
      var g: nat :| g <= f && Resolve(db, name, path, g).Some?;
      AliasComesFirst(db, name, path, i, g);
      NoEnd(db, name, path, i, g - 1);
    }
  }

  /** Coming back to an alias whose lookup led here means that the lookup has no end. */
  lemma CircularIsMeaningless(db: Database, name: Name, path: Path, i: nat)
    requires HasSize(db, name) && StartsWith(db, name, path, i) && Leads(db, name, AliasPath(db, name, i), path)
    ensures Meaningless(db, name, path)
  {
    hide Resolve;
    forall f: nat
      ensures Resolve(db, name, path, f).None?
    {
      if Resolve(db, name, path, f).Some? {
        AliasComesFirst(db, name, path, i, f);
        NoEnd(db, name, path, i, f - 1);
      }
    }
  }

  lemma LeadsToItself(db: Database, name: Name, p: Path)
    requires HasSize(db, name)
    ensures Leads(db, name, p, p)
  {
  }

  lemma LeadsToAlias(db: Database, name: Name, p: Path, path: Path, i: nat)
    requires HasSize(db, name) && StartsWith(db, name, path, i) && Leads(db, name, p, path)
    ensures Leads(db, name, p, AliasPath(db, name, i))
  {
    hide Resolve;
    forall f: nat {:trigger Resolve(db, name, p, f)} | Resolve(db, name, p, f).Some?
      ensures exists g: nat :: g <= f && Resolve(db, name, AliasPath(db, name, i), g).Some?
    {
      var g: nat :| g <= f && Resolve(db, name, path, g).Some?;
      AliasComesFirst(db, name, path, i, g);
      assert g - 1 <= f;
    }
  }

  lemma ReadyForAlias(db: Database, stamped: set<Stamp>, name: Name, path: Path, i: nat)
    requires HasSize(db, name) && Ready(db, stamped, name, path) && StartsWith(db, name, path, i)
    ensures Ready(db, stamped + {(name, i)}, name, AliasPath(db, name, i))
  {
    hide Resolve, Leads;
    var target := AliasPath(db, name, i);
    LeadsToItself(db, name, target);
    forall s | s in stamped + {(name, i)}
      ensures Behind(db, s, name, target)
    {
      if s in stamped {
        assert Behind(db, s, name, path);
        if Rank(db, s.0) <= Rank(db, name) {
          LeadsToAlias(db, name, AliasPath(db, name, s.1), path, i);
        }
      }
    }
  }

  lemma ReadyBelow(db: Database, stamped: set<Stamp>, name: Name, path: Path, t: Name)
    requires HasSize(db, name) && Ready(db, stamped, name, path)
    requires HasSize(db, t) && Rank(db, t) < Rank(db, name)
    ensures AllAbove(db, stamped, Some(t))
  {
  }

  lemma AboveIsReady(db: Database, stamped: set<Stamp>, t: Name, path: Path)
    requires HasSize(db, t) && AllAbove(db, stamped, Some(t))
    ensures Ready(db, stamped, t, path)
  {
  }

  // ----- Putting the steps of a lookup together -----

  /** What the rest of a path stands for from a part on, in any number of steps. */
  ghost predicate FollowsTo(db: Database, name: Name, part: Part, rest: Path, result: Part)
    requires HasSize(db, name) && Lower(db, name, part.target)
  {
    exists f: nat :: f > 0 && Follow(db, name, part, rest, f) == Some(result)
  }

  ghost predicate LeadsNowhere(db: Database, name: Name, part: Part, rest: Path)
    requires HasSize(db, name) && Lower(db, name, part.target)
  {
    forall f: nat :: f > 0 ==> Follow(db, name, part, rest, f).None?
  }

  lemma FieldFound(db: Database, name: Name, path: Path, i: nat)
    requires HasSize(db, name) && |path| > 0 && path[0].Symbol? && name in db
    requires Find(db[name], path[0].name) == Some(i) && !db[name].entities[i].Alias?
    ensures var part := FieldPart(db, name, i);
            && (forall x :: FollowsTo(db, name, part, path[1..], x) ==> StandsFor(db, name, path, x))
            && (LeadsNowhere(db, name, part, path[1..]) ==> Meaningless(db, name, path))
  {
    hide Follow;
    var part := FieldPart(db, name, i);
    assert forall f: nat :: f > 0 ==> Resolve(db, name, path, f) == Follow(db, name, part, path[1..], f);
  }

  lemma AliasFound(db: Database, name: Name, path: Path, i: nat, part: Part, result: Part)
    requires HasSize(db, name) && StartsWith(db, name, path, i) && StandsFor(db, name, AliasPath(db, name, i), part)
    requires Lower(db, name, part.target) && FollowsTo(db, name, part, path[1..], result)
    ensures StandsFor(db, name, path, result)
  {
    hide Follow;
    var f1: nat :| Resolve(db, name, AliasPath(db, name, i), f1) == Some(part);
    var f2: nat :| f2 > 0 && Follow(db, name, part, path[1..], f2) == Some(result);
    MoreFuel(db, name, AliasPath(db, name, i), f1, f1 + f2);
    MoreFuelToFollow(db, name, part, path[1..], f2, f1 + f2 + 1);
    assert Resolve(db, name, path, f1 + f2 + 1) == Some(result);
  }

  lemma AliasLost(db: Database, name: Name, path: Path, i: nat, part: Part)
    requires HasSize(db, name) && StartsWith(db, name, path, i) && StandsFor(db, name, AliasPath(db, name, i), part)
    requires Lower(db, name, part.target) && LeadsNowhere(db, name, part, path[1..])
    ensures Meaningless(db, name, path)
  {
    hide Follow;
    forall f: nat
      ensures Resolve(db, name, path, f).None?
    {
      if f > 0 && Resolve(db, name, AliasPath(db, name, i), f - 1).Some? {
        StandsForOne(db, name, AliasPath(db, name, i), part, Resolve(db, name, AliasPath(db, name, i), f - 1).value);
      }
    }
  }

  lemma AliasMeaningless(db: Database, name: Name, path: Path, i: nat)
    requires HasSize(db, name) && StartsWith(db, name, path, i) && Meaningless(db, name, AliasPath(db, name, i))
    ensures Meaningless(db, name, path)
  {
  }

  lemma StandsForIsLower(db: Database, name: Name, path: Path, part: Part)
    requires HasSize(db, name) && StandsFor(db, name, path, part)
    ensures Lower(db, name, part.target)
  {
  }

  /** A member that is not found is looked for in the base type. */
  lemma Inherited(db: Database, name: Name, path: Path)
    requires HasSize(db, name) && |path| > 0 && path[0].Symbol? && name in db && Find(db[name], path[0].name).None?
    ensures BaseOf(db[name]).None? ==> Meaningless(db, name, path)
    ensures BaseOf(db[name]).Some? ==>
              var b := BaseOf(db[name]).value;
              && HasSize(db, b) && Rank(db, b) < Rank(db, name)
              && (forall x :: StandsFor(db, b, path, x) ==> StandsFor(db, name, path, x))
              && (Meaningless(db, b, path) ==> Meaningless(db, name, path))
  {
    TargetsRankLower(db, name);
    BaseIsTarget(db[name]);
    if BaseOf(db[name]).Some? {
      var b := BaseOf(db[name]).value;
      forall x | StandsFor(db, b, path, x)
        ensures StandsFor(db, name, path, x)
      {
        var f: nat :| Resolve(db, b, path, f) == Some(x);
        assert Resolve(db, name, path, f + 1) == Some(x);
      }
    }
  }

  lemma FollowedInto(db: Database, name: Name, part: Part, rest: Path)
    requires HasSize(db, name) && Lower(db, name, part.target)
    ensures !InBounds(part.dims, Indices(rest)) ==> LeadsNowhere(db, name, part, rest)
    ensures InBounds(part.dims, Indices(rest)) ==>
              var n, picked := |Indices(rest)|, Picked(part, Indices(rest));
              if n == |rest| then FollowsTo(db, name, part, rest, picked)
              else if !Single(picked.dims) || part.target.None? then LeadsNowhere(db, name, part, rest)
              else
                && (forall x :: StandsFor(db, part.target.value, rest[n..], x) ==>
                                  FollowsTo(db, name, part, rest, x.Shifted(picked.offset)))
                && (Meaningless(db, part.target.value, rest[n..]) ==> LeadsNowhere(db, name, part, rest))
  {
    hide Resolve, Product, ElementsBefore, Indices;
    if InBounds(part.dims, Indices(rest)) {
      var n, picked := |Indices(rest)|, Picked(part, Indices(rest));
      if n == |rest| {
        assert Follow(db, name, part, rest, 1) == Some(picked);
      } else if Single(picked.dims) && part.target.Some? {
        forall x | StandsFor(db, part.target.value, rest[n..], x)
          ensures FollowsTo(db, name, part, rest, x.Shifted(picked.offset))
        {
          var f: nat :| Resolve(db, part.target.value, rest[n..], f) == Some(x);
          assert Follow(db, name, part, rest, f + 1) == Some(x.Shifted(picked.offset));
        }
        if Meaningless(db, part.target.value, rest[n..]) {
          forall f: nat | f > 0
            ensures Follow(db, name, part, rest, f).None?
          {
            assert Resolve(db, part.target.value, rest[n..], f - 1).None?;
          }
        }
      }
    }
  }

  // ----- Subscripts, one by one -----

  lemma IndicesStep(rest: Path, k: nat)
    requires k < |rest|
    ensures Indices(rest[k..]) == if rest[k].Symbol? then [] else [rest[k].index] + Indices(rest[k + 1..])
  {
  }

  lemma ElementsStep(before: nat, dims: seq<nat>, k: nat, i: nat, more: seq<nat>)
    requires k < |dims| && 1 + |more| <= |dims| - k
    ensures ElementsBefore(before, dims[k..], [i] + more) == ElementsBefore(Next(before, dims[k], i), dims[k + 1..], more)
  {
  }

  /** The part picked by the subscripts at the front of `rest`, and how many there are. */
  method PickSubscripts(part: Part, rest: Path) returns (r: Option<Part>, n: nat)
    ensures r.Some? <==> InBounds(part.dims, Indices(rest))
    ensures r.Some? ==> n == |Indices(rest)| && r.value == Picked(part, Indices(rest))
  {
    hide ElementsBefore, Product, Indices, Next, InBounds, Picked;
    NoSubscripts(part.dims);
    n := 0;
    var before := 0;
    ghost var taken: seq<nat> := [];
    assert rest[0..] == rest && part.dims[0..] == part.dims;
    while n < |rest| && rest[n].Subscript?
      invariant n <= |rest| && n == |taken| <= |part.dims| && InBounds(part.dims, taken)
      invariant Indices(rest) == taken + Indices(rest[n..])
      invariant |Indices(rest)| <= |part.dims| ==>
                  ElementsBefore(0, part.dims, Indices(rest)) == ElementsBefore(before, part.dims[n..], Indices(rest[n..]))
    {
      var index := rest[n].index;
      IndicesStep(rest, n);
      InBoundsStep(part.dims, taken, index, Indices(rest[n + 1..]));
      if n >= |part.dims| || index >= part.dims[n] {
        return None, n;
      }
      if |Indices(rest)| <= |part.dims| {
        ElementsStep(before, part.dims, n, index, Indices(rest[n + 1..]));
      }
      before := Next(before, part.dims[n], index);
      taken := taken + [index];
      n := n + 1;
    }
    NoIndices(rest, n);
    var all := Builder.TotalSize(before, part.dims[n..]);
    NoMoreIndices(before, part.dims[n..]);
    assert Indices(rest) == taken;
    PickedIs(part, taken, all);
    r := Some(part.(offset := part.offset + all * part.elemSize, dims := part.dims[n..]));
  }

  lemma NoSubscripts(dims: seq<nat>)
    ensures InBounds(dims, [])
  {
  }

  lemma InBoundsStep(dims: seq<nat>, taken: seq<nat>, i: nat, more: seq<nat>)
    requires InBounds(dims, taken)
    ensures |taken| <= |dims|
    ensures |taken| < |dims| && i < dims[|taken|] <==> InBounds(dims, taken + [i])
    ensures InBounds(dims, taken + ([i] + more)) ==> InBounds(dims, taken + [i])
    ensures taken + [i] + more == taken + ([i] + more)
  {
    var all := taken + ([i] + more);
    assert all[|taken|] == i && (taken + [i])[|taken|] == i;
    assert forall k :: 0 <= k < |taken| ==> all[k] == taken[k] && (taken + [i])[k] == taken[k];
  }

  lemma PickedIs(part: Part, taken: seq<nat>, all: nat)
    requires |taken| <= |part.dims| && all == ElementsBefore(0, part.dims, taken)
    ensures Picked(part, taken) == part.(offset := part.offset + all * part.elemSize, dims := part.dims[|taken|..])
  {
  }

  lemma NoMoreIndices(before: nat, dims: seq<nat>)
    ensures ElementsBefore(before, dims, []) == before * Product(dims)
  {
  }

  lemma NoIndices(rest: Path, n: nat)
    requires n <= |rest| && (n < |rest| ==> rest[n].Symbol?)
    ensures Indices(rest[n..]) == []
  {
  }

  // ----- The lookup -----

  /** The aliases of a type that are not in use. */
  ghost function Unused(db: Database, stamped: set<Stamp>, name: Name): set<nat>
    requires name in db
  {
    set i | 0 <= i < |db[name].entities| && (name, i) !in stamped
  }

  /** The memo is right, nothing is in progress, and the metadata of the type `name` is there. */
  ghost predicate Knows(db: Database, memo: Memo, name: Name) {
    Right(db, memo) && Busy(memo) == {} && name in memo && memo[name].Done?
  }

  lemma StillKnows(db: Database, before: Memo, after: Memo, name: Name, t: Name)
    requires Knows(db, before, name) && Grown(before, after) && Knows(db, after, t)
    ensures Knows(db, after, name)
  {
  }

  lemma RecordedOffset(db: Database, memo: Memo, name: Name, i: nat)
    requires Knows(db, memo, name)
    ensures name in memo && memo[name].Done? && HasSize(db, name) && name in db
    ensures i < |db[name].entities| && !db[name].entities[i].Alias? ==>
              i < |memo[name].offsets| && memo[name].offsets[i] == Some(FieldPart(db, name, i).offset)
  {
    TargetsRankLower(db, name);
    if i < |db[name].entities| && !db[name].entities[i].Alias? {
      OffsetsStay(db[name], SizesOf(db, name), i + 1, |db[name].entities|);
      assert LayoutOf(db, name).offsets[..i + 1][i] == LayoutOf(db, name).offsets[i];
    }
  }

  lemma NotAName(db: Database, name: Name, path: Path)
    requires HasSize(db, name) && (|path| == 0 || path[0].Subscript?)
    ensures Meaningless(db, name, path)
  {
  }

  lemma StampIsCircular(db: Database, stamped: set<Stamp>, name: Name, path: Path, i: nat)
    requires HasSize(db, name) && Ready(db, stamped, name, path) && StartsWith(db, name, path, i) && (name, i) in stamped
    ensures Meaningless(db, name, path)
  {
    assert Behind(db, (name, i), name, path);
    CircularIsMeaningless(db, name, path, i);
  }

  lemma OneLessUnused(db: Database, stamped: set<Stamp>, name: Name, i: nat)
    requires IsAlias(db, name, i) && (name, i) !in stamped
    ensures |Unused(db, stamped + {(name, i)}, name)| < |Unused(db, stamped, name)|
  {
    assert Unused(db, stamped + {(name, i)}, name) == Unused(db, stamped, name) - {i};
  }

  lemma NoTargetAbove(db: Database, stamped: set<Stamp>, target: Option<Name>)
    ensures target.None? ==> AllAbove(db, stamped, target)
  {
  }

  /** The metadata of a database and the aliases used by the current query. */
  class Resolver {
    const cache: Cache
    var stamped: set<Stamp>

    constructor (cache: Cache)
      ensures this.cache == cache && stamped == {}
    {
      this.cache := cache;
      stamped := {};
    }

    /** The member of a type with the given symbol. An alias is marked as used, and refused if it already was. */
    method FindMember(name: Name, symbol: string) returns (r: Option<nat>, circular: bool)
      requires name in cache.db
      modifies this`stamped
      ensures var m := Find(cache.db[name], symbol);
              && (circular <==> m.Some? && IsAlias(cache.db, name, m.value) && (name, m.value) in old(stamped))
              && r == (if circular then None else m)
      ensures stamped == if r.Some? && IsAlias(cache.db, name, r.value) then old(stamped) + {(name, r.value)} else old(stamped)
    {
      var def := cache.db[name];
      for i := 0 to |def.entities|
        invariant Find(def, symbol) == FindFrom(def, symbol, i)
      {
        var e := def.entities[i];
        if e.symbol == Some(symbol) {
          if e.Alias? {
            if (name, i) in stamped {
              return None, true;
            }
            stamped := stamped + {(name, i)};
          }
          return Some(i), false;
        }
      }
      return None, false;
    }

    /** A field of a type, by its recorded offset; the metadata of its element type is there afterwards. */
    method FieldOf(name: Name, i: nat) returns (part: Part)
      requires Knows(cache.db, cache.memo, name)
      requires name in cache.db && i < |cache.db[name].entities| && !cache.db[name].entities[i].Alias?
      modifies cache
      ensures Knows(cache.db, cache.memo, name) && Grown(old(cache.memo), cache.memo)
      ensures part == FieldPart(cache.db, name, i)
      ensures part.target.Some? ==> Knows(cache.db, cache.memo, part.target.value)
    {
      hide Grown, Busy, Right, HasSize, LayoutOf;
      GrownNot(cache.memo);
      var db, e := cache.db, cache.db[name].entities[i];
      RecordedOffset(db, cache.memo, name, i);
      var offset := cache.memo[name].offsets[i].value;
      if e.Atomic? {
        part := Part(offset, e.elemSize, e.dims, None);
      } else {
        TargetsMonotone(db[name], i, |db[name].entities|);
        var size := Metadata(name, e.target);
        part := Part(offset, size, e.dims, Some(e.target));
      }
    }

    /** The size of a type referred to, which is known to exist. */
    method Metadata(name: Name, t: Name) returns (size: nat)
      requires Knows(cache.db, cache.memo, name) && name in cache.db && t in Targets(cache.db[name])
      modifies cache
      ensures Knows(cache.db, cache.memo, name) && Knows(cache.db, cache.memo, t) && Grown(old(cache.memo), cache.memo)
      ensures HasSize(cache.db, t) && size == SizeOf(cache.db, t)
    {
      hide Grown, HasSize, LayoutOf;
      TargetsRankLower(cache.db, name);
      HasSizeIffSound(cache.db, t);
      var r := cache.TypeSize(t);
      StillKnows(cache.db, old(cache.memo), cache.memo, name, t);
      size := r.value;
    }

    /** What a path stands for in a type that starts at `base`. */
    method NameOffset(name: Name, path: Path, base: nat) returns (r: Option<Part>)
      requires Knows(cache.db, cache.memo, name) && HasSize(cache.db, name) && Ready(cache.db, stamped, name, path)
      modifies this`stamped, cache
      ensures Knows(cache.db, cache.memo, name) && Grown(old(cache.memo), cache.memo)
      ensures r.Some? ==> exists x :: StandsFor(cache.db, name, path, x) && r.value == x.Shifted(base)
      ensures r.Some? ==> AllAbove(cache.db, stamped, r.value.target)
      ensures r.Some? && r.value.target.Some? ==> Knows(cache.db, cache.memo, r.value.target.value)
      ensures r.None? ==> Meaningless(cache.db, name, path)
      decreases Rank(cache.db, name), |Unused(cache.db, stamped, name)| + 1
    {
      hide Grown, Busy, Right, Knows, StandsFor, Meaningless, Ready, AllAbove, Leads, HasSize, BaseOf;
      GrownNot(cache.memo);
      if |path| == 0 || path[0].Subscript? {
        NotAName(cache.db, name, path);
        return None;
      }
      var db := cache.db;
      TargetsRankLower(db, name);
      var member, circular := FindMember(name, path[0].name);
      if circular {
        StampIsCircular(db, stamped, name, path, Find(db[name], path[0].name).value);
        r := None;
      } else if member.None? {
        r := Inherit(name, path, base);
      } else if db[name].entities[member.value].Alias? {
        var i := member.value;
        ReadyForAlias(db, old(stamped), name, path, i);
        OneLessUnused(db, old(stamped), name, i);
        var start := NameOffset(name, db[name].entities[i].path, 0);
        if start.None? {
          AliasMeaningless(db, name, path, i);
          return None;
        }
        var part := start.value;
        ghost var x :| StandsFor(db, name, AliasPath(db, name, i), x) && part == x.Shifted(0);
        StandsForIsLower(db, name, AliasPath(db, name, i), part);
        ghost var memo := cache.memo;
        r := FollowName(name, part, path[1..], base);
        GrownTwice(old(cache.memo), memo, cache.memo);
        if r.None? {
          AliasLost(db, name, path, i, part);
        } else {
          ghost var y :| FollowsTo(db, name, part, path[1..], y) && r.value == y.Shifted(base);
          AliasFound(db, name, path, i, part, y);
        }
      } else {
        var part := FieldOf(name, member.value);
        if part.target.Some? {
          ReadyBelow(db, stamped, name, path, part.target.value);
        }
        NoTargetAbove(db, stamped, part.target);
        ghost var memo := cache.memo;
        r := FollowName(name, part, path[1..], base);
        GrownTwice(old(cache.memo), memo, cache.memo);
        FieldFound(db, name, path, member.value);
      }
    }

    /** Look for a member in the base type. */
    method Inherit(name: Name, path: Path, base: nat) returns (r: Option<Part>)
      requires Knows(cache.db, cache.memo, name) && HasSize(cache.db, name) && Ready(cache.db, stamped, name, path)
      requires name in cache.db && |path| > 0 && path[0].Symbol? && Find(cache.db[name], path[0].name).None?
      modifies this`stamped, cache
      ensures Knows(cache.db, cache.memo, name) && Grown(old(cache.memo), cache.memo)
      ensures r.Some? ==> exists x :: StandsFor(cache.db, name, path, x) && r.value == x.Shifted(base)
      ensures r.Some? ==> AllAbove(cache.db, stamped, r.value.target)
      ensures r.Some? && r.value.target.Some? ==> Knows(cache.db, cache.memo, r.value.target.value)
      ensures r.None? ==> Meaningless(cache.db, name, path)
      decreases Rank(cache.db, name), 0
    {
      hide Grown, Busy, Right, Knows, StandsFor, Meaningless, Ready, AllAbove, HasSize, Find;
      GrownNot(cache.memo);
      var db, b := cache.db, BaseOf(cache.db[name]);
      Inherited(db, name, path);
      if b.None? {
        return None;
      }
      BaseIsTarget(db[name]);
      ReadyBelow(db, stamped, name, path, b.value);
      AboveIsReady(db, stamped, b.value, path);
      var size := Metadata(name, b.value);
      ghost var memo := cache.memo;
      r := NameOffset(b.value, path, base);
      GrownTwice(old(cache.memo), memo, cache.memo);
      StillKnows(db, memo, cache.memo, name, b.value);
    }

    /** What the rest of a path stands for, starting from a part of the type `name`. */
    method FollowName(name: Name, part: Part, rest: Path, base: nat) returns (r: Option<Part>)
      requires Knows(cache.db, cache.memo, name) && HasSize(cache.db, name) && Lower(cache.db, name, part.target)
      requires part.target.Some? ==> Knows(cache.db, cache.memo, part.target.value)
      requires AllAbove(cache.db, stamped, part.target)
      modifies this`stamped, cache
      ensures Knows(cache.db, cache.memo, name) && Grown(old(cache.memo), cache.memo)
      ensures r.Some? ==> exists x :: FollowsTo(cache.db, name, part, rest, x) && r.value == x.Shifted(base)
      ensures r.Some? ==> AllAbove(cache.db, stamped, r.value.target)
      ensures r.Some? && r.value.target.Some? ==> Knows(cache.db, cache.memo, r.value.target.value)
      ensures r.None? ==> LeadsNowhere(cache.db, name, part, rest)
      decreases Rank(cache.db, name), 0
    {
      hide Grown, Busy, Right, Knows, StandsFor, Meaningless, Ready, AllAbove, HasSize, FollowsTo, LeadsNowhere;
      hide Indices, ElementsBefore, Product, InBounds;
      GrownNot(cache.memo);
      var db := cache.db;
      FollowedInto(db, name, part, rest);
      var picked, n := PickSubscripts(part, rest);
      if picked.None? {
        return None;
      }
      if n == |rest| {
        return Some(picked.value.Shifted(base));
      }
      if !Single(picked.value.dims) || part.target.None? {
        return None;
      }
      AboveIsReady(db, stamped, part.target.value, rest[n..]);
      ghost var memo := cache.memo;
      r := NameOffset(part.target.value, rest[n..], base + picked.value.offset);
      StillKnows(db, memo, cache.memo, name, part.target.value);
    }

    /**
     The offset and the size of the field that a path names, asked for from outside. The query starts
     without used aliases and answers exactly when the path stands for something.
     */
    method TypeOffset(name: Name, path: Path) returns (r: Option<(nat, nat)>)
      requires Right(cache.db, cache.memo) && Busy(cache.memo) == {}
      modifies this`stamped, cache
      ensures Right(cache.db, cache.memo) && Busy(cache.memo) == {}
      ensures r.Some? ==> Sound(cache.db, name) && HasSize(cache.db, name)
      ensures r.Some? ==> exists x :: StandsFor(cache.db, name, path, x) && r.value == (x.offset, x.Size())
      ensures r.Some? && Built(cache.db) && r.value.1 > 0 ==> r.value.0 + r.value.1 <= SizeOf(cache.db, name)
      ensures r.None? ==> !Sound(cache.db, name) || (HasSize(cache.db, name) && Meaningless(cache.db, name, path))
    {
      stamped := {};
      var size := cache.TypeSize(name);
      if size.None? {
        return None;
      }
      var part := NameOffset(name, path, 0);
      if part.None? {
        return None;
      }
      var bytes := Builder.TotalSize(part.value.elemSize, part.value.dims);
      ghost var x :| StandsFor(cache.db, name, path, x) && part.value == x.Shifted(0);
      assert x == part.value;
      if Built(cache.db) {
        PartsLieInside(cache.db, name, path, x);
      }
      return Some((part.value.offset, bytes));
    }

    /**
     The offset and the size of a field that a text names. The ad-hoc types have one field, `value`. Any
     other type is looked up with the parsed text, unless parsing runs over the end of the text.
     */
    method FieldOffset(name: Name, field: string) returns (r: Query)
      requires Right(cache.db, cache.memo) && Busy(cache.memo) == {} && '\0' !in field
      modifies this`stamped, cache
      ensures Right(cache.db, cache.memo) && Busy(cache.memo) == {}
      ensures AdHocSize(name).Some? ==>
                r == if field == "value" then Found(0, AdHocSize(name).value) else NotFound
      ensures AdHocSize(name).None? ==> (r.Undefined? <==> Run(START, field).PastEnd?)
      ensures AdHocSize(name).None? && r.Found? ==>
                && Run(START, field).Parsed? && HasSize(cache.db, name)
                && exists x :: StandsFor(cache.db, name, Run(START, field).segments, x) && r == Found(x.offset, x.Size())
      ensures AdHocSize(name).None? && r.NotFound? ==>
                || Run(START, field).Malformed? || !Sound(cache.db, name)
                || (HasSize(cache.db, name) && Meaningless(cache.db, name, Run(START, field).segments))
    {
      hide Right, Busy, Run, StandsFor, Meaningless, Sound;
      var size := AdHocSize(name);
      if size.Some? {
        return if field == "value" then Found(0, size.value) else NotFound;
      }
      var path := Parse(field);
      if !path.Parsed? {
        return if path.PastEnd? then Undefined else NotFound;
      }
      var part := TypeOffset(name, path.segments);
      r := if part.Some? then Found(part.value.0, part.value.1) else NotFound;
    }
  }

  /** The answer to a query; undefined when the text is read past its end. */
  datatype Query = Found(offset: nat, size: nat) | NotFound | Undefined

  /** The sizes of the types that need no description. */
  function AdHocSize(name: Name): Option<nat> {
    if name == "int8" || name == "uint8" then Some(1)
    else if name == "int16" || name == "uint16" then Some(2)
    else if name == "int32" || name == "uint32" || name == "float" then Some(4)
    else if name == "int64" || name == "uint64" || name == "double" then Some(8)
    else None
  }

  lemma AdHocSizesAre(name: Name)
    ensures AdHocSize(name) == Some(1) <==> name in {"int8", "uint8"}
    ensures AdHocSize(name) == Some(2) <==> name in {"int16", "uint16"}
    ensures AdHocSize(name) == Some(4) <==> name in {"int32", "uint32", "float"}
    ensures AdHocSize(name) == Some(8) <==> name in {"int64", "uint64", "double"}
    ensures AdHocSize(name).Some? ==> AdHocSize(name).value in {1, 2, 4, 8}
  {
    if name == "int8" || name == "uint8" {
      assert |name| < 7 && name[|name| - 1] == '8';
    }
  }
}
