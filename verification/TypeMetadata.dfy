/**
 Sizes of types in a type database whose types refer to each other: what the size of a type is by
 plain recursion, which types have one, and the memoised computation with in-progress marks.
 */
module TypeMetadata {
  import opened Wrappers
  import opened ProtoType
  import opened TypeLayout

  type Database = map<Name, TypeDef>

  // ----- Which types have a size -----

  /** A sequence of types, each of which exists and refers to the next. The last one may be missing. */
  ghost predicate Chain(db: Database, p: seq<Name>) {
    && |p| > 0
    && (forall i {:trigger Refers(db, p, i)} :: 0 <= i < |p| - 1 ==> Refers(db, p, i))
  }

  ghost predicate Refers(db: Database, p: seq<Name>, i: nat)
    requires i + 1 < |p|
  {
    p[i] in db && p[i + 1] in Targets(db[p[i]])
  }

  ghost predicate Repeats(p: seq<Name>) {
    exists i, j :: 0 <= i < j < |p| && p[i] == p[j]
  }

  /** Every type that can be reached from `name` exists, and none can be reached from itself. */
  ghost predicate Sound(db: Database, name: Name) {
    forall p {:trigger Chain(db, p)} :: Chain(db, p) && p[0] == name ==> p[|p| - 1] in db && !Repeats(p)
  }

  /** All references from `name` exist to their end, within `depth` steps. */
  ghost predicate Closed(db: Database, name: Name, depth: nat)
    decreases depth
  {
    name in db && forall t :: t in Targets(db[name]) ==> depth > 0 && Closed(db, t, depth - 1)
  }

  ghost predicate HasSize(db: Database, name: Name) {
    exists depth :: Closed(db, name, depth)
  }

  lemma {:induction false} ClosedDeeper(db: Database, name: Name, d1: nat, d2: nat)
    requires Closed(db, name, d1) && d1 <= d2
    ensures Closed(db, name, d2)
    decreases d1
  {
    forall t | t in Targets(db[name])
      ensures d2 > 0 && Closed(db, t, d2 - 1)
    {
      ClosedDeeper(db, t, d1 - 1, d2 - 1);
    }
  }

  /** How deep the references from `name` go. */
  ghost function Rank(db: Database, name: Name): (depth: nat)
    requires HasSize(db, name)
    ensures Closed(db, name, depth)
    ensures forall d :: 0 <= d < depth ==> !Closed(db, name, d)
  {
    var d: nat :| Closed(db, name, d);
    Least(db, name, d)
  }

  ghost function Least(db: Database, name: Name, d: nat): (depth: nat)
    requires Closed(db, name, d)
    ensures Closed(db, name, depth)
    ensures forall d' :: 0 <= d' < depth ==> !Closed(db, name, d')
  {
    if d > 0 && Closed(db, name, d - 1) then Least(db, name, d - 1)
    else
      NoneBelow(db, name, d);
      d
  }

  lemma NoneBelow(db: Database, name: Name, d: nat)
    requires d > 0 ==> !Closed(db, name, d - 1)
    ensures forall d' :: 0 <= d' < d ==> !Closed(db, name, d')
  {
    forall d' | 0 <= d' < d && Closed(db, name, d')
      ensures false
    {
      ClosedDeeper(db, name, d', d - 1);
    }
  }

  lemma TargetsRankLower(db: Database, name: Name)
    requires HasSize(db, name)
    ensures name in db
    ensures forall t :: t in Targets(db[name]) ==> HasSize(db, t) && Rank(db, t) < Rank(db, name)
  {
    var d := Rank(db, name);
    forall t | t in Targets(db[name])
      ensures HasSize(db, t) && Rank(db, t) < d
    {
      assert Closed(db, t, d - 1);
    }
  }

  lemma HasSizeByTargets(db: Database, name: Name)
    requires name in db && forall t :: t in Targets(db[name]) ==> HasSize(db, t)
    ensures HasSize(db, name)
  {
    var d := DepthBound(db, Targets(db[name]));
    assert Closed(db, name, d + 1);
  }

  lemma {:induction false} DepthBound(db: Database, names: set<Name>) returns (d: nat)
    requires forall t :: t in names ==> HasSize(db, t)
    ensures forall t :: t in names ==> Closed(db, t, d)
  {
    d := 0;
    if names != {} {
      var n :| n in names;
      var d1 := DepthBound(db, names - {n});
      var d2: nat :| Closed(db, n, d2);
      d := d1 + d2;
      forall t | t in names
        ensures Closed(db, t, d)
      {
        if t == n {
          ClosedDeeper(db, t, d2, d);
        } else {
          ClosedDeeper(db, t, d1, d);
        }
      }
    }
  }

  /** Following references uses up depth. */
  lemma {:induction false} ChainGoesDown(db: Database, p: seq<Name>, i: nat, j: nat, d: nat)
    requires Chain(db, p) && i <= j < |p| && Closed(db, p[i], d)
    ensures j - i <= d && Closed(db, p[j], d - (j - i))
    decreases j - i
  {
    if i < j {
      assert Refers(db, p, i);
      ChainGoesDown(db, p, i + 1, j, d - 1);
    }
  }

  /** A type with a size only leads to types that exist, and never back. */
  lemma HasSizeIsSound(db: Database, name: Name)
    requires HasSize(db, name)
    ensures Sound(db, name)
  {
    forall p {:trigger Chain(db, p)} | Chain(db, p) && p[0] == name
      ensures p[|p| - 1] in db && !Repeats(p)
    {
      var d := Rank(db, name);
      ChainGoesDown(db, p, 0, |p| - 1, d);
      forall i, j | 0 <= i < j < |p| && p[i] == p[j]
        ensures false
      {
        ChainGoesDown(db, p, 0, i, d);
        assert HasSize(db, p[i]);
        ChainGoesDown(db, p, i, j, Rank(db, p[i]));
      }
    }
  }

  lemma {:induction false} SoundBelow(db: Database, name: Name, p: seq<Name>)
    requires Sound(db, name) && Chain(db, p) && p[0] == name
    ensures HasSize(db, p[|p| - 1])
    decreases |db.Keys - Elements(p)|
  {
    var last := p[|p| - 1];
    forall t | t in Targets(db[last])
      ensures HasSize(db, t)
    {
      var q := p + [t];
      ChainGoesOn(db, p, t);
      assert t in db && t !in Elements(p) by {
        assert !Repeats(q) && q[|p|] == t;
        assert forall i :: 0 <= i < |p| ==> q[i] == p[i];
      }
      assert db.Keys - Elements(q) == db.Keys - Elements(p) - {t};
      SoundBelow(db, name, q);
    }
    HasSizeByTargets(db, last);
  }

  ghost function Elements(p: seq<Name>): set<Name> {
    set n | n in p
  }

  lemma ChainGoesOn(db: Database, p: seq<Name>, t: Name)
    requires Chain(db, p) && p[|p| - 1] in db && t in Targets(db[p[|p| - 1]])
    ensures Chain(db, p + [t])
  {
    var q := p + [t];
    forall i {:trigger Refers(db, q, i)} | 0 <= i < |q| - 1
      ensures Refers(db, q, i)
    {
      assert i < |p| - 1 ==> Refers(db, p, i);
    }
  }

  /** The types with a size are those from which all references exist and none is circular. */
  lemma HasSizeIffSound(db: Database, name: Name)
    ensures HasSize(db, name) <==> Sound(db, name)
  {
    if HasSize(db, name) {
      HasSizeIsSound(db, name);
    }
    if Sound(db, name) {
      SoundBelow(db, name, [name]);
    }
  }

  // ----- The size of a type by plain recursion -----

  /** The layout of a type: its size is that of all its entities, laid out with the sizes of their types. */
  ghost function LayoutOf(db: Database, name: Name): Cursor
    requires HasSize(db, name)
    decreases Rank(db, name), 1
  {
    TargetsRankLower(db, name);
    Layout(db[name], SizesOf(db, name))
  }

  ghost function SizeOf(db: Database, name: Name): nat
    requires HasSize(db, name)
    decreases Rank(db, name), 2
  {
    LayoutOf(db, name).size
  }

  /** The sizes of the types that `name` refers to. */
  ghost function SizesOf(db: Database, name: Name): (sizes: Sizes)
    requires HasSize(db, name)
    ensures name in db && sizes.Keys == Targets(db[name])
    decreases Rank(db, name), 0
  {
    TargetsRankLower(db, name);
    map t | t in Targets(db[name]) :: SizeOf(db, t)
  }

  // ----- The memoised computation -----

  datatype Metadata = InProgress | Done(size: nat, offsets: seq<Option<nat>>)

  /** Why the computation for `name` fails: a chain to a missing type, back to itself or to a type in progress. */
  ghost predicate Broken(db: Database, busy: set<Name>, name: Name, p: seq<Name>) {
    && Chain(db, p) && p[0] == name
    && (p[|p| - 1] !in db || p[|p| - 1] in busy || Repeats(p))
  }

  lemma BrokenAbove(db: Database, busy: set<Name>, name: Name, t: Name, p: seq<Name>)
    requires name in db && t in Targets(db[name]) && Broken(db, busy + {name}, t, p)
    ensures Broken(db, busy, name, [name] + p)
  {
    var q := [name] + p;
    forall i {:trigger Refers(db, q, i)} | 0 <= i < |q| - 1
      ensures Refers(db, q, i)
    {
      assert i > 0 ==> Refers(db, p, i - 1);
    }
    if Repeats(p) {
      var i, j :| 0 <= i < j < |p| && p[i] == p[j];
      assert q[i + 1] == q[j + 1];
    } else if p[|p| - 1] == name {
      assert q[0] == q[|p|];
    }
  }

  lemma BrokenHere(db: Database, busy: set<Name>, name: Name)
    requires name !in db || name in busy
    ensures Broken(db, busy, name, [name])
  {
  }

  lemma BrokenEntity(db: Database, busy: set<Name>, name: Name, i: nat)
    requires name in db && name in busy && i < |db[name].entities| && db[name].entities[i].Compound?
    requires exists p :: Broken(db, busy, db[name].entities[i].target, p)
    ensures exists p :: Broken(db, busy - {name}, name, p)
  {
    var t := db[name].entities[i].target;
    var p :| Broken(db, busy, t, p);
    TargetsMonotone(db[name], i, |db[name].entities|);
    assert busy - {name} + {name} == busy;
    BrokenAbove(db, busy - {name}, name, t, p);
  }

  lemma NoTargets(def: TypeDef)
    ensures TargetsTo(def, 0) == {} && LayoutTo(def, map[], 0) == Cursor(0, 0, [])
  {
  }

  /** One step of the layout, after learning the size of the type the entity refers to. */
  lemma StepAgrees(def: TypeDef, sizes: Sizes, more: Sizes, i: nat)
    requires i < |def.entities| && sizes.Keys == TargetsTo(def, i)
    requires forall t :: t in sizes ==> t in more && more[t] == sizes[t]
    requires var e := def.entities[i]; more.Keys == sizes.Keys + if e.Compound? then {e.target} else {}
    ensures more.Keys == TargetsTo(def, i + 1)
    ensures var c, e := LayoutTo(def, sizes, i), def.entities[i];
            var offsets := c.offsets + [if e.Alias? then None else Some(c.size + c.gap)];
            LayoutTo(def, more, i + 1) ==
            if EntitySize(e, more) == 0 || e.Alias? then c.(offsets := offsets)
            else Cursor(c.size + c.gap + EntitySize(e, more), GapAfter(e, more, def.padding), offsets)
  {
    LayoutAgrees(def, sizes, more, i);
  }

  lemma LayoutIsRight(db: Database, name: Name, sizes: Sizes)
    requires name in db && sizes.Keys == Targets(db[name])
    requires forall t :: t in sizes ==> HasSize(db, t) && sizes[t] == SizeOf(db, t)
    ensures HasSize(db, name) && LayoutOf(db, name) == Layout(db[name], sizes)
  {
    HasSizeByTargets(db, name);
    LayoutAgrees(db[name], sizes, SizesOf(db, name), |db[name].entities|);
  }

  type Memo = map<Name, Metadata>

  /** Every entry belongs to a type, and every finished entry is its layout. */
  ghost predicate Right(db: Database, memo: Memo) {
    forall n :: n in memo ==> RightAt(db, n, memo[n])
  }

  ghost predicate RightAt(db: Database, n: Name, m: Metadata) {
    && n in db
    && (m.Done? ==> HasSize(db, n) && m.size == LayoutOf(db, n).size && m.offsets == LayoutOf(db, n).offsets)
  }

  function Busy(memo: Memo): set<Name> {
    set n | n in memo && memo[n].InProgress?
  }

  /** From `before` to `after` the memo has only gained finished entries. */
  ghost predicate Grown(before: Memo, after: Memo) {
    && Busy(before) == Busy(after)
    && (forall n :: n in before ==> n in after && after[n] == before[n])
  }

  lemma MarkedMemo(db: Database, memo: Memo, name: Name)
    requires Right(db, memo) && name in db && name !in memo
    ensures var marked := memo[name := InProgress];
            Right(db, marked) && Busy(marked) == Busy(memo) + {name}
            && |db.Keys - Busy(marked)| < |db.Keys - Busy(memo)|
  {
    hide LayoutOf, HasSize;
    var marked := memo[name := InProgress];
    assert Busy(marked) == Busy(memo) + {name};
    assert db.Keys - Busy(marked) == db.Keys - Busy(memo) - {name};
  }

  lemma UnmarkedMemo(db: Database, memo: Memo, name: Name, after: Memo)
    requires name !in memo && Grown(memo[name := InProgress], after) && Right(db, after)
    ensures Right(db, after - {name}) && Grown(memo, after - {name}) && Busy(after) - {name} == Busy(memo)
  {
    var marked := memo[name := InProgress];
    assert forall n :: n in Busy(marked) <==> n in Busy(memo) || n == name;
    assert forall n :: n in memo ==> n in marked && n != name;
  }

  lemma FinishedMemo(db: Database, memo: Memo, name: Name, after: Memo, m: Metadata)
    requires name !in memo && Grown(memo[name := InProgress], after) && Right(db, after)
    requires m.Done? && RightAt(db, name, m)
    ensures Right(db, after[name := m]) && Grown(memo, after[name := m])
  {
    var marked := memo[name := InProgress];
    assert forall n :: n in Busy(marked) <==> n in Busy(memo) || n == name;
    assert forall n :: n in memo ==> n in marked && n != name;
  }

  lemma GrownNot(memo: Memo)
    ensures Grown(memo, memo)
  {
  }

  lemma BusyIsKnown(db: Database, memo: Memo, name: Name)
    requires Right(db, memo) && name in Busy(memo)
    ensures name in db
  {
  }

  lemma InBusy(memo: Memo, name: Name)
    requires name in memo && memo[name].InProgress?
    ensures name in Busy(memo)
  {
  }

  lemma GrownTwice(m1: Memo, m2: Memo, m3: Memo)
    requires Grown(m1, m2) && Grown(m2, m3)
    ensures Grown(m1, m3) && Busy(m1) == Busy(m3)
  {
  }

  /** The metadata attached to the types of a database. */
  class Cache {
    const db: Database
    var memo: Memo

    constructor (db: Database)
      ensures this.db == db && memo == map[] && Right(db, memo) && Busy(memo) == {}
    {
      this.db := db;
      memo := map[];
    }

    /**
     The size of a type. It fails exactly when a chain of references leads to a missing type, comes
     back to a type on the chain, or reaches a type in progress; its own marks are gone when it returns.
     */
    method Compute(name: Name) returns (r: Option<nat>)
      requires Right(db, memo)
      modifies this
      ensures Right(db, memo) && Grown(old(memo), memo)
      ensures r.Some? ==> HasSize(db, name) && r.value == SizeOf(db, name)
      ensures r.Some? ==> name in memo && memo[name].Done?
      ensures r.None? ==> exists p :: Broken(db, Busy(memo), name, p)
      decreases |db.Keys - Busy(memo)|, 1
    {
      hide LayoutOf, HasSize, Broken, Grown, Busy;
      GrownNot(memo);
      if name !in db {
        BrokenHere(db, Busy(memo), name);
        return None;
      }
      if name in memo {
        if memo[name].InProgress? {
          InBusy(memo, name);
          BrokenHere(db, Busy(memo), name);
          return None;
        }
        return Some(memo[name].size);
      }
      MarkedMemo(db, memo, name);
      memo := memo[name := InProgress];
      var layout := LayOut(name);
      if layout.None? {
        UnmarkedMemo(db, old(memo), name, memo);
        memo := memo - {name};
        return None;
      }
      var done := Done(layout.value.size, layout.value.offsets);
      FinishedMemo(db, old(memo), name, memo, done);
      memo := memo[name := done];
      return Some(layout.value.size);
    }

    /** The size of a type, asked for from outside: no type is in progress before or after. */
    method TypeSize(name: Name) returns (r: Option<nat>)
      requires Right(db, memo) && Busy(memo) == {}
      modifies this
      ensures Right(db, memo) && Busy(memo) == {} && Grown(old(memo), memo)
      ensures r.Some? <==> Sound(db, name)
      ensures r.Some? ==> HasSize(db, name) && r.value == SizeOf(db, name)
      ensures r.Some? ==> name in memo && memo[name].Done?
    {
      r := Compute(name);
      HasSizeIffSound(db, name);
    }

    /** The bytes of an entity and the padding due after it. */
    static method EntityBytes(e: Entity, elemSize: nat, paddingSize: nat, ghost sizes: Sizes)
      returns (total: nat, padding: nat)
      requires (e.Compound? ==> e.target in sizes) && elemSize == ElementSize(e, sizes)
      ensures total == EntitySize(e, sizes)
      ensures total > 0 ==> padding == GapAfter(e, sizes, paddingSize)
    {
      if elemSize == 0 {
        return 0, 0;
      }
      var count := Builder.TotalSize(1, Dims(e));
      total := elemSize * count;
      if paddingSize > 0 && !e.Atomic? {
        padding := (paddingSize - total % paddingSize) % paddingSize;
      } else {
        padding := 0;
      }
    }

    /** The layout pass over the entities of a type that is in progress. */
    method LayOut(name: Name) returns (r: Option<Cursor>)
      requires Right(db, memo) && name in Busy(memo)
      modifies this
      ensures Right(db, memo) && Grown(old(memo), memo)
      ensures r.Some? ==> HasSize(db, name) && r.value == LayoutOf(db, name)
      ensures r.None? ==> exists p :: Broken(db, Busy(memo) - {name}, name, p)
      decreases |db.Keys - Busy(memo)|, 2
    {
      hide LayoutTo, TargetsTo, HasSize, Broken, LayoutOf, SizeOf, EntitySize, GapAfter, Grown, Busy, Right;
      BusyIsKnown(db, memo, name);
      GrownNot(memo);
      var def := db[name];
      NoTargets(def);
      var size, gap, offsets: seq<Option<nat>> := 0, 0, [];
      ghost var sizes: Sizes := map[];
      for i := 0 to |def.entities|
        invariant Right(db, memo) && Grown(old(memo), memo) && Busy(memo) == old(Busy(memo))
        invariant sizes.Keys == TargetsTo(def, i)
        invariant forall t :: t in sizes ==> HasSize(db, t) && sizes[t] == SizeOf(db, t)
        invariant Cursor(size, gap, offsets) == LayoutTo(def, sizes, i)
      {
        var e := def.entities[i];
        var elemSize := 0;
        if e.Compound? {
          ghost var before := memo;
          var child := Compute(e.target);
          GrownTwice(old(memo), before, memo);
          if child.None? {
            BrokenEntity(db, Busy(memo), name, i);
            return None;
          }
          elemSize := child.value;
        } else if e.Atomic? {
          elemSize := e.elemSize;
        }
        ghost var more := if e.Compound? then sizes[e.target := elemSize] else sizes;
        StepAgrees(def, sizes, more, i);
        var total, padding := EntityBytes(e, elemSize, def.padding, more);
        offsets := offsets + [if e.Alias? then None else Some(size + gap)];
        if total != 0 && !e.Alias? {
          size, gap := size + gap + total, padding;
        }
        sizes := more;
      }
      LayoutIsRight(db, name, sizes);
      r := Some(Cursor(size, gap, offsets));
    }
  }
}
