/**
 The table of module instances sorted by path, and the search in it that narrows a range of
 entries one character at a time.
 */
module PathIndex {
  import opened Wrappers

  /** A path is a terminated string of bytes. */
  type Path = s: string | forall i :: 0 <= i < |s| ==> 0 < s[i] as int < 256 witness ""

  /** The table has room for as many instances as there are module numbers, except the error code. */
  const MAX_MODULES: nat := 255

  /** The byte at a position, or the terminator: this is what the insertion compares. */
  function At(p: string, i: nat): nat {
    if i < |p| then p[i] as nat else 0
  }

  /** A byte as the search sees it, in a signed `char`. */
  function Signed(c: nat): int {
    if c < 128 then c else c - 256
  }

  // ----- String comparison -----

  function Compare(a: Path, b: Path): int
    decreases |a|
  {
    if At(a, 0) != At(b, 0) then At(a, 0) - At(b, 0) else if |a| == 0 then 0 else Compare(a[1..], b[1..])
  }

  lemma SameStart(a: Path, b: Path)
    requires At(a, 0) == At(b, 0)
    ensures |a| == 0 <==> |b| == 0
    ensures |a| > 0 ==> a == [a[0]] + a[1..] && b == [a[0]] + b[1..]
  {
  }

  lemma {:induction false} CompareLaws(a: Path, b: Path)
    ensures Compare(a, b) == 0 <==> a == b
    ensures Compare(a, b) == -Compare(b, a)
    decreases |a|
  {
    if At(a, 0) == At(b, 0) {
      SameStart(a, b);
      if |a| > 0 {
        CompareLaws(a[1..], b[1..]);
      }
    }
  }

  lemma {:induction false} CompareTransitive(a: Path, b: Path, c: Path)
    requires Compare(a, b) < 0 && Compare(b, c) < 0
    ensures Compare(a, c) < 0
    decreases |a|
  {
    if At(a, 0) == At(b, 0) && At(b, 0) == At(c, 0) {
      SameStart(a, b);
      SameStart(b, c);
      if |a| > 0 {
        CompareTransitive(a[1..], b[1..], c[1..]);
      }
    }
  }

  /** Among strings with a common start, the next character orders them. */
  lemma {:induction false} CompareAfterStart(a: Path, b: Path, k: nat)
    requires k <= |a| && k <= |b| && a[..k] == b[..k] && Compare(a, b) < 0
    ensures At(a, k) <= At(b, k)
    decreases k
  {
    if k > 0 {
      assert a[..k][0] == b[..k][0];
      assert a[1..][..k - 1] == a[..k][1..] && b[1..][..k - 1] == b[..k][1..];
      CompareAfterStart(a[1..], b[1..], k - 1);
    }
  }

  /** A string does not come before its own start. */
  lemma {:induction false} StartComesFirst(start: Path, p: Path)
    requires start <= p
    ensures Compare(start, p) <= 0
    decreases |start|
  {
    if |start| > 0 {
      StartComesFirst(start[1..], p[1..]);
    }
  }

  // ----- The table -----

  ghost predicate Sorted(paths: seq<Path>) {
    forall i, j :: 0 <= i < j < |paths| ==> Compare(paths[i], paths[j]) < 0
  }

  /** `p` and `key` agree on their first `k` characters. */
  predicate Agrees(p: string, key: string, k: nat) {
    k <= |p| && k <= |key| && p[..k] == key[..k]
  }

  /** The entries from `l` to `r` are exactly those that agree with `key` on `k` characters. */
  ghost predicate Narrowed(paths: seq<Path>, key: Path, k: nat, l: nat, r: nat) {
    && l <= r <= |paths|
    && (forall i :: 0 <= i < |paths| ==> (Agrees(paths[i], key, k) <==> l <= i < r))
  }

  /** A range in the order of the search. */
  ghost predicate Ordered(paths: seq<Path>, k: nat, l: nat, r: nat)
    requires l <= r <= |paths|
  {
    forall i, j :: l <= i <= j < r ==> Signed(At(paths[i], k)) <= Signed(At(paths[j], k))
  }

  /** Two entries that agree with `key` on `k` characters go on with a low and with a high byte. */
  ghost predicate Mixes(paths: seq<Path>, key: string, k: nat) {
    exists i, j :: 0 <= i < |paths| && 0 <= j < |paths| && MixAt(paths[i], paths[j], key, k)
  }

  predicate MixAt(low: Path, high: Path, key: string, k: nat) {
    Agrees(low, key, k) && Agrees(high, key, k) && At(low, k) < 128 <= At(high, k)
  }

  /** No low and high bytes are mixed on the way to the character `k` of `key`. */
  ghost predicate Clear(paths: seq<Path>, key: string, k: nat) {
    forall j :: 0 <= j < k ==> !Mixes(paths, key, j)
  }

  /** The way to `key` is clear up to a high byte that is mixed with low ones. */
  ghost predicate Hidden(paths: seq<Path>, key: Path) {
    exists k :: 0 <= k < |key| && Clear(paths, key, k) && HidesAt(paths, key, k)
  }

  ghost predicate HidesAt(paths: seq<Path>, key: Path, k: nat)
    requires k < |key|
  {
    key[k] as nat >= 128 && Mixes(paths, key, k)
  }

  lemma SameByteOrder(a: nat, b: nat)
    requires a <= b < 256 && !(a < 128 <= b)
    ensures Signed(a) <= Signed(b)
  {
  }

  lemma RangeInOrder(paths: seq<Path>, key: Path, k: nat, l: nat, r: nat, i: nat, j: nat)
    requires Sorted(paths) && Narrowed(paths, key, k, l, r) && l <= i <= j < r
    ensures At(paths[i], k) <= At(paths[j], k)
  {
    if i < j {
      assert Agrees(paths[i], key, k) && Agrees(paths[j], key, k);
      CompareAfterStart(paths[i], paths[j], k);
    }
  }

  lemma NarrowedIsOrdered(paths: seq<Path>, key: Path, k: nat, l: nat, r: nat)
    requires Sorted(paths) && Narrowed(paths, key, k, l, r) && !Mixes(paths, key, k)
    ensures Ordered(paths, k, l, r)
  {
    forall i, j | l <= i <= j < r
      ensures Signed(At(paths[i], k)) <= Signed(At(paths[j], k))
    {
      RangeInOrder(paths, key, k, l, r, i, j);
      assert Agrees(paths[i], key, k) && Agrees(paths[j], key, k);
      assert !MixAt(paths[i], paths[j], key, k);
      SameByteOrder(At(paths[i], k), At(paths[j], k));
    }
  }

  /** Where bytes are mixed there are several entries, and the first of them has a low byte. */
  lemma MixedRange(paths: seq<Path>, key: Path, k: nat, l: nat, r: nat)
    requires Sorted(paths) && Narrowed(paths, key, k, l, r) && Mixes(paths, key, k)
    ensures r - l > 1 && At(paths[l], k) < 128
  {
    var i, j :| 0 <= i < |paths| && 0 <= j < |paths| && MixAt(paths[i], paths[j], key, k);
    assert l <= i < r && l <= j < r && i != j;
    RangeInOrder(paths, key, k, l, r, l, i);
  }

  /** Narrow a range to the entries with the character `ch` at position `k`, by binary search. */
  method SearchChar(paths: seq<Path>, k: nat, ch: nat, l: nat, r: nat) returns (found: bool, from: nat, to: nat)
    requires l < r <= |paths| && 0 < ch < 256
    ensures found ==> l <= from < to <= r
    ensures Signed(ch) < Signed(At(paths[l], k)) ==> !found
    ensures Ordered(paths, k, l, r) ==> (found <==> exists i :: l <= i < r && At(paths[i], k) == ch)
    ensures Ordered(paths, k, l, r) && found ==> forall i :: l <= i < r ==> (At(paths[i], k) == ch <==> from <= i < to)
  {
    from, to := l, r;
    if Signed(ch) < Signed(At(paths[l], k)) {
      return false, from, to;
    }
    var ll, rr := l, r;
    if Signed(At(paths[l], k)) < Signed(ch) {
      while rr - ll > 1
        invariant l <= ll < rr <= r
        invariant Signed(At(paths[ll], k)) < Signed(ch) && (rr < r ==> Signed(ch) <= Signed(At(paths[rr], k)))
      {
        var mm := (ll + rr) / 2;
        if Signed(At(paths[mm], k)) < Signed(ch) {
          ll := mm;
        } else {
          rr := mm;
        }
      }
      if rr == r || Signed(ch) != Signed(At(paths[rr], k)) {
        return false, from, to;
      }
      from := rr;
    }
    ll, rr := from, r;
    while rr - ll > 1
      invariant from <= ll < rr <= r
      invariant Signed(At(paths[ll], k)) <= Signed(ch) && (rr < r ==> Signed(ch) < Signed(At(paths[rr], k)))
    {
      var mm := (ll + rr) / 2;
      if Signed(At(paths[mm], k)) <= Signed(ch) {
        ll := mm;
      } else {
        rr := mm;
      }
    }
    to := rr;
    assert At(paths[from], k) == ch;
    found := true;
  }

  lemma NarrowedMore(paths: seq<Path>, key: Path, k: nat, l: nat, r: nat, from: nat, to: nat)
    requires Narrowed(paths, key, k, l, r) && k < |key| && l <= from <= to <= r
    requires forall i :: l <= i < r ==> (At(paths[i], k) == key[k] as nat <==> from <= i < to)
    ensures Narrowed(paths, key, k + 1, from, to)
  {
  }

  lemma NoneAgrees(paths: seq<Path>, key: Path, k: nat, l: nat, r: nat)
    requires Narrowed(paths, key, k, l, r) && k < |key|
    requires forall i :: l <= i < r ==> At(paths[i], k) != key[k] as nat
    ensures forall i :: 0 <= i < |paths| ==> !(key <= paths[i])
  {
  }

  lemma ClearUpTo(paths: seq<Path>, key: Path, k: nat)
    requires k < |key|
    ensures Clear(paths, key, k + 1) <==> Clear(paths, key, k) && !Mixes(paths, key, k)
    ensures Clear(paths, key, |key|) ==> Clear(paths, key, k + 1)
  {
    hide Mixes;
  }

  lemma ClearBefore(paths: seq<Path>, key: Path, k: nat)
    requires k <= |key|
    ensures Clear(paths, key, |key|) ==> Clear(paths, key, k)
  {
    hide Mixes;
  }

  /** An exact range is in the order of the search, or its first entry comes after a hidden key. */
  lemma FirstOfRange(paths: seq<Path>, key: Path, k: nat, l: nat, r: nat)
    requires Sorted(paths) && Narrowed(paths, key, k, l, r) && k < |key| && l < r
    ensures !Mixes(paths, key, k) ==> Ordered(paths, k, l, r)
    ensures HidesAt(paths, key, k) ==> Signed(key[k] as nat) < Signed(At(paths[l], k))
  {
    hide Sorted, Narrowed, Mixes, Ordered;
    if Mixes(paths, key, k) {
      MixedRange(paths, key, k, l, r);
    } else {
      NarrowedIsOrdered(paths, key, k, l, r);
    }
  }

  /** After a successful search the key is not hidden. */
  lemma NotHidden(paths: seq<Path>, key: Path, k: nat, l: nat, r: nat)
    requires Sorted(paths) && k <= |key| && (k == |key| || r - l <= 1)
    requires Clear(paths, key, k) ==> Narrowed(paths, key, k, l, r)
    requires forall j :: 0 <= j < k && Clear(paths, key, j) ==> !HidesAt(paths, key, j)
    ensures !Hidden(paths, key)
  {
    hide Sorted, Narrowed, Mixes;
    if Hidden(paths, key) {
      var m :| 0 <= m < |key| && Clear(paths, key, m) && HidesAt(paths, key, m);
      if m >= k {
        assert Clear(paths, key, k);
        MixedLater(paths, key, k, m, l, r);
      }
      assert false;
    }
  }

  /** A range of one entry leaves nothing to mix. */
  lemma MixedLater(paths: seq<Path>, key: Path, k: nat, m: nat, l: nat, r: nat)
    requires Narrowed(paths, key, k, l, r) && k <= m && Mixes(paths, key, m)
    ensures r - l > 1
  {
    var i, j :| 0 <= i < |paths| && 0 <= j < |paths| && MixAt(paths[i], paths[j], key, m);
    assert key[..k] == key[..m][..k] && paths[i][..k] == paths[i][..m][..k] && paths[j][..k] == paths[j][..m][..k];
    assert Agrees(paths[i], key, k) && Agrees(paths[j], key, k);
  }

  /**
   Narrow the table to one entry or to all the entries that start with `key`, if the way to `key`
   is clear. A hidden key is missed.
   */
  method NarrowDown(paths: seq<Path>, key: Path) returns (found: bool, k: nat, l: nat, r: nat)
    requires Sorted(paths)
    ensures found ==> k <= |key| && l <= r <= |paths| && (k == |key| || r - l <= 1)
    ensures Clear(paths, key, |key|) && found ==> Narrowed(paths, key, k, l, r)
    ensures Clear(paths, key, |key|) && !found ==> forall i :: 0 <= i < |paths| ==> !(key <= paths[i])
    ensures Hidden(paths, key) ==> !found
  {
    hide Sorted, Mixes, Clear, HidesAt;
    found, k, l, r := true, 0, 0, |paths|;
    while k < |key| && r - l > 1
      invariant k <= |key| && l <= r <= |paths|
      invariant Clear(paths, key, k) ==> Narrowed(paths, key, k, l, r)
      invariant forall j :: 0 <= j < k && Clear(paths, key, j) ==> !HidesAt(paths, key, j)
    {
      ClearUpTo(paths, key, k);
      if Clear(paths, key, k) {
        FirstOfRange(paths, key, k, l, r);
      }
      var here, from, to := SearchChar(paths, k, key[k] as nat, l, r);
      if !here {
        if Clear(paths, key, |key|) {
          NoneAgrees(paths, key, k, l, r);
        }
        return false, k, l, r;
      }
      if Clear(paths, key, k + 1) {
        NarrowedMore(paths, key, k, l, r, from, to);
      }
      l, r, k := from, to, k + 1;
    }
    ClearBefore(paths, key, k);
    NotHidden(paths, key, k, l, r);
  }

  /**
   The entry with a path. If the way to it is clear, it is found if and only if the table has it;
   if it is hidden, it is not found. No other entry is ever returned.
   */
  method GetFromPath(paths: seq<Path>, key: Path) returns (r: Option<nat>)
    requires Sorted(paths)
    ensures r.Some? ==> r.value < |paths| && paths[r.value] == key
    ensures Clear(paths, key, |key|) ==> (r.Some? <==> key in paths)
    ensures Hidden(paths, key) ==> r == None
  {
    hide Sorted, Clear, Hidden, Narrowed;
    var found, k, l, right := NarrowDown(paths, key);
    if !found {
      assert Clear(paths, key, |key|) ==> forall i :: 0 <= i < |paths| ==> paths[i] != key;
      return None;
    }
    if right - l > 0 && key == paths[l] {
      return Some(l);
    }
    if Clear(paths, key, |key|) {
      forall i | 0 <= i < |paths|
        ensures paths[i] != key
      {
        if paths[i] == key {
          FirstIsKey(paths, key, k, l, right, i);
        }
      }
    }
    return None;
  }

  lemma FirstIsKey(paths: seq<Path>, key: Path, k: nat, l: nat, r: nat, i: nat)
    requires Sorted(paths) && Narrowed(paths, key, k, l, r) && k <= |key| && (k == |key| || r - l <= 1)
    requires i < |paths| && paths[i] == key
    ensures l < r && paths[l] == key
  {
    assert Agrees(paths[i], key, k);
    if l < i {
      assert Agrees(paths[l], key, k);
      StartComesFirst(key, paths[l]);
      CompareLaws(key, paths[l]);
      assert false;
    }
  }

  /** The range of the entries whose paths start with `key`, if the way to it is clear; nothing if it is hidden. */
  method OpenDir(paths: seq<Path>, key: Path) returns (begin: nat, end: nat)
    requires Sorted(paths)
    ensures begin <= end <= |paths|
    ensures Clear(paths, key, |key|) ==> forall i :: 0 <= i < |paths| ==> (key <= paths[i] <==> begin <= i < end)
    ensures Hidden(paths, key) ==> begin == end
  {
    hide Sorted, Clear, Hidden, Narrowed;
    var found, k, l, r := NarrowDown(paths, key);
    if !found {
      return 0, 0;
    }
    while r > l && k < |key| && At(paths[l], k) == key[k] as nat
      invariant k <= |key| && l <= r <= |paths| && (k == |key| || r - l <= 1)
      invariant Clear(paths, key, |key|) ==> Narrowed(paths, key, k, l, r)
      decreases |key| - k
    {
      if Clear(paths, key, |key|) {
        NarrowedMore(paths, key, k, l, r, l, r);
      }
      k := k + 1;
    }
    if Clear(paths, key, |key|) {
      if k == |key| {
        NarrowedToStart(paths, key, l, r);
      } else {
        NoneAgrees(paths, key, k, l, r);
      }
    }
    if k == |key| {
      return l, r;
    }
    return 0, 0;
  }

  lemma NarrowedToStart(paths: seq<Path>, key: Path, l: nat, r: nat)
    requires Narrowed(paths, key, |key|, l, r)
    ensures forall i :: 0 <= i < |paths| ==> (key <= paths[i] <==> l <= i < r)
  {
    assert forall i :: 0 <= i < |paths| ==> (key <= paths[i] <==> Agrees(paths[i], key, |key|));
  }

  // ----- Which tables can be searched -----

  /** Two paths first differ in a low byte (or the end) and a high byte. */
  ghost predicate Mixed(paths: seq<Path>) {
    exists low, high, k :: low in paths && high in paths && FirstDiffer(low, high, k)
  }

  predicate FirstDiffer(low: Path, high: Path, k: nat) {
    Agrees(low, high, k) && At(low, k) < 128 <= At(high, k)
  }

  /** Without such paths the way to every key is clear. */
  lemma AllClear(paths: seq<Path>, key: Path)
    requires !Mixed(paths)
    ensures Clear(paths, key, |key|)
  {
    forall k | 0 <= k < |key|
      ensures !Mixes(paths, key, k)
    {
      forall i, j | 0 <= i < |paths| && 0 <= j < |paths|
        ensures !MixAt(paths[i], paths[j], key, k)
      {
        assert !FirstDiffer(paths[i], paths[j], k);
      }
    }
  }

  /** And with such paths, the table has one that the search does not find. */
  lemma SomeHidden(paths: seq<Path>) returns (key: Path)
    requires Mixed(paths)
    ensures key in paths && Hidden(paths, key)
  {
    var low, high, k :| low in paths && high in paths && FirstDiffer(low, high, k);
    key := HiddenBefore(paths, low, high, k);
  }

  /** The shallowest place where bytes are mixed on the way to a path hides a path. */
  lemma {:induction false} HiddenBefore(paths: seq<Path>, low: Path, high: Path, k: nat) returns (key: Path)
    requires low in paths && high in paths && FirstDiffer(low, high, k)
    ensures key in paths && Hidden(paths, key)
    decreases k
  {
    hide Mixes;
    if j: nat :| j < k && Mixes(paths, high, j) {
      var lower, higher := MixedPair(paths, high, j);
      key := HiddenBefore(paths, lower, higher, j);
    } else {
      key := high;
      MixesHere(paths, low, high, k);
      assert HidesAt(paths, key, k);
    }
  }

  lemma MixedPair(paths: seq<Path>, key: Path, k: nat) returns (low: Path, high: Path)
    requires Mixes(paths, key, k)
    ensures low in paths && high in paths && FirstDiffer(low, high, k)
  {
    var i, j :| 0 <= i < |paths| && 0 <= j < |paths| && MixAt(paths[i], paths[j], key, k);
    low, high := paths[i], paths[j];
  }

  lemma MixesHere(paths: seq<Path>, low: Path, high: Path, k: nat)
    requires low in paths && high in paths && FirstDiffer(low, high, k)
    ensures k < |high| && high[k] as nat >= 128 && Mixes(paths, high, k)
  {
    var i :| 0 <= i < |paths| && paths[i] == low;
    var j :| 0 <= j < |paths| && paths[j] == high;
    assert MixAt(paths[i], paths[j], high, k);
  }

  /**
   The search keeps what the table promises, for all keys, iff no two paths first differ in bytes
   of which exactly one is high.
   */
  lemma SearchableIffNotMixed(paths: seq<Path>)
    ensures (forall key: Path :: Clear(paths, key, |key|)) <==> !Mixed(paths)
    ensures (exists key :: key in paths && Hidden(paths, key)) <==> Mixed(paths)
  {
    hide Mixed, Clear, Hidden;
    if Mixed(paths) {
      var key := SomeHidden(paths);
      HiddenNotClear(paths, key);
    } else {
      forall key: Path
        ensures Clear(paths, key, |key|) && !Hidden(paths, key)
      {
        AllClear(paths, key);
        if Hidden(paths, key) {
          HiddenNotClear(paths, key);
        }
      }
    }
  }

  lemma HiddenNotClear(paths: seq<Path>, key: Path)
    requires Hidden(paths, key)
    ensures !Clear(paths, key, |key|)
  {
  }

  // ----- Insertion -----

  datatype Insertion = Inserted | Taken | Overrun

  class Table {
    var paths: seq<Path>

    constructor ()
      ensures paths == [] && Sorted(paths)
    {
      paths := [];
    }

    /**
     Insert a module instance by its path, unless the path is taken. A full table is written past
     its end: nothing checks for it.
     */
    method Insert(path: Path) returns (r: Insertion)
      requires Sorted(paths) && |paths| <= MAX_MODULES
      modifies this
      ensures Sorted(paths) && |paths| <= MAX_MODULES
      ensures r == if |old(paths)| == MAX_MODULES then Overrun else if path in old(paths) then Taken else Inserted
      ensures r == Inserted ==> multiset(paths) == multiset(old(paths)) + multiset{path}
      ensures r != Inserted ==> paths == old(paths)
    {
      if |paths| == MAX_MODULES {
        return Overrun;
      }
      var i := 0;
      while i < |paths| && Compare(paths[i], path) < 0
        invariant i <= |paths| && forall j :: 0 <= j < i ==> Compare(paths[j], path) < 0
      {
        i := i + 1;
      }
      if i < |paths| && Compare(paths[i], path) == 0 {
        CompareLaws(paths[i], path);
        return Taken;
      }
      InsertedSorted(paths, path, i);
      assert paths == paths[..i] + paths[i..];
      paths := paths[..i] + [path] + paths[i..];
      return Inserted;
    }
  }

  lemma InsertedSorted(paths: seq<Path>, path: Path, i: nat)
    requires Sorted(paths) && i <= |paths| && forall j :: 0 <= j < i ==> Compare(paths[j], path) < 0
    requires i < |paths| ==> Compare(paths[i], path) > 0
    ensures Sorted(paths[..i] + [path] + paths[i..]) && path !in paths
  {
    forall j | 0 <= j < |paths|
      ensures paths[j] != path && (j >= i ==> Compare(path, paths[j]) < 0)
    {
      CompareLaws(paths[j], path);
      if j >= i {
        CompareLaws(paths[i], path);
        if j > i {
          CompareTransitive(path, paths[i], paths[j]);
        }
        CompareLaws(path, paths[j]);
      }
    }
  }
}
