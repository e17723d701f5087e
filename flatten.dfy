/**
  `to_dot` of src/lib.rs, and what `traverse_dot` and `to_dot` are proved to
  guarantee about the flat map, stated with `ReachesLeaf` (which scalar sits
  at which path) rather than with either walk.
 */
module Flatten {
  import opened Json
  import opened Decimal
  import opened Paths
  import opened Traverse
  import opened Reference

  /** The map `to_dot(src)` returns. */
  function DotMap(src: Fields): map<string, Value> {
    Flattened(src, [], map[])
  }

  /** `to_dot`: an empty destination, an empty path, one walk. */
  method ToDot(src: Fields) returns (dest: map<string, Value>)
    ensures dest == DotMap(src)
    ensures forall k :: k in dest ==> IsScalar(dest[k])
    ensures forall k :: k in dest <==> exists s, v :: ReachesLeaf(src, s, v) && Join(s, Separator) == k
  {
    dest := TraverseDot(src, map[], []);
    DotMapScalars(src);
    DotMapKeys(src);
  }

  // ---------------------------------------------------------------------------
  // traverse_dot, from any destination and any path

  /** A key that is not the joined path of a reachable scalar keeps its old entry (or absence). */
  lemma FlattenedKeepsOthers(src: Fields, path: seq<string>, dest: map<string, Value>, k: string)
    requires forall s, v :: ReachesLeaf(src, s, v) ==> Join(path + s, Separator) != k
    ensures (k in Flattened(src, path, dest)) == (k in dest)
    ensures k in dest ==> Flattened(src, path, dest)[k] == dest[k]
  {
    var ls := Leaves(src, path);
    FlattenedIsInsertAll(src, path, dest);
    forall j | 0 <= j < |ls| ensures FlatKey(ls[j]) != k {
      LeavesSound(src, path, ls[j]);
      assert path + ls[j].0[|path|..] == ls[j].0;
    }
    InsertAllOther(dest, ls, k);
  }

  /** Every entry that is new or changed holds a scalar: arrays and objects are never inserted. */
  lemma FlattenedInsertsOnlyScalars(src: Fields, path: seq<string>, dest: map<string, Value>)
    ensures forall k :: k in Flattened(src, path, dest) ==>
      IsScalar(Flattened(src, path, dest)[k]) || (k in dest && Flattened(src, path, dest)[k] == dest[k])
  {
    var ls := Leaves(src, path);
    FlattenedIsInsertAll(src, path, dest);
    forall j | 0 <= j < |ls| ensures IsScalar(ls[j].1) {
      LeavesSound(src, path, ls[j]);
    }
    InsertAllOnlyScalars(dest, ls);
  }

  /**
    A reachable scalar is copied unchanged under its joined path, provided no
    other reachable scalar with a different value joins to the same key.
   */
  lemma FlattenedPlacesLeaf(src: Fields, path: seq<string>, dest: map<string, Value>, s: seq<string>, v: Value)
    requires ReachesLeaf(src, s, v)
    requires forall s', v' :: ReachesLeaf(src, s', v') && Join(path + s', Separator) == Join(path + s, Separator) ==> v' == v
    ensures Join(path + s, Separator) in Flattened(src, path, dest)
    ensures Flattened(src, path, dest)[Join(path + s, Separator)] == v
  {
    var ls := Leaves(src, path);
    var k := Join(path + s, Separator);
    FlattenedIsInsertAll(src, path, dest);
    LeavesComplete(src, path, s, v);
    var j :| 0 <= j < |ls| && ls[j] == (path + s, v);
    assert FlatKey(ls[j]) == k;
    forall j' | 0 <= j' < |ls| && FlatKey(ls[j']) == k ensures ls[j'].1 == v {
      LeavesSound(src, path, ls[j']);
      assert path + ls[j'].0[|path|..] == ls[j'].0;
    }
    InsertAllAgreeing(dest, ls, k, v);
  }

  /** When joined paths collide, the leaf the walk visits last is the one kept. */
  lemma FlattenedLaterWins(src: Fields, path: seq<string>, dest: map<string, Value>, j: nat)
    requires j < |Leaves(src, path)|
    requires forall j' :: j < j' < |Leaves(src, path)| ==> FlatKey(Leaves(src, path)[j']) != FlatKey(Leaves(src, path)[j])
    ensures FlatKey(Leaves(src, path)[j]) in Flattened(src, path, dest)
    ensures Flattened(src, path, dest)[FlatKey(Leaves(src, path)[j])] == Leaves(src, path)[j].1
  {
    FlattenedIsInsertAll(src, path, dest);
    InsertAllLaterWins(dest, Leaves(src, path), j);
  }

  /** Empty objects and arrays, however deeply nested, add nothing. */
  lemma FlattenedWithoutScalars(src: Fields, path: seq<string>, dest: map<string, Value>)
    requires forall j :: 0 <= j < |src| ==> HoldsNoScalar(src[j].1)
    ensures Flattened(src, path, dest) == dest
  {
    NoLeaves(src, path);
    FlattenedIsInsertAll(src, path, dest);
  }

  lemma {:induction false} NoLeaves(src: Fields, path: seq<string>)
    requires forall j :: 0 <= j < |src| ==> HoldsNoScalar(src[j].1)
    ensures Leaves(src, path) == []
    decreases SizeFields(src), 1
  {
    if src != [] {
      var init := src[..|src| - 1];
      var (key, value) := src[|src| - 1];
      assert SizeFields(src) == SizeFields(init) + Size(value);
      assert forall j :: 0 <= j < |init| ==> init[j] == src[j];
      NoLeaves(init, path);
      NoEntryLeaves(key, value, path);
    }
  }

  lemma {:induction false} NoEntryLeaves(key: string, value: Value, path: seq<string>)
    requires HoldsNoScalar(value)
    ensures EntryLeaves(key, value, path) == []
    decreases Size(value), 0
  {
    if value.Array? {
      NoItemLeaves(value.items, path + [key]);
    } else if value.Object? {
      NoLeaves(value.fields, path + [key]);
    }
  }

  lemma {:induction false} NoItemLeaves(a: seq<Value>, path: seq<string>)
    requires forall i :: 0 <= i < |a| ==> HoldsNoScalar(a[i])
    ensures ItemLeaves(a, path) == []
    decreases SizeItems(a), 1
  {
    if a != [] {
      var init := a[..|a| - 1];
      assert forall i :: 0 <= i < |init| ==> init[i] == a[i];
      NoItemLeaves(init, path);
      NoEntryLeaves(NatToDecimal(|a| - 1), a[|a| - 1], path);
    }
  }

  /** Array element `i` is reached through the segment `NatToDecimal(i)` and through no other. */
  lemma ReachesElement(a: seq<Value>, i: nat, t: seq<string>, v: Value)
    ensures Reaches(Array(a), [NatToDecimal(i)] + t, v) <==> i < |a| && Reaches(a[i], t, v)
  {
    var s := [NatToDecimal(i)] + t;
    assert s[0] == NatToDecimal(i) && s[1..] == t;
    if Reaches(Array(a), s, v) {
      var i' :| 0 <= i' < |a| && NatToDecimal(i') == s[0] && Reaches(a[i'], s[1..], v);
      NatToDecimalInjective(i', i);
    }
  }

  // ---------------------------------------------------------------------------
  // to_dot

  /** Every value of the result is a scalar. */
  lemma DotMapScalars(src: Fields)
    ensures forall k :: k in DotMap(src) ==> IsScalar(DotMap(src)[k])
  {
    FlattenedInsertsOnlyScalars(src, [], map[]);
  }

  /** The keys of the result are exactly the joined paths of the reachable scalars. */
  lemma DotMapKeys(src: Fields)
    ensures forall k :: k in DotMap(src) <==> exists s, v :: ReachesLeaf(src, s, v) && Join(s, Separator) == k
  {
    var ls := Leaves(src, []);
    FlattenedIsInsertAll(src, [], map[]);
    InsertAllKeys(map[], ls);
    forall k | k in DotMap(src) ensures exists s, v :: ReachesLeaf(src, s, v) && Join(s, Separator) == k {
      var j :| 0 <= j < |ls| && FlatKey(ls[j]) == k;
      LeavesSound(src, [], ls[j]);
      assert ls[j].0[0..] == ls[j].0;
    }
    forall k | exists s, v :: ReachesLeaf(src, s, v) && Join(s, Separator) == k ensures k in DotMap(src) {
      var s, v :| ReachesLeaf(src, s, v) && Join(s, Separator) == k;
      LeavesComplete(src, [], s, v);
      assert [] + s == s;
      var j :| 0 <= j < |ls| && ls[j] == (s, v);
      assert FlatKey(ls[j]) == k;
    }
  }

  /**
    Without collisions, the result has one entry per scalar leaf, and each
    scalar sits under its joined path.
   */
  lemma DotMapOnePerLeaf(src: Fields)
    requires NoCollisions(Leaves(src, []))
    ensures |DotMap(src)| == |Leaves(src, [])|
    ensures forall s, v :: ReachesLeaf(src, s, v) ==> Join(s, Separator) in DotMap(src) && DotMap(src)[Join(s, Separator)] == v
  {
    var ls := Leaves(src, []);
    FlattenedIsInsertAll(src, [], map[]);
    InsertAllCount(ls);
    forall s, v | ReachesLeaf(src, s, v) ensures Join(s, Separator) in DotMap(src) && DotMap(src)[Join(s, Separator)] == v {
      LeavesComplete(src, [], s, v);
      assert [] + s == s;
      var j :| 0 <= j < |ls| && ls[j] == (s, v);
      forall j' | j < j' < |ls| ensures FlatKey(ls[j']) != FlatKey(ls[j]) {
      }
      InsertAllLaterWins(map[], ls, j);
    }
  }

  /**
    Collisions need a key containing '.' or an object with a repeated key:
    a serde_json map whose keys avoid '.' flattens without collisions.
   */
  lemma DotMapNoCollisions(src: Fields)
    requires WellFormed(Object(src)) && KeysAvoid(Object(src), Separator)
    ensures NoCollisions(Leaves(src, []))
  {
    var ls := Leaves(src, []);
    LeavesDistinct(src, []);
    forall i, j | 0 <= i < j < |ls| ensures FlatKey(ls[i]) != FlatKey(ls[j]) {
      LeavesSound(src, [], ls[i]);
      LeavesSound(src, [], ls[j]);
      assert ls[i].0[0..] == ls[i].0 && ls[j].0[0..] == ls[j].0;
      SegmentsAvoid(Object(src), ls[i].0, ls[i].1);
      SegmentsAvoid(Object(src), ls[j].0, ls[j].1);
      if FlatKey(ls[i]) == FlatKey(ls[j]) {
        JoinInjective(ls[i].0, ls[j].0, Separator);
      }
    }
  }

  /** Every segment of a path into a tree whose keys avoid `c` avoids `c`. */
  lemma {:induction false} SegmentsAvoid(v: Value, s: seq<string>, leaf: Value)
    requires Reaches(v, s, leaf) && KeysAvoid(v, Separator)
    ensures forall j :: 0 <= j < |s| ==> Avoids(s[j], Separator)
    decreases |s|
  {
    if s != [] {
      match v
      case Object(fs) =>
        var j :| 0 <= j < |fs| && fs[j].0 == s[0] && Reaches(fs[j].1, s[1..], leaf);
        SegmentsAvoid(fs[j].1, s[1..], leaf);
        assert forall k :: 1 <= k < |s| ==> s[k] == s[1..][k - 1];
      case Array(a) =>
        var i :| 0 <= i < |a| && NatToDecimal(i) == s[0] && Reaches(a[i], s[1..], leaf);
        SegmentsAvoid(a[i], s[1..], leaf);
        assert forall k :: 1 <= k < |s| ==> s[k] == s[1..][k - 1];
    }
  }

  /** No two leaves of a list share a path. */
  ghost predicate PathsDistinct(ls: seq<Leaf>) {
    forall i, j :: 0 <= i < j < |ls| ==> ls[i].0 != ls[j].0
  }

  lemma ConcatDistinct(xs: seq<Leaf>, ys: seq<Leaf>)
    requires PathsDistinct(xs) && PathsDistinct(ys)
    requires forall x, y :: x in xs && y in ys ==> x.0 != y.0
    ensures PathsDistinct(xs + ys)
  {
  }

  /** Distinct keys in every object mean distinct paths for all leaves. */
  lemma {:induction false} LeavesDistinct(src: Fields, path: seq<string>)
    requires WellFormed(Object(src))
    ensures PathsDistinct(Leaves(src, path))
    decreases SizeFields(src), 1
  {
    if src != [] {
      var n := |src|;
      var init := src[..n - 1];
      var (key, value) := src[n - 1];
      assert SizeFields(src) == SizeFields(init) + Size(value);
      assert forall j :: 0 <= j < |init| ==> init[j] == src[j];
      LeavesDistinct(init, path);
      EntryLeavesDistinct(key, value, path);
      forall x, y | x in Leaves(init, path) && y in EntryLeaves(key, value, path) ensures x.0 != y.0 {
        LeavesSound(init, path, x);
        EntryLeavesSound(key, value, path, y);
        var s := x.0[|path|..];
        var j :| 0 <= j < |init| && init[j].0 == s[0] && Reaches(init[j].1, s[1..], x.1);
        assert x.0[|path|] == init[j].0 != key == y.0[|path|];
      }
      ConcatDistinct(Leaves(init, path), EntryLeaves(key, value, path));
    }
  }

  lemma {:induction false} EntryLeavesDistinct(key: string, value: Value, path: seq<string>)
    requires WellFormed(value)
    ensures PathsDistinct(EntryLeaves(key, value, path))
    decreases Size(value), 0
  {
    match value
    case Array(a) => ItemLeavesDistinct(a, path + [key]);
    case Object(fs) => LeavesDistinct(fs, path + [key]);
    case _ =>
  }

  lemma {:induction false} ItemLeavesDistinct(a: seq<Value>, path: seq<string>)
    requires forall i :: 0 <= i < |a| ==> WellFormed(a[i])
    ensures PathsDistinct(ItemLeaves(a, path))
    decreases SizeItems(a), 1
  {
    if a != [] {
      var n := |a|;
      var init := a[..n - 1];
      var key := NatToDecimal(n - 1);
      assert forall i :: 0 <= i < |init| ==> init[i] == a[i];
      ItemLeavesDistinct(init, path);
      EntryLeavesDistinct(key, a[n - 1], path);
      forall x, y | x in ItemLeaves(init, path) && y in EntryLeaves(key, a[n - 1], path) ensures x.0 != y.0 {
        ItemLeavesSound(init, path, x);
        EntryLeavesSound(key, a[n - 1], path, y);
        var s := x.0[|path|..];
        var i :| 0 <= i < |init| && NatToDecimal(i) == s[0] && Reaches(init[i], s[1..], x.1);
        if x.0[|path|] == key {
          NatToDecimalInjective(i, n - 1);
        }
        assert x.0[|path|] != y.0[|path|];
      }
      ConcatDistinct(ItemLeaves(init, path), EntryLeaves(key, a[n - 1], path));
    }
  }

  /** So a well-formed map whose keys avoid '.' has exactly one entry per scalar leaf. */
  lemma DotMapExact(src: Fields)
    requires WellFormed(Object(src)) && KeysAvoid(Object(src), Separator)
    ensures |DotMap(src)| == |Leaves(src, [])|
    ensures forall s, v :: ReachesLeaf(src, s, v) ==> Join(s, Separator) in DotMap(src) && DotMap(src)[Join(s, Separator)] == v
  {
    DotMapNoCollisions(src);
    DotMapOnePerLeaf(src);
  }

  /** `fs` lists the entries of `m`, in any order and possibly with repeats. */
  ghost predicate Lists(fs: Fields, m: map<string, Value>) {
    && (forall j :: 0 <= j < |fs| ==> fs[j].0 in m && m[fs[j].0] == fs[j].1)
    && (forall k :: k in m ==> k in Keys(fs))
  }

  /** A map whose values are all scalars has one leaf per pair, just below the path. */
  lemma {:induction false} ScalarFieldsLeaves(fs: Fields, path: seq<string>)
    requires forall j :: 0 <= j < |fs| ==> IsScalar(fs[j].1)
    ensures |Leaves(fs, path)| == |fs|
    ensures forall j :: 0 <= j < |fs| ==> Leaves(fs, path)[j] == (path + [fs[j].0], fs[j].1)
  {
    if fs != [] {
      var init := fs[..|fs| - 1];
      assert forall j :: 0 <= j < |init| ==> init[j] == fs[j];
      ScalarFieldsLeaves(init, path);
    }
  }

  /** Flattening the output of `to_dot` again, listed in any order, gives it back unchanged. */
  lemma ReflattenIsIdentity(src: Fields, fs: Fields)
    requires Lists(fs, DotMap(src))
    ensures DotMap(fs) == DotMap(src)
  {
    DotMapScalars(src);
    ReflattenScalars(fs, DotMap(src));
  }

  /** Any map of scalars is what `to_dot` makes of a listing of it. */
  lemma ReflattenScalars(fs: Fields, r: map<string, Value>)
    requires Lists(fs, r)
    requires forall k :: k in r ==> IsScalar(r[k])
    ensures DotMap(fs) == r
  {
    ScalarFieldsLeaves(fs, []);
    var ls := Leaves(fs, []);
    forall j | 0 <= j < |fs|
      ensures FlatKey(ls[j]) == fs[j].0 && ls[j].1 == r[fs[j].0]
    {
      assert ls[j].0 == [fs[j].0];
    }
    assert FlatKeys(ls) == r.Keys by {
      forall k | k in r ensures k in FlatKeys(ls) {
        var j :| 0 <= j < |fs| && fs[j].0 == k;
        assert FlatKey(ls[j]) == k;
      }
    }
    FlattenedIsInsertAll(fs, [], map[]);
    var d := InsertAll(map[], ls);
    InsertAllKeys(map[], ls);
    forall k | k in r ensures d[k] == r[k] {
      InsertAllAgreeing(map[], ls, k, r[k]);
    }
    assert d == r;
  }
}
