/**
  An independent description of what `traverse_dot` produces: the list of
  scalar leaves of a tree, each with its path, in the order the walk meets
  them (array elements taken directly, without the temporary index map), and
  `InsertAll`, which puts such a list into a map one leaf after the other.
  `ReachesLeaf` says, without any walk, which scalar sits at which path.
 */
module Reference {
  import opened Json
  import opened Decimal
  import opened Paths
  import opened Traverse

  /** A scalar leaf with the full path that leads to it. */
  type Leaf = (seq<string>, Value)

  /** Following the segments `s` from `v` can end at `leaf`. */
  ghost predicate Reaches(v: Value, s: seq<string>, leaf: Value)
    decreases |s|
  {
    if s == [] then leaf == v
    else match v
      case Object(fs) => exists j :: 0 <= j < |fs| && fs[j].0 == s[0] && Reaches(fs[j].1, s[1..], leaf)
      case Array(a) => exists i :: 0 <= i < |a| && NatToDecimal(i) == s[0] && Reaches(a[i], s[1..], leaf)
      case _ => false
  }

  /** `leaf` is a scalar found at path `s` below the map `src`. */
  ghost predicate ReachesLeaf(src: Fields, s: seq<string>, leaf: Value) {
    Reaches(Object(src), s, leaf) && IsScalar(leaf)
  }

  /** The leaves below the pairs of `src`, each path prefixed by `path`. */
  function Leaves(src: Fields, path: seq<string>): seq<Leaf>
    decreases SizeFields(src), 1
  {
    if src == [] then []
    else
      var (key, value) := src[|src| - 1];
      assert SizeFields(src) == SizeFields(src[..|src| - 1]) + Size(value);
      Leaves(src[..|src| - 1], path) + EntryLeaves(key, value, path)
  }

  function EntryLeaves(key: string, value: Value, path: seq<string>): seq<Leaf>
    decreases Size(value), 0
  {
    var p := path + [key];
    match value
    case Array(a) => ItemLeaves(a, p)
    case Object(fs) => Leaves(fs, p)
    case _ => [(p, value)]
  }

  /** The leaves below array elements; element `i` under the segment `NatToDecimal(i)`. */
  function ItemLeaves(a: seq<Value>, path: seq<string>): seq<Leaf>
    decreases SizeItems(a), 1
  {
    if a == [] then []
    else ItemLeaves(a[..|a| - 1], path) + EntryLeaves(NatToDecimal(|a| - 1), a[|a| - 1], path)
  }

  /** The flat key of a leaf. */
  function FlatKey(l: Leaf): string {
    Join(l.0, Separator)
  }

  function FlatKeys(ls: seq<Leaf>): set<string> {
    set j | 0 <= j < |ls| :: FlatKey(ls[j])
  }

  /** No two leaves share a flat key. */
  ghost predicate NoCollisions(ls: seq<Leaf>) {
    forall i, j :: 0 <= i < j < |ls| ==> FlatKey(ls[i]) != FlatKey(ls[j])
  }

  /** Inserting the leaves into `dest` in list order, each under its flat key. */
  function InsertAll(dest: map<string, Value>, ls: seq<Leaf>): map<string, Value> {
    if ls == [] then dest
    else InsertAll(dest, ls[..|ls| - 1])[FlatKey(ls[|ls| - 1]) := ls[|ls| - 1].1]
  }

  // ---------------------------------------------------------------------------
  // InsertAll

  lemma {:induction false} InsertAllAppend(dest: map<string, Value>, xs: seq<Leaf>, ys: seq<Leaf>)
    ensures InsertAll(dest, xs + ys) == InsertAll(InsertAll(dest, xs), ys)
  {
    if ys != [] {
      InsertAllAppend(dest, xs, ys[..|ys| - 1]);
      assert (xs + ys)[..|xs + ys| - 1] == xs + ys[..|ys| - 1];
    } else {
      assert xs + ys == xs;
    }
  }

  /** The keys of the result are those of `dest` and the flat keys of the leaves. */
  lemma {:induction false} InsertAllKeys(dest: map<string, Value>, ls: seq<Leaf>)
    ensures InsertAll(dest, ls).Keys == dest.Keys + FlatKeys(ls)
  {
    if ls != [] {
      var init := ls[..|ls| - 1];
      InsertAllKeys(dest, init);
      assert FlatKeys(ls) == FlatKeys(init) + {FlatKey(ls[|ls| - 1])} by {
        forall k | k in FlatKeys(ls) ensures k in FlatKeys(init) + {FlatKey(ls[|ls| - 1])} {
          var j :| 0 <= j < |ls| && FlatKey(ls[j]) == k;
          if j < |ls| - 1 { assert init[j] == ls[j]; }
        }
        forall k | k in FlatKeys(init) ensures k in FlatKeys(ls) {
          var j :| 0 <= j < |init| && FlatKey(init[j]) == k;
          assert ls[j] == init[j];
        }
      }
    }
  }

  /** A key no leaf produces keeps what `dest` had. */
  lemma {:induction false} InsertAllOther(dest: map<string, Value>, ls: seq<Leaf>, k: string)
    requires k !in FlatKeys(ls)
    ensures (k in InsertAll(dest, ls)) == (k in dest)
    ensures k in dest ==> InsertAll(dest, ls)[k] == dest[k]
  {
    if ls != [] {
      var init := ls[..|ls| - 1];
      assert k != FlatKey(ls[|ls| - 1]);
      assert forall j :: 0 <= j < |init| ==> init[j] == ls[j];
      InsertAllOther(dest, init, k);
    }
  }

  /** The leaf visited last among those with a given flat key is the one kept. */
  lemma {:induction false} InsertAllLaterWins(dest: map<string, Value>, ls: seq<Leaf>, j: nat)
    requires j < |ls|
    requires forall j' :: j < j' < |ls| ==> FlatKey(ls[j']) != FlatKey(ls[j])
    ensures FlatKey(ls[j]) in InsertAll(dest, ls)
    ensures InsertAll(dest, ls)[FlatKey(ls[j])] == ls[j].1
  {
    if j < |ls| - 1 {
      var init := ls[..|ls| - 1];
      assert init[j] == ls[j];
      InsertAllLaterWins(dest, init, j);
    }
  }

  /** If every leaf with flat key `k` carries `v`, then `k` ends up holding `v`. */
  lemma {:induction false} InsertAllAgreeing(dest: map<string, Value>, ls: seq<Leaf>, k: string, v: Value)
    requires k in FlatKeys(ls)
    requires forall j :: 0 <= j < |ls| && FlatKey(ls[j]) == k ==> ls[j].1 == v
    ensures k in InsertAll(dest, ls) && InsertAll(dest, ls)[k] == v
  {
    var n := |ls|;
    if FlatKey(ls[n - 1]) != k {
      var init := ls[..n - 1];
      var j :| 0 <= j < n && FlatKey(ls[j]) == k;
      assert init[j] == ls[j];
      assert forall j' :: 0 <= j' < n - 1 ==> init[j'] == ls[j'];
      InsertAllAgreeing(dest, init, k, v);
    }
  }

  /** Only the leaves' values are ever added: every other entry is one of `dest`'s. */
  lemma {:induction false} InsertAllOnlyScalars(dest: map<string, Value>, ls: seq<Leaf>)
    requires forall j :: 0 <= j < |ls| ==> IsScalar(ls[j].1)
    ensures forall k :: k in InsertAll(dest, ls) ==>
      IsScalar(InsertAll(dest, ls)[k]) || (k in dest && InsertAll(dest, ls)[k] == dest[k])
  {
    if ls != [] {
      var init := ls[..|ls| - 1];
      assert forall j :: 0 <= j < |init| ==> init[j] == ls[j];
      InsertAllOnlyScalars(dest, init);
    }
  }

  /** Without collisions, each leaf adds one new entry. */
  lemma {:induction false} InsertAllCount(ls: seq<Leaf>)
    requires NoCollisions(ls)
    ensures |InsertAll(map[], ls)| == |ls|
  {
    if ls != [] {
      var init := ls[..|ls| - 1];
      var last := FlatKey(ls[|ls| - 1]);
      assert NoCollisions(init) by {
        forall i, j | 0 <= i < j < |init| ensures FlatKey(init[i]) != FlatKey(init[j]) {
          assert init[i] == ls[i] && init[j] == ls[j];
        }
      }
      InsertAllCount(init);
      assert forall j :: 0 <= j < |init| ==> init[j] == ls[j];
      InsertAllOther(map[], init, last);
    }
  }

  // ---------------------------------------------------------------------------
  // The walk of `traverse_dot` inserts exactly the leaves, in order

  /** Reinterpreting an array as its index map does not change its leaves. */
  lemma {:induction false} LeavesOfIndexFields(a: seq<Value>, path: seq<string>)
    ensures Leaves(IndexFields(a), path) == ItemLeaves(a, path)
  {
    if a != [] {
      var m := IndexFields(a);
      assert m[..|m| - 1] == IndexFields(a[..|a| - 1]);
      LeavesOfIndexFields(a[..|a| - 1], path);
    }
  }

  lemma {:induction false} FlattenedIsInsertAll(src: Fields, path: seq<string>, dest: map<string, Value>)
    ensures Flattened(src, path, dest) == InsertAll(dest, Leaves(src, path))
    decreases SizeFields(src), 1
  {
    if src != [] {
      var init := src[..|src| - 1];
      var (key, value) := src[|src| - 1];
      assert SizeFields(src) == SizeFields(init) + Size(value);
      FlattenedIsInsertAll(init, path, dest);
      FlattenedEntryIsInsertAll(key, value, path, Flattened(init, path, dest));
      InsertAllAppend(dest, Leaves(init, path), EntryLeaves(key, value, path));
    }
  }

  lemma {:induction false} FlattenedEntryIsInsertAll(key: string, value: Value, path: seq<string>, dest: map<string, Value>)
    ensures FlattenedEntry(key, value, path, dest) == InsertAll(dest, EntryLeaves(key, value, path))
    decreases Size(value), 0
  {
    var p := path + [key];
    match value
    case Array(a) =>
      SizeIndexFields(a);
      FlattenedIsInsertAll(IndexFields(a), p, dest);
      LeavesOfIndexFields(a, p);
    case Object(fs) =>
      FlattenedIsInsertAll(fs, p, dest);
    case _ =>
      assert [(p, value)][..0] == [];
  }

  // ---------------------------------------------------------------------------
  // The leaves are exactly the scalars reachable from the map

  /** Every leaf listed sits, below its path prefix, at a scalar reachable from `src`. */
  lemma {:induction false} LeavesSound(src: Fields, path: seq<string>, l: Leaf)
    requires l in Leaves(src, path)
    ensures |path| < |l.0| && l.0[..|path|] == path
    ensures ReachesLeaf(src, l.0[|path|..], l.1)
    decreases SizeFields(src), 1
  {
    var n := |src|;
    var init := src[..n - 1];
    var (key, value) := src[n - 1];
    assert SizeFields(src) == SizeFields(init) + Size(value);
    if l in Leaves(init, path) {
      LeavesSound(init, path, l);
      var s := l.0[|path|..];
      var j :| 0 <= j < |init| && init[j].0 == s[0] && Reaches(init[j].1, s[1..], l.1);
      assert src[j] == init[j];
    } else {
      EntryLeavesSound(key, value, path, l);
      var s := l.0[|path|..];
      assert s[0] == key && s[1..] == l.0[|path| + 1..];
      assert src[n - 1].0 == s[0] && Reaches(src[n - 1].1, s[1..], l.1);
    }
  }

  lemma {:induction false} EntryLeavesSound(key: string, value: Value, path: seq<string>, l: Leaf)
    requires l in EntryLeaves(key, value, path)
    ensures |path| < |l.0| && l.0[..|path| + 1] == path + [key]
    ensures Reaches(value, l.0[|path| + 1..], l.1) && IsScalar(l.1)
    decreases Size(value), 0
  {
    var p := path + [key];
    match value
    case Array(a) =>
      ItemLeavesSound(a, p, l);
    case Object(fs) =>
      LeavesSound(fs, p, l);
    case _ =>
      assert l == (p, value);
      assert l.0[|path| + 1..] == [];
  }

  lemma {:induction false} ItemLeavesSound(a: seq<Value>, path: seq<string>, l: Leaf)
    requires l in ItemLeaves(a, path)
    ensures |path| < |l.0| && l.0[..|path|] == path
    ensures Reaches(Array(a), l.0[|path|..], l.1) && IsScalar(l.1)
    decreases SizeItems(a), 1
  {
    var n := |a|;
    var init := a[..n - 1];
    if l in ItemLeaves(init, path) {
      ItemLeavesSound(init, path, l);
      var s := l.0[|path|..];
      var i :| 0 <= i < |init| && NatToDecimal(i) == s[0] && Reaches(init[i], s[1..], l.1);
      assert a[i] == init[i];
    } else {
      EntryLeavesSound(NatToDecimal(n - 1), a[n - 1], path, l);
      var s := l.0[|path|..];
      assert s[0] == NatToDecimal(n - 1) && s[1..] == l.0[|path| + 1..];
      assert Reaches(a[n - 1], s[1..], l.1);
    }
  }

  /** Every scalar reachable from `src` is listed, under its path. */
  lemma {:induction false} LeavesComplete(src: Fields, path: seq<string>, s: seq<string>, v: Value)
    requires ReachesLeaf(src, s, v)
    ensures (path + s, v) in Leaves(src, path)
    decreases SizeFields(src), 1
  {
    var n := |src|;
    var init := src[..n - 1];
    var (key, value) := src[n - 1];
    assert SizeFields(src) == SizeFields(init) + Size(value);
    var j :| 0 <= j < n && src[j].0 == s[0] && Reaches(src[j].1, s[1..], v);
    if j < n - 1 {
      assert init[j] == src[j];
      LeavesComplete(init, path, s, v);
    } else {
      EntryLeavesComplete(key, value, path, s[1..], v);
      assert path + [key] + s[1..] == path + s;
    }
  }

  lemma {:induction false} EntryLeavesComplete(key: string, value: Value, path: seq<string>, t: seq<string>, v: Value)
    requires Reaches(value, t, v) && IsScalar(v)
    ensures (path + [key] + t, v) in EntryLeaves(key, value, path)
    decreases Size(value), 0
  {
    var p := path + [key];
    if t == [] {
      assert p + t == p;
    } else {
      match value
      case Array(a) =>
        ItemLeavesComplete(a, p, t, v);
      case Object(fs) =>
        LeavesComplete(fs, p, t, v);
    }
  }

  lemma {:induction false} ItemLeavesComplete(a: seq<Value>, path: seq<string>, t: seq<string>, v: Value)
    requires Reaches(Array(a), t, v) && IsScalar(v)
    ensures (path + t, v) in ItemLeaves(a, path)
    decreases SizeItems(a), 1
  {
    var n := |a|;
    var init := a[..n - 1];
    var i :| 0 <= i < n && NatToDecimal(i) == t[0] && Reaches(a[i], t[1..], v);
    var last := EntryLeaves(NatToDecimal(n - 1), a[n - 1], path);
    assert ItemLeaves(a, path) == ItemLeaves(init, path) + last;
    if i < n - 1 {
      assert init[i] == a[i];
      assert Reaches(Array(init), t, v);
      ItemLeavesComplete(init, path, t, v);
    } else {
      EntryLeavesComplete(NatToDecimal(n - 1), a[n - 1], path, t[1..], v);
      assert path + [NatToDecimal(n - 1)] + t[1..] == path + t;
      assert (path + t, v) in last;
    }
  }
}
