/**
  The JSON tree that the flattener consumes: serde_json's `Value` and `Map`.
  A `Map` is seen through its iteration order, as a sequence of key/value
  pairs; numbers are opaque integers, because the flattener only copies them.
 */
module Json {

  datatype Option<T> = None | Some(value: T)

  datatype Value =
    | Null
    | Bool(b: bool)
    | Number(n: int)
    | Str(s: string)
    | Array(items: seq<Value>)
    | Object(fields: Fields)

  /** A serde_json `Map<String, Value>` in its iteration order. */
  type Fields = seq<(string, Value)>

  /** The four variants the flattener copies into its result. */
  predicate IsScalar(v: Value) {
    !v.Array? && !v.Object?
  }

  /** Every object at any depth has distinct keys, as a serde_json `Map` has. */
  ghost predicate WellFormed(v: Value) {
    match v
    case Array(a) => forall i :: 0 <= i < |a| ==> WellFormed(a[i])
    case Object(fs) => DistinctKeys(fs) && forall j :: 0 <= j < |fs| ==> WellFormed(fs[j].1)
    case _ => true
  }

  ghost predicate DistinctKeys(fs: Fields) {
    forall i, j :: 0 <= i < j < |fs| ==> fs[i].0 != fs[j].0
  }

  /** No object key at any depth contains the character `c`. */
  ghost predicate KeysAvoid(v: Value, c: char) {
    match v
    case Array(a) => forall i :: 0 <= i < |a| ==> KeysAvoid(a[i], c)
    case Object(fs) => forall j :: 0 <= j < |fs| ==> c !in fs[j].0 && KeysAvoid(fs[j].1, c)
    case _ => true
  }

  /** A container whose subtrees hold no scalar at all, such as `[[[]]]`. */
  ghost predicate HoldsNoScalar(v: Value) {
    match v
    case Array(a) => forall i :: 0 <= i < |a| ==> HoldsNoScalar(a[i])
    case Object(fs) => forall j :: 0 <= j < |fs| ==> HoldsNoScalar(fs[j].1)
    case _ => false
  }

  /** Number of nodes of a tree: the termination measure of every walk. */
  function Size(v: Value): (n: nat)
    ensures n >= 1
  {
    match v
    case Array(a) => 1 + SizeItems(a)
    case Object(fs) => 1 + SizeFields(fs)
    case _ => 1
  }

  function SizeItems(a: seq<Value>): nat {
    if a == [] then 0 else SizeItems(a[..|a| - 1]) + Size(a[|a| - 1])
  }

  function SizeFields(fs: Fields): nat {
    if fs == [] then 0 else SizeFields(fs[..|fs| - 1]) + SizeOfField(fs[|fs| - 1])
  }

  // A separate step through the pair, so that Dafny sees the value as
  // smaller than the pair and the pair as smaller than the sequence.
  function SizeOfField(field: (string, Value)): nat {
    Size(field.1)
  }

  lemma {:induction false} SizeFieldsAt(fs: Fields, i: nat)
    requires i < |fs|
    ensures Size(fs[i].1) <= SizeFields(fs)
  {
    if i < |fs| - 1 {
      SizeFieldsAt(fs[..|fs| - 1], i);
    }
  }

  /** The keys of a map. */
  function Keys(m: Fields): set<string> {
    set j | 0 <= j < |m| :: m[j].0
  }

  /** Map lookup; with duplicate keys the later pair is the one found. */
  function Get(m: Fields, k: string): (r: Option<Value>)
    ensures r.Some? <==> k in Keys(m)
  {
    if m == [] then None
    else if m[|m| - 1].0 == k then Some(m[|m| - 1].1)
    else
      assert forall j :: 0 <= j < |m| - 1 ==> m[..|m| - 1][j] == m[j];
      Get(m[..|m| - 1], k)
  }

  /**
    `Map::insert`: a key already present keeps its position and takes the new
    value, a new key is appended at the end.
   */
  function Insert(m: Fields, k: string, v: Value): (r: Fields)
    ensures Keys(r) == Keys(m) + {k}
    ensures k !in Keys(m) ==> r == m + [(k, v)]
    ensures k in Keys(m) ==> |r| == |m|
  {
    if k in Keys(m) then
      var r := seq(|m|, j requires 0 <= j < |m| => if m[j].0 == k then (k, v) else m[j]);
      assert forall j :: 0 <= j < |m| ==> r[j].0 == m[j].0;
      r
    else
      var r := m + [(k, v)];
      assert r[|m|].0 == k;
      assert forall j :: 0 <= j < |m| ==> r[j] == m[j];
      r
  }

  /** After an insert, the key finds the new value and every other key what it found before. */
  lemma {:induction false} GetInsert(m: Fields, k: string, v: Value, k': string)
    ensures Get(Insert(m, k, v), k') == if k' == k then Some(v) else Get(m, k')
  {
    if k !in Keys(m) {
      var r := m + [(k, v)];
      assert r[..|r| - 1] == m;
    } else {
      GetReplaced(m, k, v, k');
    }
  }

  lemma {:induction false} GetReplaced(m: Fields, k: string, v: Value, k': string)
    requires k in Keys(m)
    ensures Get(Insert(m, k, v), k') == if k' == k then Some(v) else Get(m, k')
  {
    var r := Insert(m, k, v);
    var n := |m|;
    assert r[n - 1] == if m[n - 1].0 == k then (k, v) else m[n - 1];
    if m[n - 1].0 != k {
      var m' := m[..n - 1];
      assert k in Keys(m') by {
        var j :| 0 <= j < n && m[j].0 == k;
        assert m'[j] == m[j];
      }
      assert r[..n - 1] == Insert(m', k, v);
      GetReplaced(m', k, v, k');
    } else if k' != k {
      var m' := m[..n - 1];
      if k in Keys(m') {
        assert r[..n - 1] == Insert(m', k, v);
        GetReplaced(m', k, v, k');
      } else {
        assert r[..n - 1] == m';
      }
    }
  }
}
