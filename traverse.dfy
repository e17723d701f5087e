/**
  `traverse_dot` of src/lib.rs: walk a JSON map and insert every scalar leaf
  into a flat destination map under its path joined with '.'.

  `Flattened` states, as a function, what one call of `traverse_dot` leaves in
  `dest`; the method `TraverseDot` follows the Rust loops and is proved to
  compute it.
 */
module Traverse {
  import opened Json
  import opened Decimal
  import opened Paths

  /** The separator `traverse_dot` joins paths with. */
  const Separator: char := '.'

  /**
    The temporary map built for an array: element `i` under the key
    `NatToDecimal(i)`, in element order.
   */
  function IndexFields(a: seq<Value>): (m: Fields)
    ensures |m| == |a|
    ensures forall i :: 0 <= i < |a| ==> m[i] == (NatToDecimal(i), a[i])
  {
    if a == [] then [] else IndexFields(a[..|a| - 1]) + [(NatToDecimal(|a| - 1), a[|a| - 1])]
  }

  /** The index map holds exactly the keys "0", …, "n-1". */
  lemma IndexKeys(a: seq<Value>, n: nat)
    ensures NatToDecimal(n) in Keys(IndexFields(a)) <==> n < |a|
  {
    var m := IndexFields(a);
    if n < |a| {
      assert m[n].0 == NatToDecimal(n);
    } else if NatToDecimal(n) in Keys(m) {
      var j :| 0 <= j < |m| && m[j].0 == NatToDecimal(n);
      NatToDecimalInjective(j, n);
    }
  }

  lemma {:induction false} SizeIndexFields(a: seq<Value>)
    ensures SizeFields(IndexFields(a)) == SizeItems(a)
  {
    if a != [] {
      var m := IndexFields(a);
      SizeIndexFields(a[..|a| - 1]);
      assert m[..|m| - 1] == IndexFields(a[..|a| - 1]);
    }
  }

  /** What `traverse_dot(src, dest, path)` leaves in `dest`. */
  function Flattened(src: Fields, path: seq<string>, dest: map<string, Value>): map<string, Value>
    decreases SizeFields(src), 1
  {
    if src == [] then dest
    else
      var (key, value) := src[|src| - 1];
      assert SizeFields(src) == SizeFields(src[..|src| - 1]) + Size(value);
      FlattenedEntry(key, value, path, Flattened(src[..|src| - 1], path, dest))
  }

  /** One iteration of the loop of `traverse_dot`, for the pair `(key, value)`. */
  function FlattenedEntry(key: string, value: Value, path: seq<string>, dest: map<string, Value>): map<string, Value>
    decreases Size(value), 0
  {
    var p := path + [key];
    match value
    case Array(a) =>
      SizeIndexFields(a);
      Flattened(IndexFields(a), p, dest)
    case Object(fs) => Flattened(fs, p, dest)
    case _ => dest[Join(p, Separator) := value]
  }

  /** `traverse_dot`: `dest` is passed in and the filled map handed back. */
  method TraverseDot(src: Fields, dest: map<string, Value>, incPath: seq<string>) returns (out: map<string, Value>)
    ensures out == Flattened(src, incPath, dest)
    decreases SizeFields(src)
  {
    out := dest;
    for i := 0 to |src|
      invariant out == Flattened(src[..i], incPath, dest)
    {
      var (key, value) := src[i];
      var path := incPath + [key];
      match value {
        case Array(a) =>
          var m: Fields := [];
          var cnt := 0;
          while cnt < |a|
            invariant cnt <= |a|
            invariant m == IndexFields(a[..cnt])
          {
            IndexKeys(a[..cnt], cnt);
            m := Insert(m, NatToDecimal(cnt), a[cnt]);
            cnt := cnt + 1;
            assert a[..cnt][..cnt - 1] == a[..cnt - 1];
          }
          assert a[..cnt] == a;
          SizeIndexFields(a);
          SizeFieldsAt(src, i);
          out := TraverseDot(m, out, path);
        case Object(fs) =>
          SizeFieldsAt(src, i);
          out := TraverseDot(fs, out, path);
        case Null =>
          out := out[Join(path, Separator) := Null];
        case Str(s) =>
          out := out[Join(path, Separator) := Str(s)];
        case Number(n) =>
          out := out[Join(path, Separator) := Number(n)];
        case Bool(b) =>
          out := out[Join(path, Separator) := Bool(b)];
      }
      assert src[..i + 1][..i] == src[..i];
    }
    assert src[..|src|] == src;
  }
}
