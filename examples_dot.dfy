/** Concrete instances of `to_dot`, among them the doc-test of src/lib.rs. */
module Scenarios {
  import opened Json
  import opened Paths
  import opened Traverse
  import opened Flatten

  /** `{"foo": "Lorem ipsum", "bar": [null, 123, true], "baz": {"qux": 789}}` */
  function DocInput(): Fields {
    [("foo", Str("Lorem ipsum")),
     ("bar", Array([Null, Number(123), Bool(true)])),
     ("baz", Object([("qux", Number(789))]))]
  }

  lemma DocTest()
    ensures DotMap(DocInput()) == map[
      "foo" := Str("Lorem ipsum"),
      "bar.0" := Null,
      "bar.1" := Number(123),
      "bar.2" := Bool(true),
      "baz.qux" := Number(789)]
    ensures |DotMap(DocInput())| == 5
  {
    var src := DocInput();
    var d2 := DocPrefix();
    assert src[..3] == src;
    DocBaz(d2);
    assert [] + ["baz"] == ["baz"];
    assert DotMap(src) == d2["baz.qux" := Number(789)];
  }

  /** The first two pairs of the doc-test input, "foo" and "bar". */
  lemma DocPrefix() returns (d2: map<string, Value>)
    ensures d2 == map["foo" := Str("Lorem ipsum")]["bar.0" := Null]["bar.1" := Number(123)]["bar.2" := Bool(true)]
    ensures Flattened(DocInput()[..2], [], map[]) == d2
  {
    var src := DocInput();
    var d1 := map["foo" := Str("Lorem ipsum")];
    assert src[..1][..0] == [];
    assert Flattened(src[..1], [], map[]) == d1;
    DocBar(d1);
    assert [] + ["bar"] == ["bar"];
    assert src[..2][..1] == src[..1];
    d2 := d1["bar.0" := Null]["bar.1" := Number(123)]["bar.2" := Bool(true)];
  }

  /** The array `[null, 123, true]` under the key "bar". */
  lemma DocBar(d: map<string, Value>)
    ensures Flattened(IndexFields([Null, Number(123), Bool(true)]), ["bar"], d)
      == d["bar.0" := Null]["bar.1" := Number(123)]["bar.2" := Bool(true)]
  {
    var m := IndexFields([Null, Number(123), Bool(true)]);
    assert m == [("0", Null), ("1", Number(123)), ("2", Bool(true))];
    assert m[..2][..1][..0] == [];
    assert Join(["bar", "0"], Separator) == "bar.0";
    assert Join(["bar", "1"], Separator) == "bar.1";
    assert Join(["bar", "2"], Separator) == "bar.2";
    assert Flattened(m[..1], ["bar"], d) == d["bar.0" := Null];
    assert Flattened(m[..2], ["bar"], d) == d["bar.0" := Null]["bar.1" := Number(123)];
  }

  /** The object `{"qux": 789}` under the key "baz". */
  lemma DocBaz(d: map<string, Value>)
    ensures Flattened([("qux", Number(789))], ["baz"], d) == d["baz.qux" := Number(789)]
  {
    var q := [("qux", Number(789))];
    assert q[..0] == [];
    assert Join(["baz", "qux"], Separator) == "baz.qux";
  }

  /**
    `{"a.b": 1, "a": {"b": 2}}` with its pairs visited in the listed order (as
    serde_json's `preserve_order` feature iterates): both leaves join to
    "a.b", and the one visited later is kept.
   */
  lemma CollisionLaterWins()
    ensures DotMap([("a.b", Number(1)), ("a", Object([("b", Number(2))]))]) == map["a.b" := Number(2)]
  {
    var src := [("a.b", Number(1)), ("a", Object([("b", Number(2))]))];
    var inner := [("b", Number(2))];
    assert src[..1][..0] == [] && inner[..0] == [];
    assert src[..1] == [("a.b", Number(1))];
    assert Flattened(src[..1], [], map[]) == map["a.b" := Number(1)];
    assert Join(["a", "b"], Separator) == "a.b";
    assert [] + ["a"] == ["a"];
    assert Flattened(inner, ["a"], map["a.b" := Number(1)]) == map["a.b" := Number(2)];
  }

  /** `{"x": [[[]]], "y": {}}`: nested empty containers leave nothing behind. */
  lemma NestedEmptiesVanish()
    ensures DotMap([("x", Array([Array([Array([])])])), ("y", Object([]))]) == map[]
  {
    var src := [("x", Array([Array([Array([])])])), ("y", Object([]))];
    assert HoldsNoScalar(Array([Array([])]));
    assert HoldsNoScalar(src[0].1) && HoldsNoScalar(src[1].1);
    FlattenedWithoutScalars(src, [], map[]);
  }

  /**
    The same object as serde_json iterates it under its default features,
    keys sorted: "a" comes before "a.b", so the value 1 is visited later and kept.
   */
  lemma CollisionSortedOrder()
    ensures DotMap([("a", Object([("b", Number(2))])), ("a.b", Number(1))]) == map["a.b" := Number(1)]
  {
    var src := [("a", Object([("b", Number(2))])), ("a.b", Number(1))];
    var inner := [("b", Number(2))];
    assert src[..1][..0] == [] && inner[..0] == [];
    assert src[..1] == [("a", Object(inner))];
    assert Join(["a", "b"], Separator) == "a.b";
    assert [] + ["a"] == ["a"];
    assert Flattened(inner, ["a"], map[]) == map["a.b" := Number(2)];
    assert Flattened(src[..1], [], map[]) == map["a.b" := Number(2)];
  }
}
