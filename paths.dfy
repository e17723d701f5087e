/**
  Rust's `[String]::join` with a one-character separator, and the split that
  undoes it when no segment contains the separator.
 */
module Paths {

  predicate Avoids(s: string, sep: char) {
    sep !in s
  }

  /** The segments in order with `sep` between neighbours; `""` for no segments. */
  function Join(segments: seq<string>, sep: char): string {
    if segments == [] then ""
    else if |segments| == 1 then segments[0]
    else segments[0] + [sep] + Join(segments[1..], sep)
  }

  /** The pieces of `s` between occurrences of `sep` (at least one piece). */
  function Split(s: string, sep: char): (r: seq<string>)
    ensures |r| >= 1
    ensures forall j :: 0 <= j < |r| ==> Avoids(r[j], sep)
  {
    if s == [] then [""]
    else
      var rest := Split(s[1..], sep);
      if s[0] == sep then [""] + rest
      else
        var r := [[s[0]] + rest[0]] + rest[1..];
        assert forall j :: 1 <= j < |r| ==> r[j] == rest[j];
        r
  }

  lemma {:induction false} SplitAvoiding(a: string, sep: char)
    requires Avoids(a, sep)
    ensures Split(a, sep) == [a]
  {
    if a != [] {
      SplitAvoiding(a[1..], sep);
      assert [a[0]] + a[1..] == a;
    }
  }

  lemma {:induction false} SplitAfterPiece(a: string, sep: char, t: string)
    requires Avoids(a, sep)
    ensures Split(a + [sep] + t, sep) == [a] + Split(t, sep)
  {
    if a == [] {
      assert ([] + [sep] + t)[1..] == t;
    } else {
      SplitAfterPiece(a[1..], sep, t);
      assert (a + [sep] + t)[1..] == a[1..] + [sep] + t;
      assert [a[0]] + a[1..] == a;
    }
  }

  /** Splitting a join of separator-free segments gives the segments back. */
  lemma {:induction false} SplitJoin(segments: seq<string>, sep: char)
    requires |segments| >= 1
    requires forall j :: 0 <= j < |segments| ==> Avoids(segments[j], sep)
    ensures Split(Join(segments, sep), sep) == segments
  {
    if |segments| == 1 {
      SplitAvoiding(segments[0], sep);
    } else {
      SplitJoin(segments[1..], sep);
      SplitAfterPiece(segments[0], sep, Join(segments[1..], sep));
      assert [segments[0]] + segments[1..] == segments;
    }
  }

  /** So two different non-empty paths of separator-free segments join differently. */
  lemma JoinInjective(p: seq<string>, q: seq<string>, sep: char)
    requires |p| >= 1 && |q| >= 1
    requires forall j :: 0 <= j < |p| ==> Avoids(p[j], sep)
    requires forall j :: 0 <= j < |q| ==> Avoids(q[j], sep)
    requires Join(p, sep) == Join(q, sep)
    ensures p == q
  {
    SplitJoin(p, sep);
    SplitJoin(q, sep);
  }
}
