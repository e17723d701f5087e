# dot_json in Dafny

A model of the dot-flattener of the `dot_json` crate. The crate turns a nested
serde_json map into one flat map. Each scalar leaf (null, string, number,
bool) is stored under the path that leads to it, with the path's segments
joined by `.`. An array element's segment is its 0-based index written in
decimal.

The crate has two functions, and the model keeps both:

- `traverse_dot` is the recursive worker, modelled by the method
  `Traverse.TraverseDot`. Its outer `for` loop walks the source map. For an
  array, its inner counting loop builds the temporary index map `m`. Scalars go
  into `dest` with `insert`. The method takes `dest` in and hands the filled
  map back. It is proved equal to the function `Traverse.Flattened`, which
  states what one call leaves in `dest`.
- `to_dot` is modelled by the method `Flatten.ToDot`: an empty destination, an
  empty path and one walk. `Flatten.DotMap` is its result as a function.

The JSON tree is `Json.Value`. The maps the walk reads, the source map `src`
and the temporary index map `m`, are `Json.Fields`: a sequence of key/value
pairs in the map's iteration order. The map the walk writes, `dest` and so
the map `to_dot` returns, is a Dafny `map<string, Value>`, which has no order.
`m.insert` is `Json.Insert`, and `dest.insert` is the map update
`dest[k := v]`. The array counter `cnt` is an
`i32`, and `cnt.to_string()` is `Decimal.NatToDecimal`. `[String]::join(".")`
is `Paths.Join` with the separator `'.'`.

The walks are specified against an independent description in module
`Reference`:

- `Leaves` lists the scalar leaves with their paths, in the order the walk
  meets them. It takes array elements directly, without building an index
  map.
- `InsertAll` puts such a list into a map, one leaf after another.
- `Reaches` says, without any walk, which value sits at which path of a tree.

`FlattenedIsInsertAll` proves that the walk equals this description.
`LeavesSound` and `LeavesComplete` prove that the list holds exactly the
reachable scalars. In module `Flatten`:

- `DotMapKeys`, `FlattenedKeepsOthers` and `FlattenedPlacesLeaf` are stated
  with `ReachesLeaf` alone, so they depend on neither walk. So are the second
  and third ensures of `ToDot`. Its first ensures ties the method to the walk
  `DotMap`.
- `FlattenedLaterWins`, `DotMapNoCollisions` and `LeavesDistinct` are stated
  with `Leaves`. They compare leaves by their positions in visiting order,
  and only the list records those positions.
- `DotMapOnePerLeaf` and `DotMapExact` use both. The entry count is
  `|Leaves(src, [])|`, and the place of each entry is stated with `ReachesLeaf`.

The crate promises nothing beyond its code and its one doc-test. The
model follows the code.

## Model

| member | source | states |
|---|---|---|
| `Traverse.TraverseDot` | src/lib.rs:9-47 | The Rust loops (the outer walk of `src`, and the counting loop that builds the index map for an array) compute exactly `Flattened(src, incPath, dest)`. |
| `Traverse.IndexFields` | src/lib.rs:19-26 | The temporary map for an array has one pair per element, in order. Element `i` sits under the key `NatToDecimal(i)`: the counter starts at 0 and goes up by 1. |
| `Traverse.IndexKeys` | src/lib.rs:21-26 | The keys of the index map are exactly `"0"`, …, `"n-1"`. So every `m.insert` in the loop adds a new key. |
| `Json.GetInsert` | src/lib.rs:23 | `Map::insert` law: after inserting `k ↦ v`, looking up `k` gives `v` and every other key gives what it gave before. |
| `Decimal.NatToDecimal` | src/lib.rs:23 | `cnt.to_string()` is a non-empty string of decimal digits. It has no sign, and it starts with `'0'` only for 0 (no padding). |
| `Decimal.DecimalRoundTrip` | src/lib.rs:23 | Reading the rendered index back as a number gives the index. |
| `Decimal.NatToDecimalInjective` | src/lib.rs:21-26 | Different counters give different keys. |
| `Paths.SplitJoin` | src/lib.rs:34 | `path.join(".")` is undone by splitting at `.` when no segment contains `.`. |
| `Paths.JoinInjective` | src/lib.rs:33-44 | Two different non-empty paths whose segments are free of `.` join to different keys. |
| `Reference.FlattenedIsInsertAll` | src/lib.rs:9-47 | What `traverse_dot` leaves in `dest` is `dest` with the listed leaves inserted one after another, in visiting order, each under its joined path. |
| `Reference.LeavesOfIndexFields` | src/lib.rs:17-29 | Recursing into the freshly built index map yields the same leaves as walking the array elements directly. |
| `Reference.LeavesSound` | src/lib.rs:10-45 | Every listed leaf has a path that extends the incoming path. Below that prefix it is a scalar reachable from `src`. |
| `Reference.LeavesComplete` | src/lib.rs:10-45 | Every scalar reachable from `src` is listed, under the incoming path followed by its own path. |
| `Reference.InsertAllLaterWins` | src/lib.rs:33-44 | When several leaves share a flat key, the one inserted last is in the map. |
| `Reference.InsertAllCount` | src/lib.rs:33-44 | Without shared flat keys, inserting the leaves into the empty map gives one entry per leaf. |
| `Flatten.ToDot` | src/lib.rs:81-87 | `to_dot` returns `DotMap(src)`. Every value in it is a scalar. Its keys are exactly the joined paths of the scalars reachable from `src`. |
| `Flatten.FlattenedKeepsOthers` | src/lib.rs:33-44 | `traverse_dot` only inserts. A key that is no reachable scalar's joined path keeps its old value, and a key that was absent stays absent. |
| `Flatten.FlattenedInsertsOnlyScalars` | src/lib.rs:16-45 | Every entry of the result that is new or changed holds a Null, String, Number or Bool, never an Array or an Object. |
| `Flatten.FlattenedPlacesLeaf` | src/lib.rs:12-44 | A reachable scalar ends up under `Join(incPath + s)`, copied unchanged. This holds unless another scalar with a different value joins to the same key. |
| `Flatten.FlattenedLaterWins` | src/lib.rs:33-44 | When joined paths collide, the leaf visited later is the one kept. |
| `Flatten.FlattenedWithoutScalars` | src/lib.rs:10-31 | Empty objects and arrays, nested to any depth, leave `dest` unchanged. |
| `Flatten.ReachesElement` | src/lib.rs:21-26 | The segment `NatToDecimal(i)` reaches array element `i`. No other index string reaches it. |
| `Flatten.DotMapScalars` | src/lib.rs:81-87 | Every value `to_dot` returns is a scalar. |
| `Flatten.DotMapKeys` | src/lib.rs:81-87 | A key is in the result exactly when it is the joined path of some reachable scalar (both directions). |
| `Flatten.DotMapOnePerLeaf` | src/lib.rs:81-87 | With no collisions, the result has exactly one entry per scalar leaf. Each scalar sits under its joined path. |
| `Flatten.DotMapNoCollisions` | src/lib.rs:9-47 | Collisions need a repeated key or a key containing `.`. A map with distinct keys (as serde maps have) whose keys avoid `.` flattens without collisions. |
| `Flatten.LeavesDistinct` | src/lib.rs:10-31 | Distinct keys in every object give distinct paths to all leaves. |
| `Flatten.DotMapExact` | src/lib.rs:81-87 | A well-formed map whose keys avoid `.` gives one entry per scalar leaf. Each entry sits under its joined path and keeps the leaf's value. |
| `Flatten.ReflattenIsIdentity` | src/lib.rs:81-87 | Running `to_dot` again on its own output, listed in any order, gives the same map. |
| `Flatten.ReflattenScalars` | src/lib.rs:33-44 | A listing of any map whose values are all scalars flattens back to that map: each pair is its own leaf. |
| `Scenarios.DocTest` | src/lib.rs:62-77 | The doc-test input flattens to exactly `foo`, `bar.0`, `bar.1`, `bar.2` and `baz.qux`, with the listed values (5 entries). |
| `Scenarios.CollisionLaterWins` | src/lib.rs:33-44 | `{"a.b": 1, "a": {"b": 2}}`, with the pairs visited in the listed order (serde_json's `preserve_order` feature), flattens to the one entry `a.b ↦ 2`: the later leaf overwrites the earlier. |
| `Scenarios.CollisionSortedOrder` | src/lib.rs:33-44 | The same object in serde_json's default sorted order (`"a"` before `"a.b"`) flattens to `a.b ↦ 1`. |
| `Scenarios.NestedEmptiesVanish` | src/lib.rs:17-32 | `{"x": [[[]]], "y": {}}` flattens to the empty map. |

## Left out

- JSON text parsing (`serde_json::from_str`) and the serde_json crate itself. The model starts from a built tree.
- Number internals: a serde_json `Number` (which may hold a float) is an `int`, copied unchanged, with no arithmetic.
- The concrete iteration order of the maps the walk reads. `src` and `m` are sequences whose order is taken as given. This includes the temporary index map, which is walked in insertion order. Under serde_json's default features the map is sorted by key, so `"10"` would come before `"2"`. The order can only decide which of two colliding leaves wins. The model does not prove that leaves of different array elements never collide.
- `Decimal.NatToDecimal`: the counter is an unbounded `nat`. In src/lib.rs `cnt` is an `i32`, so for an array of 2^31 or more elements `cnt += 1` (src/lib.rs:25) panics in a debug build and wraps to negative keys such as `"-2147483648"` in a release build. The model does not capture this overflow.
- The entry order of the map that `to_dot` returns. `dest` is a Dafny `map`, so the model states the result's keys and values but not its order. Under `preserve_order` that order is the order in which each flat key was first inserted, and under the default features it is sorted by key.
- Distinct keys are not required of input maps. Only `DotMapNoCollisions`, `LeavesDistinct` and `DotMapExact` assume them, through `WellFormed`.
- Ownership and cloning (`inc_path.clone()`, `v.clone()`, `&`/`&mut`): Dafny values are immutable. So `src` and the incoming path are read-only by construction, and `dest` is passed in and returned instead of being borrowed mutably.
- The lines of src/lib.rs that hold only crate imports (1-6) and the doc-test harness (53-60).
