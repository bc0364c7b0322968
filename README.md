# gson-diff in Dafny

A model of the minimal structural JSON diff in `GsonDiff`. Given a base tree `a` and a compared tree `b`, `GsonDiff.diff(JsonElement, JsonElement)` returns a delta tree. The rules are:

- An absent operand (a Java `null`) passes the other operand through.
- If the Java classes differ, `b` wins.
- Two objects are diffed key by key (`diffEntries` over `unionKeys`):
  - an added key carries `b`'s value;
  - a removed key carries `JsonNull`;
  - an unchanged key is omitted;
  - a changed key carries the recursive diff of its two values.
- Two arrays throw `UnsupportedOperationException`.
- Two equal scalars give `{}`. Two unequal scalars give `b`.

Files:

- `json.dfy` (module `Json`): the value model.
  - `Value` has four cases: `Null`, `Prim` (one constructor for the single class `JsonPrimitive`, holding an int, string or bool), `Obj` (a `map`) and `Arr` (a `seq`).
  - `ClassOf` gives a value's Java class.
  - `Option` tells an absent operand apart from `Null`.
- `gson_diff.dfy` (module `GsonDiff`): the diff itself.
  - `Result` is either `Ok` or `Unsupported`. `Unsupported` stands for the exception.
  - `Diff` models lines 31-36, the absent operands.
  - `DiffElements` models lines 37-49, the dispatch on two present operands.
  - `DiffEntries` is a method. Like the source, it loops over the key union and adds entries to a fresh result map. Its contract ties it to the functional specification `EntriesDelta`, built from `DiffEntry` (one loop iteration) and `Collected` (the entries after some keys).
- `diff_properties.dfy` (module `DiffProperties`): lemmas over all inputs. They cover how an object delta reads key by key, when the exception is raised, identity, empty-iff-equal, the single-edit cases the tests exercise, and the nested test example.
- `delta_patch.dfy` (module `DeltaPatch`): `Patch` applies a delta to its base, following the delta conventions the source documents at lines 20-28. It does not exist in the source. It is the independent reading that the round-trip lemma `PatchDiff` checks `diff` against. `AmbiguousDeltas` shows the two cases where the delta loses information, which is why `PatchDiff` assumes the sufficient condition `Unambiguous`.

`diff(v, v)` is not `{}` for every `v`. For an array `v`, line 43 throws before the equality test at line 46 is reached. So `DiffSelf` excludes a top-level array, and `UnsupportedIffArrayClash` shows that two arrays always fail.

## Model

| member | source | states |
|---|---|---|
| GsonDiff.UnionKeys | src/main/java/GsonDiff.java:80-82 | a key is in the union exactly when it is a key of either object |
| GsonDiff.Diff | src/main/java/GsonDiff.java:30-36 | an absent base gives the compared operand unchanged, an absent compared operand gives the base, and the result is absent only when both are; with both present it succeeds or fails exactly as DiffElements does |
| GsonDiff.DiffElements | src/main/java/GsonDiff.java:37-49 | different classes give exactly `b`; two arrays always give Unsupported; two nulls or two primitives give `{}` when equal and `b` otherwise; two objects give an object whose keys lie in the key union; every successful result is `b` itself or an object |
| GsonDiff.DiffEntries | src/main/java/GsonDiff.java:52-78 | the loop over the key union returns exactly the entry-wise delta `EntriesDelta(a, b)`, or Unsupported when any key's nested diff raises the exception, whatever order the keys are visited in |
| DiffProperties.ObjectDelta | src/main/java/GsonDiff.java:58-73 | the delta of two objects holds exactly the union keys whose values differ (compactness); an added key maps to `b`'s value verbatim, a removed key to `Null`, a key on both sides with unequal values to the recursive diff of those values |
| DiffProperties.ObjectUnsupported | src/main/java/GsonDiff.java:68-73 | two objects raise the exception exactly when a key on both sides holds unequal values whose own diff raises it |
| DiffProperties.UnsupportedIffArrayClash | src/main/java/GsonDiff.java:43-45 | the diff fails exactly when the trees reach two arrays at the top or along a path of shared keys with unequal values; equal nested arrays never fail |
| DiffProperties.DiffSelf | src/main/java/GsonDiff.java:40-49 | diffing any non-array value with itself gives the empty object, even when arrays are nested inside |
| DiffProperties.EmptyDeltaIffEqual | src/main/java/GsonDiff.java:58-77 | the delta of two objects is the empty object if and only if the objects are equal |
| DiffProperties.AddedKey | src/main/java/GsonDiff.java:59-62 | adding a new key to an object gives a delta with that one entry, carrying the added value |
| DiffProperties.RemovedKey | src/main/java/GsonDiff.java:63-66 | removing a key gives a delta mapping that one key to `Null`, whatever it held |
| DiffProperties.ChangedKey | src/main/java/GsonDiff.java:67-73 | changing one key's value gives a delta with that one key mapped to the diff of old and new value, or Unsupported if that diff fails |
| DiffProperties.RemovalAndNullCollapse | src/test/java/GsonDiffTest.java:78-102 | removing a key and setting it to `Null` give the same delta, `{k: null}` |
| DiffProperties.NestedExample | src/test/java/GsonDiffTest.java:104-126 | the nested example: the unchanged key is omitted and the subtree delta holds the changed, removed and added entries |
| DeltaPatch.PatchDiff | src/main/java/GsonDiff.java:20-28 | applying the delta to the base gives back the compared tree, when the diff succeeds and (a sufficient condition, not a necessary one) the compared tree has no `Null` or `{}` object entries (and is not `{}` at the top unless the base is an object) |
| DeltaPatch.AmbiguousDeltas | src/main/java/GsonDiff.java:37-49 | distinct compared trees can share a delta: a removed key and a key set to `Null`, and an unchanged scalar and a scalar replaced by `{}` |

## Left out

- `diff(Object, Object)` (src/main/java/GsonDiff.java:15-18) is not modelled. It converts arbitrary objects to JSON trees through Gson's reflective serialiser, a library call whose behaviour is not visible here.
- Gson's number equality is not modelled: no widening between Integer and Long, and no doubles or BigDecimal. Primitives hold ints, strings and bools, and compare structurally.
- Reference identity is not modelled: the tests check with `isSameAs` that the other operand itself is returned, and subtrees of `b` are shared into the result. Values are immutable datatypes, so the model speaks of value equality only.
- Iteration order is not modelled: the order of the `HashSet` key union and the insertion order of `JsonObject` do not appear. Objects are maps. `DiffEntries` picks keys in an arbitrary order, and its contract holds for every order.
- The exception's message text is not modelled. Only the fact that it is thrown is.
- GsonDiff.DiffEntries: the nested call at line 72 goes to the function `DiffElements`, not back into a method, because a Dafny function cannot call a method. So the loop is imperative only at its own level, and every nested level is computed by the functional specification that the method is proved equal to.
- Stack overflow on very deep trees is not modelled. Recursion depth is unbounded in the model.
