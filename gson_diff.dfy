/** The recursive structural diff of two JSON trees (GsonDiff.diff and its
    helpers diffEntries and unionKeys). `a` is the base tree and `b` the tree
    compared to it; the result is the delta from `a` to `b`. */
module GsonDiff {
  import opened Json

  /** The outcome of a diff: a delta, or the UnsupportedOperationException
      thrown when two arrays meet. */
  datatype Result<+T> = Ok(value: T) | Unsupported

  /** The key union that diffEntries iterates over. */
  function UnionKeys(a: set<string>, b: set<string>): (u: set<string>)
    ensures forall k :: k in u <==> k in a || k in b
  {
    a + b
  }

  /** diff(JsonElement, JsonElement): an absent operand (a Java null)
      passes the other operand through; otherwise both are present and
      DiffElements decides. */
  function Diff(a: Option<Value>, b: Option<Value>): (r: Result<Option<Value>>)
    ensures a.None? ==> r == Ok(b)
    ensures a.Some? && b.None? ==> r == Ok(a)
    ensures r == Ok(None) <==> a.None? && b.None?
    ensures a.Some? && b.Some? ==>
      (r.Unsupported? <==> DiffElements(a.value, b.value).Unsupported?) &&
      (r.Ok? ==> r.value == Some(DiffElements(a.value, b.value).value))
  {
    if a.None? then Ok(b)
    else if b.None? then Ok(a)
    else
      match DiffElements(a.value, b.value)
      case Ok(d) => Ok(Some(d))
      case Unsupported => Unsupported
  }

  /** The dispatch of diff once both operands are present: a class
      mismatch returns `b`; two objects are diffed entry by entry; two
      arrays are rejected (before any equality test); two equal scalars give
      the empty object, two unequal ones give `b`. */
  function DiffElements(a: Value, b: Value): (r: Result<Value>)
    decreases a, 3
    ensures ClassOf(a) != ClassOf(b) ==> r == Ok(b)
    ensures a.Arr? && b.Arr? ==> r == Unsupported
    ensures (a.Null? && b.Null?) || (a.Prim? && b.Prim?) ==>
      r == if a == b then Ok(Empty) else Ok(b)
    ensures a.Obj? && b.Obj? && r.Ok? ==>
      r.value.Obj? && r.value.fields.Keys <= a.fields.Keys + b.fields.Keys
    ensures r.Ok? ==> r.value == b || r.value.Obj?
  {
    if ClassOf(a) != ClassOf(b) then Ok(b)
    else if a.Obj? && b.Obj? then
      match EntriesDelta(a.fields, b.fields)
      case Ok(m) => Ok(Obj(m))
      case Unsupported => Unsupported
    else if a.Arr? && b.Arr? then Unsupported
    else if b != a then Ok(b)
    else Ok(Empty)
  }

  /** What one iteration of diffEntries' loop contributes for key `k`:
      `Some(v)` when it adds the entry `k: v`, `None` when it adds nothing. */
  function DiffEntry(a: map<string, Value>, b: map<string, Value>, k: string): (r: Result<Option<Value>>)
    requires k in a || k in b
    decreases Obj(a), 0
  {
    // Added
    if k !in a && k in b then Ok(Some(b[k]))
    // Removed
    else if k in a && k !in b then Ok(Some(Null))
    // Present on both sides
    else if a[k] == b[k] then Ok(None)
    else
      match DiffElements(a[k], b[k])
      case Ok(d) => Ok(Some(d))
      case Unsupported => Unsupported
  }

  /** The entries diffEntries has added once it has processed the keys in
      `done` (none of which raised the exception). */
  function Collected(a: map<string, Value>, b: map<string, Value>, done: set<string>): (m: map<string, Value>)
    requires forall k :: k in done ==> (k in a || k in b) && DiffEntry(a, b, k).Ok?
    decreases Obj(a), 1
  {
    map k | k in done && DiffEntry(a, b, k).value.Some? :: DiffEntry(a, b, k).value.value
  }

  /** The result of diffEntries(a, b): the exception if any key of the union
      raises it (the loop stops at the first such key, whatever the
      iteration order), otherwise every entry the loop adds. */
  function EntriesDelta(a: map<string, Value>, b: map<string, Value>): (r: Result<map<string, Value>>)
    decreases Obj(a), 2
  {
    var keys := UnionKeys(a.Keys, b.Keys);
    if exists k :: k in keys && DiffEntry(a, b, k).Unsupported? then Unsupported
    else Ok(Collected(a, b, keys))
  }

  /** diffEntries as the source runs it: a loop over the key union, in no
      particular order, that adds one entry per changed key to a fresh
      result object and stops with the exception at the first array clash. */
  method DiffEntries(a: map<string, Value>, b: map<string, Value>) returns (r: Result<map<string, Value>>)
    ensures r == EntriesDelta(a, b)
  {
    var result: map<string, Value> := map[];
    var keys := UnionKeys(a.Keys, b.Keys);
    var todo := keys;
    while todo != {}
      invariant todo <= keys
      invariant forall k :: k in keys - todo ==> DiffEntry(a, b, k).Ok?
      invariant result == Collected(a, b, keys - todo)
      decreases todo
    {
      var key :| key in todo;
      if key !in a && key in b {
        result := result[key := b[key]];
      } else if key in a && key !in b {
        result := result[key := Null];
      } else if key in a {
        var aValue := a[key];
        var bValue := b[key];
        if aValue != bValue {
          var d := DiffElements(aValue, bValue);
          if d.Unsupported? {
            return Unsupported;
          }
          result := result[key := d.value];
        }
      }
      todo := todo - {key};
    }
    assert keys - todo == keys;
    assert !exists k :: k in keys && DiffEntry(a, b, k).Unsupported?;
    return Ok(result);
  }
}
