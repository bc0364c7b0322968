/** What the diff promises, stated over all inputs: the entry-by-entry
    reading of an object delta, when the array exception is raised, identity
    and compactness, and the single-edit cases the tests exercise. */
module DiffProperties {
  import opened Json
  import opened GsonDiff

  /** A key of the union with equal values on both sides: the delta omits it. */
  predicate Unchanged(a: map<string, Value>, b: map<string, Value>, k: string)
  {
    k in a && k in b && a[k] == b[k]
  }

  /** Two objects are diffed key by key: the delta holds exactly the keys of
      the union whose values differ; an added key carries `b`'s value
      verbatim, a removed key carries `Null`, and a key on both sides with
      unequal values carries the recursive diff of the two values. */
  lemma ObjectDelta(a: map<string, Value>, b: map<string, Value>)
    requires DiffElements(Obj(a), Obj(b)).Ok?
    ensures DiffElements(Obj(a), Obj(b)).value.Obj?
    ensures var d := DiffElements(Obj(a), Obj(b)).value.fields;
      && (forall k :: k in d <==> (k in a || k in b) && !Unchanged(a, b, k))
      && (forall k :: k !in a && k in b ==> k in d && d[k] == b[k])
      && (forall k :: k in a && k !in b ==> k in d && d[k] == Null)
      && (forall k :: k in a && k in b && a[k] != b[k] ==>
            k in d && DiffElements(a[k], b[k]) == Ok(d[k]))
  {
    var keys := UnionKeys(a.Keys, b.Keys);
    assert EntriesDelta(a, b).Ok?;
    assert forall k :: k in keys ==> DiffEntry(a, b, k).Ok?;
  }

  /** Two objects raise the exception exactly when some key on both sides
      holds unequal values whose own diff raises it; keys with equal values
      are never diffed, so equal nested arrays are harmless. */
  lemma ObjectUnsupported(a: map<string, Value>, b: map<string, Value>)
    ensures DiffElements(Obj(a), Obj(b)).Unsupported? <==>
      exists k :: k in a && k in b && a[k] != b[k] && DiffElements(a[k], b[k]).Unsupported?
  {
    var keys := UnionKeys(a.Keys, b.Keys);
    if DiffElements(Obj(a), Obj(b)).Unsupported? {
      assert EntriesDelta(a, b).Unsupported?;
      var k :| k in keys && DiffEntry(a, b, k).Unsupported?;
      assert k in a && k in b && a[k] != b[k];
    }
    if exists k :: k in a && k in b && a[k] != b[k] && DiffElements(a[k], b[k]).Unsupported? {
      var k :| k in a && k in b && a[k] != b[k] && DiffElements(a[k], b[k]).Unsupported?;
      assert k in keys && DiffEntry(a, b, k).Unsupported?;
    }
  }

  /** Where the exception comes from: two arrays meeting at the top, or, in
      two objects, a key on both sides with unequal values that clash in
      turn. */
  ghost predicate ArrayClash(a: Value, b: Value)
    decreases a
  {
    || (a.Arr? && b.Arr?)
    || (a.Obj? && b.Obj? &&
        exists k :: k in a.fields && k in b.fields && a.fields[k] != b.fields[k] &&
          ArrayClash(a.fields[k], b.fields[k]))
  }

  /** The diff fails exactly when the two trees clash on arrays; in
      particular two arrays always fail, even when equal or empty. */
  lemma {:induction false} UnsupportedIffArrayClash(a: Value, b: Value)
    decreases a
    ensures DiffElements(a, b).Unsupported? <==> ArrayClash(a, b)
  {
    if a.Obj? && b.Obj? {
      var ma, mb := a.fields, b.fields;
      forall k | k in ma && k in mb && ma[k] != mb[k]
        ensures DiffElements(ma[k], mb[k]).Unsupported? <==> ArrayClash(ma[k], mb[k])
      {
        UnsupportedIffArrayClash(ma[k], mb[k]);
      }
      ObjectUnsupported(ma, mb);
    }
  }

  /** Diffing a non-array value with itself yields the empty object, even
      when the value holds arrays deeper down. */
  lemma DiffSelf(v: Value)
    requires !v.Arr?
    ensures DiffElements(v, v) == Ok(Empty)
  {
    if v.Obj? {
      var m := v.fields;
      var keys := UnionKeys(m.Keys, m.Keys);
      assert forall k :: k in keys ==> DiffEntry(m, m, k) == Ok(None);
      assert Collected(m, m, keys) == map[];
    }
  }

  /** The delta of two objects is empty exactly when the objects are equal. */
  lemma EmptyDeltaIffEqual(a: map<string, Value>, b: map<string, Value>)
    ensures DiffElements(Obj(a), Obj(b)) == Ok(Empty) <==> a == b
  {
    if a == b {
      DiffSelf(Obj(a));
    } else if DiffElements(Obj(a), Obj(b)).Ok? {
      ObjectDelta(a, b);
      if a.Keys == b.Keys {
        var k :| k in a && a[k] != b[k];
        assert k in DiffElements(Obj(a), Obj(b)).value.fields;
      } else if k :| k in a && k !in b {
        assert k in DiffElements(Obj(a), Obj(b)).value.fields;
      } else {
        var k :| k !in a && k in b;
        assert k in DiffElements(Obj(a), Obj(b)).value.fields;
      }
    }
  }

  /** Adding one key to an object: the delta is that single entry, carrying
      the added value verbatim. */
  lemma AddedKey(a: map<string, Value>, k: string, v: Value)
    requires k !in a
    ensures DiffElements(Obj(a), Obj(a[k := v])) == Ok(Obj(map[k := v]))
  {
    var b := a[k := v];
    ObjectUnsupported(a, b);
    ObjectDelta(a, b);
    assert DiffElements(Obj(a), Obj(b)).value.fields == map[k := v];
  }

  /** Removing one key from an object: the delta maps that key to `Null`,
      whatever value it held. */
  lemma RemovedKey(a: map<string, Value>, k: string)
    requires k in a
    ensures DiffElements(Obj(a), Obj(a - {k})) == Ok(Obj(map[k := Null]))
  {
    var b := a - {k};
    ObjectUnsupported(a, b);
    ObjectDelta(a, b);
    assert DiffElements(Obj(a), Obj(b)).value.fields == map[k := Null];
  }

  /** Changing the value of one key: the delta is that single key mapped to
      the diff of the old and new values, or the exception if that diff
      raises it. */
  lemma ChangedKey(a: map<string, Value>, k: string, v: Value)
    requires k in a && a[k] != v
    ensures DiffElements(Obj(a), Obj(a[k := v])) ==
      match DiffElements(a[k], v)
      case Ok(d) => Ok(Obj(map[k := d]))
      case Unsupported => Unsupported
  {
    var b := a[k := v];
    ObjectUnsupported(a, b);
    if DiffElements(a[k], v).Ok? {
      ObjectDelta(a, b);
      assert DiffElements(Obj(a), Obj(b)).value.fields == map[k := DiffElements(a[k], v).value];
    }
  }

  /** Removing a key and setting it to `Null` give the same delta, so a
      consumer of the delta cannot tell the two apart. */
  lemma RemovalAndNullCollapse(a: map<string, Value>, k: string)
    requires k in a && a[k] != Null
    ensures DiffElements(Obj(a), Obj(a - {k})) == DiffElements(Obj(a), Obj(a[k := Null]))
    ensures DiffElements(Obj(a), Obj(a - {k})) == Ok(Obj(map[k := Null]))
  {
    RemovedKey(a, k);
    ChangedKey(a, k, Null);
  }

  /** A string primitive. */
  function Str(t: string): Value
  {
    Prim(PStr(t))
  }

  /** A nested change: an unchanged top-level key is omitted, and the
      changed subtree is diffed in turn, with a changed, a removed and an
      added entry. */
  lemma NestedExample()
    ensures
      var base := map["key" := Str("value"),
                      "subtree" := Obj(map["same" := Str("one"), "changed" := Str("two"), "removed" := Str("three")])];
      var compared := map["key" := Str("value"),
                          "subtree" := Obj(map["same" := Str("one"), "changed" := Str("2"), "added" := Str("4")])];
      DiffElements(Obj(base), Obj(compared)) ==
        Ok(Obj(map["subtree" := Obj(map["changed" := Str("2"), "removed" := Null, "added" := Str("4")])]))
  {
    var sa := map["same" := Str("one"), "changed" := Str("two"), "removed" := Str("three")];
    var sb := map["same" := Str("one"), "changed" := Str("2"), "added" := Str("4")];
    assert sa["changed"] != sb["changed"];
    ObjectUnsupported(sa, sb);
    assert DiffElements(Obj(sa), Obj(sb)).Ok?;
    ObjectDelta(sa, sb);
    var sd := map["changed" := Str("2"), "removed" := Null, "added" := Str("4")];
    assert DiffElements(Obj(sa), Obj(sb)).value.fields == sd;
    assert Obj(sa) != Obj(sb);
    var base := map["key" := Str("value"), "subtree" := Obj(sa)];
    ChangedKey(base, "subtree", Obj(sb));
    assert base["subtree" := Obj(sb)] == map["key" := Str("value"), "subtree" := Obj(sb)];
  }
}
