/** How a delta is read: applied to its base tree, it gives back the
    compared tree. The source has no such operation; Patch is the reading of
    a delta's conventions (an entry is an addition or a change, a `Null`
    entry a removal, the empty object "no change"), and the lemmas here say
    for which trees that reading recovers what was diffed. */
module DeltaPatch {
  import opened Json
  import opened GsonDiff
  import opened DiffProperties

  /** Applies delta `d` to base `a`. On two objects: a `Null` entry removes
      its key, an entry for a key of `a` patches that key's value, an entry
      for a new key adds it, and keys without an entry keep their value.
      Otherwise the empty object keeps `a`, and any other delta replaces it. */
  function Patch(a: Value, d: Value): (p: Value)
    decreases a
  {
    if a.Obj? && d.Obj? then
      Obj(map k | k in a.fields.Keys + d.fields.Keys && !(k in d.fields && d.fields[k] == Null) ::
            if k !in d.fields then a.fields[k]
            else if k in a.fields then Patch(a.fields[k], d.fields[k])
            else d.fields[k])
    else if d == Empty then a
    else d
  }

  /** A sufficient condition for a tree's delta to be read back: no object
      entry, at any depth, is `Null` (a removal would read the same) or the
      empty object (for a scalar base, "no change" would read the same).
      It is not necessary: such an entry that the base holds unchanged, or a
      `{}` entry whose base entry is an object, round-trips as well. */
  ghost predicate Unambiguous(v: Value)
    decreases v
  {
    v.Obj? ==>
      forall k :: k in v.fields ==>
        v.fields[k] != Null && v.fields[k] != Empty && Unambiguous(v.fields[k])
  }

  /** Round trip: patching the base with the delta gives back the compared
      tree, whenever the diff succeeds and the compared tree meets the
      sufficient condition Unambiguous (and, at the top, is not the empty
      object unless the base is an object). */
  lemma {:induction false} PatchDiff(a: Value, b: Value)
    requires Unambiguous(b)
    requires b == Empty ==> a.Obj?
    requires DiffElements(a, b).Ok?
    ensures Patch(a, DiffElements(a, b).value) == b
    decreases a
  {
    if ClassOf(a) == ClassOf(b) && a.Obj? {
      var ma, mb := a.fields, b.fields;
      ObjectDelta(ma, mb);
      var dm := DiffElements(a, b).value.fields;
      forall k | k in ma && k in mb && ma[k] != mb[k]
        ensures Patch(ma[k], dm[k]) == mb[k]
      {
        PatchDiff(ma[k], mb[k]);
      }
      var p := Patch(a, Obj(dm)).fields;
      forall k
        ensures k in p <==> k in mb
        ensures k in p ==> p[k] == mb[k]
      {
        if k in ma && k in mb && ma[k] != mb[k] {
          assert DiffElements(ma[k], mb[k]) == Ok(dm[k]);
          assert dm[k] != Null;
        }
      }
      assert p == mb;
    }
  }

  /** The two ambiguities that Unambiguous excludes are real: a removed key
      and a key set to `Null` give the same delta, and so do an unchanged
      scalar and a scalar replaced by the empty object. */
  lemma AmbiguousDeltas(a: map<string, Value>, k: string, s: Value)
    requires k in a && a[k] != Null
    requires s.Null? || s.Prim?
    ensures a - {k} != a[k := Null]
    ensures DiffElements(Obj(a), Obj(a - {k})) == DiffElements(Obj(a), Obj(a[k := Null]))
    ensures s != Empty && DiffElements(s, s) == DiffElements(s, Empty)
  {
    assert k !in a - {k};
    RemovalAndNullCollapse(a, k);
  }
}
