/** When one document absorbs another, and when two absorb each other. */
module OverlayOrder {
  import opened Json
  import opened Overlay
  import opened OverlayLaws

  // ---------------------------------------------------------------------------------------------------------
  // Absorbing: merging `y` into `x` changes nothing

  /** `x` has every key of `y`, at every depth where the two would be merged, and an element for every element of its
      lists of dicts, in any order; anything else that `y` holds, `x` holds too. */
  ghost predicate Subsumes(x: Dict, y: Dict)
    decreases Obj(y), 0
  {
    forall k | k in y :: k in x && SubsumesValue(k, x[k], y[k])
  }

  ghost predicate SubsumesValue(key: string, v: Value, w: Value)
    decreases w, 1
  {
    if v.Obj? && w.Obj? then Subsumes(v.fields, w.fields)
    else if v.Arr? && w.Arr? && DictHeaded(v.items) then SubsumesList(IdKey(key), v.items, w.items)
    else v == w
  }

  ghost predicate SubsumesList(idKey: Option<string>, s: seq<Value>, t: seq<Value>)
    decreases t, 0
  {
    forall j | 0 <= j < |t| :: SubsumesElement(idKey, s, t[j])
  }

  ghost predicate SubsumesElement(idKey: Option<string>, s: seq<Value>, z: Value)
    decreases z, 1
  {
    var found := Find(idKey, s, Id(idKey, z));
    found.Some? && found.value.Obj? && z.Obj? && Subsumes(found.value.fields, z.fields)
  }

  lemma {:induction false} SubsumesExactly(x: Dict, y: Dict)
    requires WellFormed(x) && WellFormed(y)
    ensures Merge(x, y) == x <==> Subsumes(x, y)
    decreases Obj(y), 0
  {
    forall k | k in x && k in y ensures MergeValue(k, x[k], y[k]) == x[k] <==> SubsumesValue(k, x[k], y[k]) {
      if x[k].Obj? && y[k].Obj? {
        SubsumesExactly(x[k].fields, y[k].fields);
      } else if x[k].Arr? && y[k].Arr? && DictHeaded(x[k].items) {
        SubsumesListExactly(IdKey(k), x[k].items, y[k].items);
      }
    }
    if Merge(x, y) == x {
      assert Merge(x, y).Keys == x.Keys + y.Keys;
    }
  }

  lemma {:induction false} SubsumesListExactly(idKey: Option<string>, s: seq<Value>, t: seq<Value>)
    requires idKey.Some? && WellFormedList(idKey, s) && WellFormedList(idKey, t)
    ensures MergeList(idKey, s, t, []) == s <==> SubsumesList(idKey, s, t)
    decreases t, 0
  {
    MergeListWellFormed(idKey, s, t);
    forall i, j | 0 <= i < |s| && 0 <= j < |t| && Id(idKey, s[i]) == Id(idKey, t[j])
      ensures Patched(idKey, s[i], t) == s[i] <==> SubsumesElement(idKey, s, t[j])
    {
      FindAt(idKey, s, i);
      FindAt(idKey, t, j);
      SubsumesExactly(s[i].fields, t[j].fields);
    }
    if SubsumesList(idKey, s, t) {
      forall j | 0 <= j < |t| ensures Find(idKey, s, Id(idKey, t[j])).Some? {
        assert SubsumesElement(idKey, s, t[j]);
      }
      NoneFresh(idKey, s, t);
      forall i | 0 <= i < |s| ensures Patched(idKey, s[i], t) == s[i] { FindMember(idKey, t, Id(idKey, s[i])); }
      assert PatchedAll(idKey, s, t) == s;
    }
    if MergeList(idKey, s, t, []) == s {
      assert Fresh(idKey, s, t) == [];
      forall j | 0 <= j < |t| ensures SubsumesElement(idKey, s, t[j]) {
        FreshNothing(idKey, s, t, j);
        FindMember(idKey, s, Id(idKey, t[j]));
        var i :| 0 <= i < |s| && Id(idKey, s[i]) == Id(idKey, t[j]);
        assert PatchedAll(idKey, s, t)[i] == s[i];
      }
    }
  }

  /** In a list of different ids, an element is the one that is found under its id. */
  lemma FindAt(idKey: Option<string>, s: seq<Value>, i: nat)
    requires i < |s| && DistinctIds(idKey, s)
    ensures Find(idKey, s, Id(idKey, s[i])) == Some(s[i])
  {
    FindMember(idKey, s, Id(idKey, s[i]));
  }

  lemma {:induction false} FreshNothing(idKey: Option<string>, b: seq<Value>, o: seq<Value>, j: nat)
    requires Fresh(idKey, b, o) == [] && j < |o|
    ensures Find(idKey, b, Id(idKey, o[j])).Some?
  {
    if j > 0 { FreshNothing(idKey, b, o[1..], j - 1); }
  }

  // ---------------------------------------------------------------------------------------------------------
  // Absorbing is an order

  /** What absorbs `z` has a value of the same kind wherever `z` has a container. */
  lemma {:induction false} SubsumesComposable(b: Dict, y: Dict, z: Dict)
    requires WellFormed(b) && WellFormed(y) && WellFormed(z) && Subsumes(y, z)
    ensures Composable(b, y, z)
    decreases Obj(z), 0
  {
    forall k | k in b && k in y && k in z ensures ComposableValue(k, b[k], y[k], z[k]) {
      assert SubsumesValue(k, y[k], z[k]);
      if b[k].Obj? && z[k].Obj? {
        SubsumesComposable(b[k].fields, y[k].fields, z[k].fields);
      } else if b[k].Arr? && DictHeaded(b[k].items) && z[k].Arr? {
        SubsumesComposableList(k, b[k].items, y[k], z[k]);
      }
    }
  }

  lemma {:induction false} SubsumesComposableList(key: string, b: seq<Value>, y: Value, z: Value)
    requires IdKey(key).Some? && WellFormedList(IdKey(key), b)
    requires WellFormedValue(key, y) && WellFormedValue(key, z) && z.Arr? && SubsumesValue(key, y, z)
    ensures y.Arr? && ComposableList(IdKey(key), b, y.items, z.items)
    decreases z, 0
  {
    var idKey := IdKey(key);
    forall i, j, l | 0 <= i < |b| && 0 <= j < |y.items| && 0 <= l < |z.items|
      ensures ComposableElement(idKey, b[i], y.items[j], z.items[l])
    {
      var x, u, v := b[i], y.items[j], z.items[l];
      if x.Obj? && u.Obj? && v.Obj? && Id(idKey, x) == Id(idKey, u) == Id(idKey, v) {
        assert DictHeaded(y.items);
        assert SubsumesElement(idKey, y.items, v);
        FindAt(idKey, y.items, j);
        SubsumesComposable(x.fields, u.fields, v.fields);
      }
    }
  }

  lemma SubsumesTransitive(x: Dict, y: Dict, z: Dict)
    requires WellFormed(x) && WellFormed(y) && WellFormed(z) && Subsumes(x, y) && Subsumes(y, z)
    ensures Subsumes(x, z)
  {
    hide *;
    SubsumesExactly(x, y);
    SubsumesExactly(y, z);
    SubsumesComposable(x, y, z);
    MergeComposes(x, y, z);
    SubsumesExactly(x, z);
  }

  lemma SubsumesSelf(x: Dict)
    requires WellFormed(x)
    ensures Subsumes(x, x)
  {
    hide *;
    MergeSelf(x);
    SubsumesExactly(x, x);
  }

  /** A merge absorbs its overlay. */
  lemma MergeSubsumesOverlay(x: Dict, y: Dict)
    requires WellFormed(x) && WellFormed(y)
    ensures WellFormed(Merge(x, y)) && Subsumes(Merge(x, y), y)
  {
    hide *;
    MergeWellFormed(x, y);
    MergeIdempotent(x, y);
    SubsumesExactly(Merge(x, y), y);
  }

  /** So it absorbs what its overlay absorbs. */
  lemma MergeSubsumes(x: Dict, y: Dict, z: Dict)
    requires WellFormed(x) && WellFormed(y) && WellFormed(z) && Subsumes(y, z)
    ensures WellFormed(Merge(x, y)) && Subsumes(Merge(x, y), z)
  {
    hide *;
    MergeSubsumesOverlay(x, y);
    SubsumesTransitive(Merge(x, y), y, z);
  }

  /** Of two documents that absorb `z`, neither has more than `z` if their merge has not. */
  lemma {:induction false} SubsumedParts(x: Dict, y: Dict, z: Dict)
    requires WellFormed(x) && WellFormed(y) && WellFormed(z)
    requires Subsumes(x, z) && Subsumes(y, z) && Subsumes(z, Merge(x, y))
    ensures Subsumes(z, x) && Subsumes(z, y)
    decreases Obj(z), 0
  {
    forall k | k in x || k in y
      ensures k in x && k in y && k in z && SubsumesValue(k, z[k], x[k]) && SubsumesValue(k, z[k], y[k])
    {
      assert k in Merge(x, y) && k in z;
      assert SubsumesValue(k, x[k], z[k]) && SubsumesValue(k, y[k], z[k]);
      assert SubsumesValue(k, z[k], MergeValue(k, x[k], y[k]));
      SubsumedPartsValue(k, x[k], y[k], z[k]);
    }
  }

  lemma {:induction false} SubsumedPartsValue(key: string, v: Value, w: Value, u: Value)
    requires WellFormedValue(key, v) && WellFormedValue(key, w) && WellFormedValue(key, u)
    requires SubsumesValue(key, v, u) && SubsumesValue(key, w, u) && SubsumesValue(key, u, MergeValue(key, v, w))
    ensures SubsumesValue(key, u, v) && SubsumesValue(key, u, w)
    decreases u, 1
  {
    if u.Obj? {
      SubsumedParts(v.fields, w.fields, u.fields);
    } else if u.Arr? && DictHeaded(u.items) {
      SubsumedPartsList(IdKey(key), v.items, w.items, u.items);
    } else if v.Arr? && w.Arr? && DictHeaded(v.items) {
      MergeListWellFormed(IdKey(key), v.items, w.items);
    }
  }

  lemma {:induction false} SubsumedPartsList(idKey: Option<string>, s: seq<Value>, t: seq<Value>, u: seq<Value>)
    requires idKey.Some? && WellFormedList(idKey, s) && WellFormedList(idKey, t) && WellFormedList(idKey, u)
    requires SubsumesList(idKey, s, u) && SubsumesList(idKey, t, u)
    requires SubsumesList(idKey, u, MergeList(idKey, s, t, []))
    ensures SubsumesList(idKey, u, s) && SubsumesList(idKey, u, t)
    decreases u, 1
  {
    var merged := MergeList(idKey, s, t, []);
    MergeListWellFormed(idKey, s, t);
    forall z | z in s || z in t ensures SubsumesElement(idKey, u, z) {
      if z in s {
        var i :| 0 <= i < |s| && s[i] == z;
        FindAt(idKey, s, i);
      } else {
        var j :| 0 <= j < |t| && t[j] == z;
        FindAt(idKey, t, j);
      }
      SubsumedPartsElement(idKey, s, t, u, Id(idKey, z));
    }
  }

  lemma {:induction false} SubsumedPartsElement(idKey: Option<string>, s: seq<Value>, t: seq<Value>, u: seq<Value>,
                                                id: Value)
    requires idKey.Some? && WellFormedList(idKey, s) && WellFormedList(idKey, t) && WellFormedList(idKey, u)
    requires SubsumesList(idKey, s, u) && SubsumesList(idKey, t, u)
    requires SubsumesList(idKey, u, MergeList(idKey, s, t, []))
    requires Find(idKey, s, id).Some? || Find(idKey, t, id).Some?
    ensures var x, y, z := Find(idKey, s, id), Find(idKey, t, id), Find(idKey, u, id);
      && x.Some? && y.Some? && z.Some? && x.value.Obj? && y.value.Obj? && z.value.Obj?
      && Subsumes(z.value.fields, x.value.fields) && Subsumes(z.value.fields, y.value.fields)
    decreases u, 0
  {
    var merged := MergeList(idKey, s, t, []);
    MergeListWellFormed(idKey, s, t);
    FindConcat(idKey, PatchedAll(idKey, s, t), Fresh(idKey, s, t), id);
    FindPatched(idKey, s, t, id);
    FindFresh(idKey, s, t, id);
    FindMember(idKey, merged, id);
    var m := Find(idKey, merged, id).value;
    assert SubsumesElement(idKey, u, m);
    FindMember(idKey, u, id);
    var z := Find(idKey, u, id).value;
    assert SubsumesElement(idKey, s, z) && SubsumesElement(idKey, t, z);
    FindMember(idKey, s, id);
    FindMember(idKey, t, id);
    var x, y := Find(idKey, s, id).value, Find(idKey, t, id).value;
    assert m == Obj(Merge(x.fields, y.fields));
    SubsumedParts(x.fields, y.fields, z.fields);
  }

  // ---------------------------------------------------------------------------------------------------------
  // Absorbing each other

  /** Equal, but for the order of the elements of lists of dicts. */
  ghost predicate Alike(x: Dict, y: Dict)
    decreases Obj(x), 0
  {
    x.Keys == y.Keys && forall k | k in x :: k in y && AlikeValue(k, x[k], y[k])
  }

  ghost predicate AlikeValue(key: string, v: Value, w: Value)
    decreases v, 1
  {
    if v.Obj? && w.Obj? then Alike(v.fields, w.fields)
    else if v.Arr? && w.Arr? && DictHeaded(v.items) then AlikeList(IdKey(key), v.items, w.items)
    else v == w
  }

  /** The same ids, with the elements of one id alike. */
  ghost predicate AlikeList(idKey: Option<string>, s: seq<Value>, t: seq<Value>)
    decreases s, 0
  {
    && (forall i | 0 <= i < |s| :: AlikeElement(idKey, s[i], t))
    && (forall j | 0 <= j < |t| :: Find(idKey, s, Id(idKey, t[j])).Some?)
  }

  ghost predicate AlikeElement(idKey: Option<string>, x: Value, t: seq<Value>)
    decreases x, 1
  {
    var found := Find(idKey, t, Id(idKey, x));
    found.Some? && x.Obj? && found.value.Obj? && Alike(x.fields, found.value.fields)
  }

  lemma {:induction false} AlikeSubsumes(x: Dict, y: Dict)
    requires WellFormed(x) && WellFormed(y)
    ensures Alike(x, y) <==> Subsumes(x, y) && Subsumes(y, x)
    decreases Obj(x), 0
  {
    forall k | k in x && k in y
      ensures AlikeValue(k, x[k], y[k]) <==> SubsumesValue(k, x[k], y[k]) && SubsumesValue(k, y[k], x[k])
    {
      AlikeSubsumesValue(k, x[k], y[k]);
    }
  }

  lemma {:induction false} AlikeSubsumesValue(key: string, v: Value, w: Value)
    requires WellFormedValue(key, v) && WellFormedValue(key, w)
    ensures AlikeValue(key, v, w) <==> SubsumesValue(key, v, w) && SubsumesValue(key, w, v)
    decreases v, 1
  {
    if v.Obj? && w.Obj? {
      AlikeSubsumes(v.fields, w.fields);
    } else if v.Arr? && w.Arr? && DictHeaded(v.items) {
      if DictHeaded(w.items) {
        AlikeSubsumesList(IdKey(key), v.items, w.items);
      } else {
        assert !AlikeElement(IdKey(key), v.items[0], w.items);
      }
    }
  }

  lemma {:induction false} AlikeSubsumesList(idKey: Option<string>, s: seq<Value>, t: seq<Value>)
    requires idKey.Some? && WellFormedList(idKey, s) && WellFormedList(idKey, t)
    ensures AlikeList(idKey, s, t) <==> SubsumesList(idKey, s, t) && SubsumesList(idKey, t, s)
    decreases s, 0
  {
    forall i, j | 0 <= i < |s| && 0 <= j < |t| && Id(idKey, s[i]) == Id(idKey, t[j])
      ensures AlikeElement(idKey, s[i], t) <==> SubsumesElement(idKey, s, t[j]) && SubsumesElement(idKey, t, s[i])
    {
      FindAt(idKey, s, i);
      FindAt(idKey, t, j);
      AlikeSubsumes(s[i].fields, t[j].fields);
    }
    forall i | 0 <= i < |s|
      ensures Find(idKey, t, Id(idKey, s[i])).Some? <==> exists j :: 0 <= j < |t| && Id(idKey, t[j]) == Id(idKey, s[i])
    {
      FindMember(idKey, t, Id(idKey, s[i]));
    }
    forall j | 0 <= j < |t|
      ensures Find(idKey, s, Id(idKey, t[j])).Some? <==> exists i :: 0 <= i < |s| && Id(idKey, s[i]) == Id(idKey, t[j])
    {
      FindMember(idKey, s, Id(idKey, t[j]));
    }
  }

  /** Two documents absorb each other exactly if they are alike. */
  lemma AlikeExactly(x: Dict, y: Dict)
    requires WellFormed(x) && WellFormed(y)
    ensures Alike(x, y) <==> Merge(x, y) == x && Merge(y, x) == y
  {
    hide *;
    AlikeSubsumes(x, y);
    SubsumesExactly(x, y);
    SubsumesExactly(y, x);
  }
}
