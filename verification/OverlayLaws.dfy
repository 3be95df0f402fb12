/** The algebra of the overlay merge on well-formed documents: it absorbs itself, it composes, it is idempotent. */
module OverlayLaws {
  import opened Json
  import opened Overlay

  // ---------------------------------------------------------------------------------------------------------
  // Well-formed documents

  /** Lists under the three id keys hold dicts with pairwise different ids; a list under any other key does not
      begin with a dict (the merge would match every element of it with every other). */
  ghost predicate WellFormed(d: Dict)
    decreases Obj(d), 0
  {
    forall k | k in d :: WellFormedValue(k, d[k])
  }

  ghost predicate WellFormedValue(key: string, v: Value)
    decreases v, 1
  {
    && (v.Obj? ==> WellFormed(v.fields))
    && (v.Arr? ==> if IdKey(key).Some? then WellFormedList(IdKey(key), v.items) else !DictHeaded(v.items))
  }

  ghost predicate WellFormedList(idKey: Option<string>, list: seq<Value>)
    decreases list
  {
    && (forall i | 0 <= i < |list| :: list[i].Obj? && WellFormed(list[i].fields))
    && DistinctIds(idKey, list)
  }

  ghost predicate DistinctIds(idKey: Option<string>, list: seq<Value>) {
    forall i, j | 0 <= i < j < |list| :: Id(idKey, list[i]) != Id(idKey, list[j])
  }

  /** `o` leaves nothing of `b` behind: it has every key of `b`, at every depth where the two would be merged, and
      begins every list of dicts with the elements that `b` has there. */
  ghost predicate Covers(o: Dict, b: Dict)
    decreases Obj(o), 0
  {
    forall k | k in b :: k in o && CoversValue(k, o[k], b[k])
  }

  ghost predicate CoversValue(key: string, o: Value, b: Value)
    decreases o, 1
  {
    && (b.Obj? && o.Obj? ==> Covers(o.fields, b.fields))
    && (b.Arr? && o.Arr? && DictHeaded(b.items) ==> CoversList(IdKey(key), o.items, b.items))
  }

  ghost predicate CoversList(idKey: Option<string>, o: seq<Value>, b: seq<Value>)
    decreases o, 0
  {
    |b| <= |o| && forall i | 0 <= i < |b| :: CoversElement(idKey, o[i], b[i])
  }

  ghost predicate CoversElement(idKey: Option<string>, o: Value, b: Value)
    decreases o, 1
  {
    Id(idKey, o) == Id(idKey, b) && (o.Obj? && b.Obj? ==> Covers(o.fields, b.fields))
  }

  /** Where `b` and `o2` would be merged into each other, `o1` holds a value of the same kind, or else `o2` leaves
      nothing of `b` behind. */
  ghost predicate Composes(b: Dict, o1: Dict, o2: Dict)
    decreases Obj(o2), 0
  {
    forall k | k in b && k in o1 && k in o2 :: ComposesValue(k, b[k], o1[k], o2[k])
  }

  ghost predicate ComposesValue(key: string, b: Value, o1: Value, o2: Value)
    decreases o2, 1
  {
    && (b.Obj? && o2.Obj? ==>
          if o1.Obj? then Composes(b.fields, o1.fields, o2.fields) else Covers(o2.fields, b.fields))
    && (b.Arr? && DictHeaded(b.items) && o2.Arr? ==>
          if o1.Arr? then ComposesList(IdKey(key), b.items, o1.items, o2.items)
          else CoversList(IdKey(key), o2.items, b.items))
  }

  ghost predicate ComposesList(idKey: Option<string>, b: seq<Value>, o1: seq<Value>, o2: seq<Value>)
    decreases o2, 0
  {
    forall i, j, l | 0 <= i < |b| && 0 <= j < |o1| && 0 <= l < |o2| :: ComposesElement(idKey, b[i], o1[j], o2[l])
  }

  ghost predicate ComposesElement(idKey: Option<string>, x: Value, y: Value, z: Value)
    decreases z, 1
  {
    x.Obj? && y.Obj? && z.Obj? && Id(idKey, x) == Id(idKey, y) == Id(idKey, z) ==>
      Composes(x.fields, y.fields, z.fields)
  }

  // ---------------------------------------------------------------------------------------------------------
  // The merge of two lists in closed form

  /** `x` merged with the element of `overlay` that has its id, if there is one. */
  function Patched(idKey: Option<string>, x: Value, overlay: seq<Value>): Value {
    var found := Find(idKey, overlay, Id(idKey, x));
    if found.Some? then Absorb(idKey, x, found.value) else x
  }

  function PatchedAll(idKey: Option<string>, base: seq<Value>, overlay: seq<Value>): seq<Value> {
    seq(|base|, i requires 0 <= i < |base| => Patched(idKey, base[i], overlay))
  }

  /** The elements of `overlay` whose id no element of `base` has. */
  function Fresh(idKey: Option<string>, base: seq<Value>, overlay: seq<Value>): seq<Value> {
    if overlay == [] then []
    else (if Find(idKey, base, Id(idKey, overlay[0])).Some? then [] else [overlay[0]])
         + Fresh(idKey, base, overlay[1..])
  }

  /** Merging `y` into an `x` with the same id keeps the id. */
  ghost predicate KeepsIds(idKey: Option<string>, base: seq<Value>, overlay: seq<Value>) {
    forall i, j | 0 <= i < |base| && 0 <= j < |overlay| ::
      Id(idKey, Absorb(idKey, base[i], overlay[j])) == Id(idKey, base[i])
  }

  lemma {:induction false} FindSame(idKey: Option<string>, s: seq<Value>, t: seq<Value>, v: Value)
    requires |s| == |t|
    requires forall i | 0 <= i < |s| :: Id(idKey, s[i]) == Id(idKey, t[i])
    ensures Find(idKey, s, v).Some? <==> Find(idKey, t, v).Some?
  {
    if s != [] { FindSame(idKey, s[1..], t[1..], v); }
  }

  lemma {:induction false} MergeListClosed(idKey: Option<string>, base: seq<Value>, overlay: seq<Value>,
                                           pending: seq<Value>)
    requires DistinctIds(idKey, overlay) && KeepsIds(idKey, base, overlay)
    ensures MergeList(idKey, base, overlay, pending)
         == PatchedAll(idKey, base, overlay) + pending + Fresh(idKey, base, overlay)
    decreases overlay
  {
    if overlay == [] {
      assert PatchedAll(idKey, base, overlay) == base;
    } else {
      var head, tail := overlay[0], overlay[1..];
      var next := AbsorbAll(idKey, base, head);
      AbsorbFirst(idKey, base, overlay);
      FreshSame(idKey, base, next, tail);
      hide PatchedAll, KeepsIds, Absorb, Id;
      if Find(idKey, base, Id(idKey, head)).Some? {
        MergeListClosed(idKey, next, tail, pending);
      } else {
        MergeListClosed(idKey, base, tail, pending + [head]);
      }
    }
  }

  /** Absorbing the first element leaves the others to be absorbed as before. */
  lemma AbsorbFirst(idKey: Option<string>, base: seq<Value>, overlay: seq<Value>)
    requires overlay != [] && DistinctIds(idKey, overlay) && KeepsIds(idKey, base, overlay)
    ensures var next, tail := AbsorbAll(idKey, base, overlay[0]), overlay[1..];
      && DistinctIds(idKey, tail) && KeepsIds(idKey, next, tail)
      && |next| == |base| && (forall i | 0 <= i < |base| :: Id(idKey, base[i]) == Id(idKey, next[i]))
      && PatchedAll(idKey, next, tail) == PatchedAll(idKey, base, overlay)
      && (Find(idKey, base, Id(idKey, overlay[0])).None? ==> next == base)
  {
    hide Merge;
    var head, tail := overlay[0], overlay[1..];
    var next := AbsorbAll(idKey, base, head);
    forall i, j | 0 <= i < |next| && 0 <= j < |tail|
      ensures Id(idKey, Absorb(idKey, next[i], tail[j])) == Id(idKey, next[i])
    {
      assert tail[j] == overlay[j + 1];
      assert Id(idKey, next[i]) == Id(idKey, base[i]);
      assert Id(idKey, tail[j]) != Id(idKey, head);
    }
    FindMember(idKey, tail, Id(idKey, head));
    FindMember(idKey, base, Id(idKey, head));
    forall i | 0 <= i < |base| ensures Patched(idKey, next[i], tail) == Patched(idKey, base[i], overlay) {
      assert Id(idKey, next[i]) == Id(idKey, base[i]);
    }
  }

  lemma {:induction false} FreshSame(idKey: Option<string>, s: seq<Value>, t: seq<Value>, overlay: seq<Value>)
    requires |s| == |t|
    requires forall i | 0 <= i < |s| :: Id(idKey, s[i]) == Id(idKey, t[i])
    ensures Fresh(idKey, s, overlay) == Fresh(idKey, t, overlay)
  {
    if overlay != [] {
      FindSame(idKey, s, t, Id(idKey, overlay[0]));
      FreshSame(idKey, s, t, overlay[1..]);
    }
  }

  lemma {:induction false} FreshElements(idKey: Option<string>, base: seq<Value>, overlay: seq<Value>)
    ensures forall e | e in Fresh(idKey, base, overlay) :: e in overlay && Find(idKey, base, Id(idKey, e)).None?
    ensures DistinctIds(idKey, overlay) ==> DistinctIds(idKey, Fresh(idKey, base, overlay))
  {
    if overlay != [] { FreshElements(idKey, base, overlay[1..]); }
  }

  // ---------------------------------------------------------------------------------------------------------
  // A document absorbs itself; a matched element keeps its id

  lemma {:induction false} MergeSelf(d: Dict)
    requires WellFormed(d)
    ensures Merge(d, d) == d
    decreases Obj(d), 0
  {
    forall k | k in d ensures MergeValue(k, d[k], d[k]) == d[k] { MergeValueSelf(k, d[k]); }
  }

  lemma {:induction false} MergeValueSelf(key: string, v: Value)
    requires WellFormedValue(key, v)
    ensures MergeValue(key, v, v) == v
    decreases v, 1
  {
    if v.Obj? {
      MergeSelf(v.fields);
    } else if v.Arr? && DictHeaded(v.items) {
      MergeListSelf(IdKey(key), v.items);
    }
  }

  lemma {:induction false} MergeListSelf(idKey: Option<string>, list: seq<Value>)
    requires WellFormedList(idKey, list)
    ensures MergeList(idKey, list, list, []) == list
    decreases list
  {
    forall i | 0 <= i < |list|
      ensures Absorb(idKey, list[i], list[i]) == list[i] && Patched(idKey, list[i], list) == list[i]
    {
      MergeSelf(list[i].fields);
      FindMember(idKey, list, Id(idKey, list[i]));
    }
    MergeListClosed(idKey, list, list, []);
    FreshElements(idKey, list, list);
    if Fresh(idKey, list, list) != [] {
      var e := Fresh(idKey, list, list)[0];
      assert e in list;
      FindMember(idKey, list, Id(idKey, e));
    }
  }

  lemma {:induction false} MergeKeepsId(idKey: Option<string>, x: Dict, y: Dict)
    requires idKey.Some? && WellFormed(x)
    requires Get(x, idKey.value) == Get(y, idKey.value)
    ensures Get(Merge(x, y), idKey.value) == Get(x, idKey.value)
  {
    if idKey.value in x { MergeValueSelf(idKey.value, x[idKey.value]); }
  }

  lemma {:induction false} ListKeepsIds(idKey: Option<string>, base: seq<Value>, overlay: seq<Value>)
    requires idKey.Some? && WellFormedList(idKey, base)
    ensures KeepsIds(idKey, base, overlay)
  {
    forall i, j | 0 <= i < |base| && 0 <= j < |overlay|
      ensures Id(idKey, Absorb(idKey, base[i], overlay[j])) == Id(idKey, base[i])
    {
      if overlay[j].Obj? && Id(idKey, base[i]) == Id(idKey, overlay[j]) {
        MergeKeepsId(idKey, base[i].fields, overlay[j].fields);
      }
    }
  }

  // ---------------------------------------------------------------------------------------------------------
  // Merging keeps documents well-formed, and never raises on them

  lemma {:induction false} MergeWellFormed(b: Dict, o: Dict)
    requires WellFormed(b) && WellFormed(o)
    ensures WellFormed(Merge(b, o))
    decreases Obj(o), 0
  {
    forall k | k in b && k in o ensures WellFormedValue(k, MergeValue(k, b[k], o[k])) {
      MergeValueWellFormed(k, b[k], o[k]);
    }
  }

  lemma {:induction false} MergeValueWellFormed(key: string, b: Value, o: Value)
    requires WellFormedValue(key, b) && WellFormedValue(key, o)
    ensures WellFormedValue(key, MergeValue(key, b, o))
    decreases o, 1
  {
    if b.Obj? && o.Obj? {
      MergeWellFormed(b.fields, o.fields);
    } else if b.Arr? && o.Arr? && DictHeaded(b.items) {
      MergeListWellFormed(IdKey(key), b.items, o.items);
    }
  }

  lemma {:induction false} MergeListWellFormed(idKey: Option<string>, b: seq<Value>, o: seq<Value>)
    requires idKey.Some? && WellFormedList(idKey, b) && WellFormedList(idKey, o)
    ensures MergeList(idKey, b, o, []) == PatchedAll(idKey, b, o) + Fresh(idKey, b, o)
    ensures WellFormedList(idKey, MergeList(idKey, b, o, []))
    ensures forall i | 0 <= i < |b| :: Id(idKey, Patched(idKey, b[i], o)) == Id(idKey, b[i])
    decreases o, 0
  {
    ListKeepsIds(idKey, b, o);
    MergeListClosed(idKey, b, o, []);
    FreshElements(idKey, b, o);
    var patched, added := PatchedAll(idKey, b, o), Fresh(idKey, b, o);
    assert MergeList(idKey, b, o, []) == patched + added;
    forall i | 0 <= i < |b|
      ensures patched[i].Obj? && WellFormed(patched[i].fields) && Id(idKey, patched[i]) == Id(idKey, b[i])
    {
      FindMember(idKey, o, Id(idKey, b[i]));
      var found := Find(idKey, o, Id(idKey, b[i]));
      if found.Some? {
        assert found.value in o;
        MergeWellFormed(b[i].fields, found.value.fields);
      }
    }
    forall i, j | 0 <= i < |b| && 0 <= j < |added| ensures Id(idKey, patched[i]) != Id(idKey, added[j]) {
      assert added[j] in added;
      FindMember(idKey, b, Id(idKey, added[j]));
    }
    forall j | 0 <= j < |added| ensures added[j].Obj? && WellFormed(added[j].fields) {
      assert added[j] in o;
    }
  }

  lemma {:induction false} WellFormedMergeable(b: Dict, o: Dict)
    requires WellFormed(b) && WellFormed(o)
    ensures Mergeable(b, o)
    decreases Obj(o), 0
  {
    forall k | k in b && k in o ensures MergeableValue(k, b[k], o[k]) {
      if b[k].Obj? && o[k].Obj? {
        WellFormedMergeable(b[k].fields, o[k].fields);
      } else if b[k].Arr? && o[k].Arr? && DictHeaded(b[k].items) {
        WellFormedMergeableList(IdKey(k), b[k].items, o[k].items);
      }
    }
  }

  lemma {:induction false} WellFormedMergeableList(idKey: Option<string>, b: seq<Value>, o: seq<Value>)
    requires idKey.Some? && WellFormedList(idKey, b) && WellFormedList(idKey, o)
    ensures MergeableList(idKey, b, o)
    decreases o, 0
  {
    if o != [] {
      forall i | 0 <= i < |b| ensures Mergeable(b[i].fields, o[0].fields) {
        WellFormedMergeable(b[i].fields, o[0].fields);
      }
      assert o[0] == [o[0]][0] && [o[0]][1..] == [];
      MergeListWellFormed(idKey, b, [o[0]]);
      var next := AbsorbAll(idKey, b, o[0]);
      forall i | 0 <= i < |b| ensures next[i] == Patched(idKey, b[i], [o[0]]) {
        assert next[i] == Absorb(idKey, b[i], o[0]);
        assert Find(idKey, [], Id(idKey, b[i])).None?;
        assert Find(idKey, [o[0]], Id(idKey, b[i])) == if Id(idKey, o[0]) == Id(idKey, b[i]) then Some(o[0]) else None;
      }
      assert next == PatchedAll(idKey, b, [o[0]]);
      PrefixWellFormed(idKey, next, Fresh(idKey, b, [o[0]]));
      WellFormedMergeableList(idKey, next, o[1..]);
    }
  }

  lemma {:induction false} PrefixWellFormed(idKey: Option<string>, s: seq<Value>, t: seq<Value>)
    requires WellFormedList(idKey, s + t)
    ensures WellFormedList(idKey, s)
  {
    forall i | 0 <= i < |s| ensures s[i] == (s + t)[i] {}
    forall i, j | 0 <= i < j < |s| ensures Id(idKey, s[i]) != Id(idKey, s[j]) {
      assert s[i] == (s + t)[i] && s[j] == (s + t)[j];
    }
  }

  // ---------------------------------------------------------------------------------------------------------
  // Overlays compose

  lemma {:induction false} FindConcat(idKey: Option<string>, s: seq<Value>, t: seq<Value>, v: Value)
    ensures Find(idKey, s + t, v) == if Find(idKey, s, v).Some? then Find(idKey, s, v) else Find(idKey, t, v)
  {
    if s == [] {
      assert s + t == t;
    } else {
      assert (s + t)[1..] == s[1..] + t;
      FindConcat(idKey, s[1..], t, v);
    }
  }

  lemma {:induction false} FindFresh(idKey: Option<string>, b: seq<Value>, o: seq<Value>, v: Value)
    ensures Find(idKey, Fresh(idKey, b, o), v) == if Find(idKey, b, v).Some? then None else Find(idKey, o, v)
  {
    if o != [] {
      FindFresh(idKey, b, o[1..], v);
      FindConcat(idKey, if Find(idKey, b, Id(idKey, o[0])).Some? then [] else [o[0]], Fresh(idKey, b, o[1..]), v);
    }
  }

  lemma {:induction false} FindPatched(idKey: Option<string>, b: seq<Value>, o: seq<Value>, v: Value)
    requires forall i | 0 <= i < |b| :: Id(idKey, Patched(idKey, b[i], o)) == Id(idKey, b[i])
    ensures var found := Find(idKey, b, v);
      Find(idKey, PatchedAll(idKey, b, o), v) == if found.None? then None else Some(Patched(idKey, found.value, o))
  {
    if b != [] {
      assert PatchedAll(idKey, b, o)[1..] == PatchedAll(idKey, b[1..], o);
      FindPatched(idKey, b[1..], o, v);
    }
  }

  lemma PatchedConcat(idKey: Option<string>, s: seq<Value>, t: seq<Value>, o: seq<Value>)
    ensures PatchedAll(idKey, s + t, o) == PatchedAll(idKey, s, o) + PatchedAll(idKey, t, o)
  {
  }

  /** Patching the appended elements is the same as appending the patched elements. */
  lemma {:induction false} FreshPatched(idKey: Option<string>, b: seq<Value>, o1: seq<Value>, o2: seq<Value>)
    requires forall i | 0 <= i < |o1| :: Id(idKey, Patched(idKey, o1[i], o2)) == Id(idKey, o1[i])
    ensures PatchedAll(idKey, Fresh(idKey, b, o1), o2) == Fresh(idKey, b, PatchedAll(idKey, o1, o2))
  {
    if o1 != [] {
      var patched := PatchedAll(idKey, o1, o2);
      assert patched[1..] == PatchedAll(idKey, o1[1..], o2);
      FreshPatched(idKey, b, o1[1..], o2);
      var head := if Find(idKey, b, Id(idKey, o1[0])).Some? then [] else [o1[0]];
      assert Fresh(idKey, b, o1) == head + Fresh(idKey, b, o1[1..]);
      PatchedConcat(idKey, head, Fresh(idKey, b, o1[1..]), o2);
      assert PatchedAll(idKey, head, o2) == if head == [] then [] else [patched[0]];
    }
  }

  lemma {:induction false} FreshConcat(idKey: Option<string>, b: seq<Value>, s: seq<Value>, t: seq<Value>)
    ensures Fresh(idKey, b, s + t) == Fresh(idKey, b, s) + Fresh(idKey, b, t)
  {
    hide Find, Id;
    if s == [] {
      assert s + t == t;
    } else {
      assert (s + t)[1..] == s[1..] + t;
      FreshConcat(idKey, b, s[1..], t);
    }
  }

  /** What is new to `b` merged with `o1` is what is new to `o1` and then new to `b`. */
  lemma {:induction false} FreshTwice(idKey: Option<string>, m: seq<Value>, b: seq<Value>, o1: seq<Value>,
                                      o2: seq<Value>)
    requires forall v :: Find(idKey, m, v).Some? <==> Find(idKey, b, v).Some? || Find(idKey, o1, v).Some?
    ensures Fresh(idKey, m, o2) == Fresh(idKey, b, Fresh(idKey, o1, o2))
  {
    if o2 != [] {
      FreshTwice(idKey, m, b, o1, o2[1..]);
      assert ([o2[0]] + Fresh(idKey, o1, o2[1..]))[1..] == Fresh(idKey, o1, o2[1..]);
      assert [] + Fresh(idKey, o1, o2[1..]) == Fresh(idKey, o1, o2[1..]);
    }
  }

  lemma {:induction false} CoversExactly(o: Dict, b: Dict)
    requires WellFormed(o) && WellFormed(b)
    ensures Merge(b, o) == o <==> Covers(o, b)
    decreases Obj(o), 0
  {
    forall k | k in b && k in o ensures MergeValue(k, b[k], o[k]) == o[k] <==> CoversValue(k, o[k], b[k]) {
      if b[k].Obj? && o[k].Obj? {
        CoversExactly(o[k].fields, b[k].fields);
      } else if b[k].Arr? && o[k].Arr? && DictHeaded(b[k].items) {
        CoversListExactly(IdKey(k), o[k].items, b[k].items);
      }
    }
    if Merge(b, o) == o {
      assert Merge(b, o).Keys == b.Keys + o.Keys;
    }
  }

  lemma {:induction false} CoversListExactly(idKey: Option<string>, o: seq<Value>, b: seq<Value>)
    requires idKey.Some? && WellFormedList(idKey, o) && WellFormedList(idKey, b)
    ensures MergeList(idKey, b, o, []) == o <==> CoversList(idKey, o, b)
    decreases o, 0
  {
    MergeListWellFormed(idKey, b, o);
    var merged := MergeList(idKey, b, o, []);
    forall i | 0 <= i < |b| && i < |o| ensures Patched(idKey, b[i], o) == o[i] <==> CoversElement(idKey, o[i], b[i]) {
      FindMember(idKey, o, Id(idKey, b[i]));
      CoversExactly(o[i].fields, b[i].fields);
    }
    if CoversList(idKey, o, b) {
      FreshBehind(idKey, o, b);
      assert PatchedAll(idKey, b, o) == o[..|b|];
    }
    if merged == o {
      forall i | 0 <= i < |b| ensures CoversElement(idKey, o[i], b[i]) {
        assert merged[i] == Patched(idKey, b[i], o);
      }
    }
  }

  /** When an overlay begins with the ids of the base, the rest of it is what is new. */
  lemma {:induction false} FreshBehind(idKey: Option<string>, o: seq<Value>, b: seq<Value>)
    requires |b| <= |o| && DistinctIds(idKey, o) && forall i | 0 <= i < |b| :: Id(idKey, o[i]) == Id(idKey, b[i])
    ensures Fresh(idKey, b, o) == o[|b|..]
  {
    assert o == o[..|b|] + o[|b|..];
    FreshConcat(idKey, b, o[..|b|], o[|b|..]);
    forall i | 0 <= i < |o| ensures Find(idKey, b, Id(idKey, o[i])).Some? <==> i < |b| {
      FindMember(idKey, b, Id(idKey, o[i]));
    }
    NoneFresh(idKey, b, o[..|b|]);
    AllFresh(idKey, b, o[|b|..]);
  }

  lemma {:induction false} NoneFresh(idKey: Option<string>, b: seq<Value>, o: seq<Value>)
    requires forall i | 0 <= i < |o| :: Find(idKey, b, Id(idKey, o[i])).Some?
    ensures Fresh(idKey, b, o) == []
  {
    if o != [] { NoneFresh(idKey, b, o[1..]); }
  }

  lemma {:induction false} AllFresh(idKey: Option<string>, b: seq<Value>, o: seq<Value>)
    requires forall i | 0 <= i < |o| :: Find(idKey, b, Id(idKey, o[i])).None?
    ensures Fresh(idKey, b, o) == o
  {
    if o != [] { AllFresh(idKey, b, o[1..]); }
  }

  /** Both orders of merging give the same value. */
  predicate Agree(key: string, b: Value, o1: Value, o2: Value) {
    MergeValue(key, MergeValue(key, b, o1), o2) == MergeValue(key, b, MergeValue(key, o1, o2))
  }

  /** Only where all three documents have a key can the two orders differ. */
  lemma AgreePointwise(b: Dict, o1: Dict, o2: Dict)
    ensures Merge(Merge(b, o1), o2) == Merge(b, Merge(o1, o2))
      <==> forall k | k in b && k in o1 && k in o2 :: Agree(k, b[k], o1[k], o2[k])
  {
    hide Merge, Agree;
    var left, right := Merge(Merge(b, o1), o2), Merge(b, Merge(o1, o2));
    forall k
      ensures k in left <==> k in right
      ensures k in left ==>
        (left[k] == right[k] <==> (k in b && k in o1 && k in o2 ==> Agree(k, b[k], o1[k], o2[k])))
      ensures k in b ==> k in left
    {
      AgreeAt(b, o1, o2, k);
    }
    if forall k | k in b && k in o1 && k in o2 :: Agree(k, b[k], o1[k], o2[k]) {
      assert left.Keys == right.Keys && forall k | k in left :: left[k] == right[k];
    }
  }

  lemma AgreeAt(b: Dict, o1: Dict, o2: Dict, k: string)
    ensures var left, right := Merge(Merge(b, o1), o2), Merge(b, Merge(o1, o2));
      && (k in left <==> k in b || k in o1 || k in o2) && (k in right <==> k in left)
      && (k in left ==>
            (left[k] == right[k] <==> (k in b && k in o1 && k in o2 ==> Agree(k, b[k], o1[k], o2[k]))))
  {
    hide MergeValue;
  }

  /** Overlays compose exactly when the condition holds. */
  lemma {:induction false} ComposesExactly(b: Dict, o1: Dict, o2: Dict)
    requires WellFormed(b) && WellFormed(o1) && WellFormed(o2)
    ensures Merge(Merge(b, o1), o2) == Merge(b, Merge(o1, o2)) <==> Composes(b, o1, o2)
    decreases Obj(o2), 0
  {
    AgreePointwise(b, o1, o2);
    hide Merge, Agree;
    forall k | k in b && k in o1 && k in o2
      ensures Agree(k, b[k], o1[k], o2[k]) <==> ComposesValue(k, b[k], o1[k], o2[k])
    {
      ValueComposesExactly(k, b[k], o1[k], o2[k]);
    }
  }

  lemma {:induction false} ValueComposesExactly(key: string, b: Value, o1: Value, o2: Value)
    requires WellFormedValue(key, b) && WellFormedValue(key, o1) && WellFormedValue(key, o2)
    ensures Agree(key, b, o1, o2) <==> ComposesValue(key, b, o1, o2)
    decreases o2, 1
  {
    if b.Obj? && o2.Obj? {
      if o1.Obj? {
        ComposesExactly(b.fields, o1.fields, o2.fields);
      } else {
        CoversExactly(o2.fields, b.fields);
      }
    } else if b.Arr? && DictHeaded(b.items) && o2.Arr? {
      if o1.Arr? {
        MergeListWellFormed(IdKey(key), b.items, o1.items);
        assert DictHeaded(MergeList(IdKey(key), b.items, o1.items, []));
        if DictHeaded(o1.items) {
          ListComposesExactly(IdKey(key), b.items, o1.items, o2.items);
        } else {
          assert b.items + [] == b.items;
        }
      } else {
        CoversListExactly(IdKey(key), o2.items, b.items);
      }
    }
  }

  lemma {:induction false} ListComposesExactly(idKey: Option<string>, b: seq<Value>, o1: seq<Value>,
                                               o2: seq<Value>)
    requires idKey.Some?
    requires WellFormedList(idKey, b) && WellFormedList(idKey, o1) && WellFormedList(idKey, o2)
    ensures MergeList(idKey, MergeList(idKey, b, o1, []), o2, [])
         == MergeList(idKey, b, MergeList(idKey, o1, o2, []), [])
      <==> ComposesList(idKey, b, o1, o2)
    decreases o2, 2
  {
    MergeListWellFormed(idKey, b, o1);
    MergeListWellFormed(idKey, o1, o2);
    var left, right := MergeList(idKey, b, o1, []), MergeList(idKey, o1, o2, []);
    MergeListWellFormed(idKey, left, o2);
    MergeListWellFormed(idKey, b, right);
    AppendedComposes(idKey, b, o1, o2);
    PatchedAllComposes(idKey, b, o1, o2);
    SamePrefix(PatchedAll(idKey, PatchedAll(idKey, b, o1), o2), PatchedAll(idKey, b, right), Fresh(idKey, b, right));
  }

  lemma SamePrefix(s: seq<Value>, t: seq<Value>, u: seq<Value>)
    requires |s| == |t|
    ensures s + u == t + u <==> s == t
  {
    assert s == (s + u)[..|s|] && t == (t + u)[..|t|];
  }

  /** Both orders of merging append the same elements, in the same order. */
  lemma {:induction false} AppendedComposes(idKey: Option<string>, b: seq<Value>, o1: seq<Value>, o2: seq<Value>)
    requires forall i | 0 <= i < |b| :: Id(idKey, Patched(idKey, b[i], o1)) == Id(idKey, b[i])
    requires forall i | 0 <= i < |o1| :: Id(idKey, Patched(idKey, o1[i], o2)) == Id(idKey, o1[i])
    ensures var left := PatchedAll(idKey, b, o1) + Fresh(idKey, b, o1);
      var right := PatchedAll(idKey, o1, o2) + Fresh(idKey, o1, o2);
      PatchedAll(idKey, left, o2) + Fresh(idKey, left, o2)
        == PatchedAll(idKey, PatchedAll(idKey, b, o1), o2) + Fresh(idKey, b, right)
  {
    var added := Fresh(idKey, b, o1);
    var left := PatchedAll(idKey, b, o1) + added;
    PatchedConcat(idKey, PatchedAll(idKey, b, o1), added, o2);
    FreshPatched(idKey, b, o1, o2);
    FreshConcat(idKey, b, PatchedAll(idKey, o1, o2), Fresh(idKey, o1, o2));
    forall v ensures Find(idKey, left, v).Some? <==> Find(idKey, b, v).Some? || Find(idKey, o1, v).Some? {
      FindConcat(idKey, PatchedAll(idKey, b, o1), added, v);
      FindPatched(idKey, b, o1, v);
      FindFresh(idKey, b, o1, v);
    }
    FreshTwice(idKey, left, b, o1, o2);
  }

  lemma {:induction false} PatchedAllComposes(idKey: Option<string>, b: seq<Value>, o1: seq<Value>, o2: seq<Value>)
    requires idKey.Some?
    requires WellFormedList(idKey, b) && WellFormedList(idKey, o1) && WellFormedList(idKey, o2)
    ensures PatchedAll(idKey, PatchedAll(idKey, b, o1), o2)
         == PatchedAll(idKey, b, PatchedAll(idKey, o1, o2) + Fresh(idKey, o1, o2))
      <==> ComposesList(idKey, b, o1, o2)
    decreases o2, 1
  {
    var left := PatchedAll(idKey, PatchedAll(idKey, b, o1), o2);
    var right := PatchedAll(idKey, b, PatchedAll(idKey, o1, o2) + Fresh(idKey, o1, o2));
    forall i | 0 <= i < |b| ensures left[i] == right[i] <==> ComposesAt(idKey, b[i], o1, o2) {
      PatchedComposes(idKey, b, o1, o2, i);
    }
    assert ComposesList(idKey, b, o1, o2) <==> forall i | 0 <= i < |b| :: ComposesAt(idKey, b[i], o1, o2);
  }

  ghost predicate ComposesAt(idKey: Option<string>, x: Value, o1: seq<Value>, o2: seq<Value>) {
    forall j, l | 0 <= j < |o1| && 0 <= l < |o2| :: ComposesElement(idKey, x, o1[j], o2[l])
  }

  lemma {:induction false} PatchedComposes(idKey: Option<string>, b: seq<Value>, o1: seq<Value>, o2: seq<Value>,
                                           i: nat)
    requires idKey.Some? && i < |b|
    requires WellFormedList(idKey, b) && WellFormedList(idKey, o1) && WellFormedList(idKey, o2)
    ensures Patched(idKey, Patched(idKey, b[i], o1), o2)
         == Patched(idKey, b[i], PatchedAll(idKey, o1, o2) + Fresh(idKey, o1, o2))
      <==> ComposesAt(idKey, b[i], o1, o2)
    decreases o2, 0
  {
    var x, v := b[i], Id(idKey, b[i]);
    MergeListWellFormed(idKey, b, o1);
    MergeListWellFormed(idKey, o1, o2);
    FindConcat(idKey, PatchedAll(idKey, o1, o2), Fresh(idKey, o1, o2), v);
    FindPatched(idKey, o1, o2, v);
    FindFresh(idKey, o1, o2, v);
    FindMember(idKey, o1, v);
    FindMember(idKey, o2, v);
    var y, z := Find(idKey, o1, v), Find(idKey, o2, v);
    hide ComposesAt, DistinctIds;
    if y.Some? && z.Some? {
      var j :| 0 <= j < |o1| && o1[j] == y.value;
      var l :| 0 <= l < |o2| && o2[l] == z.value;
      ComposesExactly(x.fields, y.value.fields, z.value.fields);
      OneMatch(idKey, x, o1, o2, j, l);
    } else {
      NoMatch(idKey, x, o1, o2);
    }
  }

  lemma OneMatch(idKey: Option<string>, x: Value, o1: seq<Value>, o2: seq<Value>, j: nat, l: nat)
    requires DistinctIds(idKey, o1) && DistinctIds(idKey, o2)
    requires j < |o1| && l < |o2| && Id(idKey, o1[j]) == Id(idKey, o2[l]) == Id(idKey, x)
    ensures ComposesAt(idKey, x, o1, o2) <==> ComposesElement(idKey, x, o1[j], o2[l])
  {
    hide Id, Composes;
    forall m, n | 0 <= m < |o1| && 0 <= n < |o2| && !(m == j && n == l)
      ensures ComposesElement(idKey, x, o1[m], o2[n])
    {
    }
  }

  lemma NoMatch(idKey: Option<string>, x: Value, o1: seq<Value>, o2: seq<Value>)
    requires Find(idKey, o1, Id(idKey, x)).None? || Find(idKey, o2, Id(idKey, x)).None?
    ensures ComposesAt(idKey, x, o1, o2)
  {
    hide Id, Composes;
    FindMember(idKey, o1, Id(idKey, x));
    FindMember(idKey, o2, Id(idKey, x));
  }

  // ---------------------------------------------------------------------------------------------------------
  // Main results

  /** The kinds agree: where `b` and `o2` would be merged into each other, `o1` holds a value of the same kind. */
  ghost predicate Composable(b: Dict, o1: Dict, o2: Dict)
    decreases Obj(o2), 0
  {
    forall k | k in b && k in o1 && k in o2 :: ComposableValue(k, b[k], o1[k], o2[k])
  }

  ghost predicate ComposableValue(key: string, b: Value, o1: Value, o2: Value)
    decreases o2, 1
  {
    && (b.Obj? && o2.Obj? ==> o1.Obj? && Composable(b.fields, o1.fields, o2.fields))
    && (b.Arr? && DictHeaded(b.items) && o2.Arr? ==>
          o1.Arr? && ComposableList(IdKey(key), b.items, o1.items, o2.items))
  }

  ghost predicate ComposableList(idKey: Option<string>, b: seq<Value>, o1: seq<Value>, o2: seq<Value>)
    decreases o2, 0
  {
    forall i, j, l | 0 <= i < |b| && 0 <= j < |o1| && 0 <= l < |o2| :: ComposableElement(idKey, b[i], o1[j], o2[l])
  }

  ghost predicate ComposableElement(idKey: Option<string>, x: Value, y: Value, z: Value)
    decreases z, 1
  {
    x.Obj? && y.Obj? && z.Obj? && Id(idKey, x) == Id(idKey, y) == Id(idKey, z) ==>
      Composable(x.fields, y.fields, z.fields)
  }

  lemma {:induction false} ComposableComposes(b: Dict, o1: Dict, o2: Dict)
    requires Composable(b, o1, o2)
    ensures Composes(b, o1, o2)
    decreases Obj(o2), 0
  {
    forall k | k in b && k in o1 && k in o2 ensures ComposesValue(k, b[k], o1[k], o2[k]) {
      if b[k].Obj? && o2[k].Obj? {
        ComposableComposes(b[k].fields, o1[k].fields, o2[k].fields);
      } else if b[k].Arr? && DictHeaded(b[k].items) && o2[k].Arr? {
        var idKey, bs, ys, zs := IdKey(k), b[k].items, o1[k].items, o2[k].items;
        forall i, j, l | 0 <= i < |bs| && 0 <= j < |ys| && 0 <= l < |zs|
          ensures ComposesElement(idKey, bs[i], ys[j], zs[l])
        {
          assert ComposableList(idKey, bs, ys, zs);
          assert ComposableElement(idKey, bs[i], ys[j], zs[l]);
          if bs[i].Obj? && ys[j].Obj? && zs[l].Obj? && Id(idKey, bs[i]) == Id(idKey, ys[j]) == Id(idKey, zs[l]) {
            ComposableComposes(bs[i].fields, ys[j].fields, zs[l].fields);
          }
        }
      }
    }
  }

  /** Overlays compose when the kinds agree. */
  lemma MergeComposes(b: Dict, o1: Dict, o2: Dict)
    requires WellFormed(b) && WellFormed(o1) && WellFormed(o2) && Composable(b, o1, o2)
    ensures Merge(Merge(b, o1), o2) == Merge(b, Merge(o1, o2))
  {
    ComposableComposes(b, o1, o2);
    ComposesExactly(b, o1, o2);
  }

  lemma {:induction false} SameOverlayComposable(b: Dict, o: Dict)
    requires WellFormed(b) && WellFormed(o)
    ensures Composable(b, o, o)
    decreases Obj(o), 0
  {
    forall k | k in b && k in o ensures ComposableValue(k, b[k], o[k], o[k]) {
      if b[k].Obj? && o[k].Obj? {
        SameOverlayComposable(b[k].fields, o[k].fields);
      } else if b[k].Arr? && o[k].Arr? && DictHeaded(b[k].items) {
        SameOverlayComposableList(IdKey(k), b[k].items, o[k].items);
      }
    }
  }

  lemma {:induction false} SameOverlayComposableList(idKey: Option<string>, b: seq<Value>, o: seq<Value>)
    requires WellFormedList(idKey, b) && WellFormedList(idKey, o)
    ensures ComposableList(idKey, b, o, o)
    decreases o, 0
  {
    forall i, j, l | 0 <= i < |b| && 0 <= j < |o| && 0 <= l < |o| ensures ComposableElement(idKey, b[i], o[j], o[l]) {
      if Id(idKey, o[j]) == Id(idKey, o[l]) {
        assert j == l;
        SameOverlayComposable(b[i].fields, o[l].fields);
      }
    }
  }

  /** Applying the same overlay again changes nothing. */
  lemma MergeIdempotent(b: Dict, o: Dict)
    requires WellFormed(b) && WellFormed(o)
    ensures Merge(Merge(b, o), o) == Merge(b, o)
  {
    SameOverlayComposable(b, o);
    MergeComposes(b, o, o);
    MergeSelf(o);
  }

  /** Composition needs its kind condition: an overlay that replaces a dict by a scalar, followed by one that
      writes a dict again, is not the merge of the two. */
  lemma KindClashDoesNotCompose()
    ensures var b, o1, o2 := map["a" := Obj(map["x" := Int(1)])], map["a" := Null], map["a" := Obj(map[])];
      && WellFormed(b) && WellFormed(o1) && WellFormed(o2) && !Composable(b, o1, o2)
      && Merge(Merge(b, o1), o2) != Merge(b, Merge(o1, o2))
  {
    var b, o1, o2 := map["a" := Obj(map["x" := Int(1)])], map["a" := Null], map["a" := Obj(map[])];
    assert Merge(Merge(b, o1), o2)["a"] == Obj(map[]);
    assert Merge(o1, o2)["a"] == Obj(map[]);
    assert Merge(b, Merge(o1, o2))["a"] == Obj(Merge(map["x" := Int(1)], map[]));
    assert "x" in Merge(map["x" := Int(1)], map[]);
  }

  // ---------------------------------------------------------------------------------------------------------
  // What the merged document holds, path by path

  /** `v` holds something that is not a dict at a proper prefix of `path`. */
  ghost predicate Blocks(v: Value, path: seq<string>) {
    exists n | 0 <= n < |path| :: AtPath(v, path[..n]).Some? && !AtPath(v, path[..n]).value.Obj?
  }

  predicate BothDicts(v: Value, w: Value) {
    v.Obj? && w.Obj?
  }

  predicate DictLists(v: Value, w: Value) {
    v.Arr? && w.Arr? && v.items != [] && v.items[0].Obj?
  }

  /** The overlay always wins, with whatever lay below in the base gone, except where a dict meets a dict or a list
      meets a list that begins with a dict; what the overlay does not mention is the base's. */
  lemma {:induction false} MergePath(b: Dict, o: Dict, path: seq<string>)
    requires path != []
    ensures var left, right := AtPath(Obj(b), path), AtPath(Obj(o), path);
      AtPath(Obj(Merge(b, o)), path)
        == if right.Some? then
             Some(if left.Some? then MergeValue(path[|path| - 1], left.value, right.value) else right.value)
           else if Blocks(Obj(o), path) then None
           else left
    ensures var left, right := AtPath(Obj(b), path), AtPath(Obj(o), path);
      right.Some? && !(left.Some? && (BothDicts(left.value, right.value) || DictLists(left.value, right.value))) ==>
        AtPath(Obj(Merge(b, o)), path) == right
    decreases |path|
  {
    var k, rest := path[0], path[1..];
    forall n | 0 < n < |path| ensures path[..n][0] == k && path[..n][1..] == rest[..n - 1] {}
    assert AtPath(Obj(o), path[..0]) == Some(Obj(o));
    if rest != [] && k in o {
      BlocksBelow(o, path);
      if k in b && b[k].Obj? && o[k].Obj? {
        MergePath(b[k].fields, o[k].fields, rest);
      } else if !o[k].Obj? {
        assert AtPath(o[k], rest[..0]) == Some(o[k]);
      }
    } else if k !in o {
      assert !Blocks(Obj(o), path);
    }
  }

  lemma {:induction false} BlocksBelow(o: Dict, path: seq<string>)
    requires path != [] && path[0] in o
    ensures Blocks(Obj(o), path) <==> Blocks(o[path[0]], path[1..])
  {
    var rest := path[1..];
    forall n | 0 < n <= |path| ensures AtPath(Obj(o), path[..n]) == AtPath(o[path[0]], rest[..n - 1]) {
      assert path[..n][0] == path[0] && path[..n][1..] == rest[..n - 1];
    }
    if m :| 0 <= m < |rest| && AtPath(o[path[0]], rest[..m]).Some? && !AtPath(o[path[0]], rest[..m]).value.Obj? {
      assert AtPath(Obj(o), path[..m + 1]) == AtPath(o[path[0]], rest[..m]);
    }
    assert AtPath(Obj(o), path[..0]) == Some(Obj(o));
  }
}
