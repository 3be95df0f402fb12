/** The overlay merge: one JSON tree is merged into another at every depth, lists of dicts element by element. */
module Overlay {
  import opened Json

  /** The key by which the elements of a list of dicts are matched, for a list stored under `key`. */
  function IdKey(key: string): Option<string> {
    if key == "availableResources" then Some("name")
    else if key == "resourceEntitlements" then Some("type")
    else if key == "overrides" then Some("selector")
    else None
  }

  /** `element.get(id_key)`. Without an id key every element has the same (null) id. */
  function Id(idKey: Option<string>, element: Value): Value {
    if idKey.Some? && element.Obj? then Get(element.fields, idKey.value) else Null
  }

  /** The first element of `list` with id `v`. */
  function Find(idKey: Option<string>, list: seq<Value>, v: Value): Option<Value> {
    if list == [] then None
    else if Id(idKey, list[0]) == v then Some(list[0])
    else Find(idKey, list[1..], v)
  }

  predicate DictHeaded(list: seq<Value>) {
    list != [] && list[0].Obj?
  }

  // ---------------------------------------------------------------------------------------------------------
  // What the merge computes

  function Merge(base: Dict, overlay: Dict): Dict
    decreases Obj(overlay), 0
  {
    map k | k in base.Keys + overlay.Keys ::
      if k !in overlay then base[k] else if k !in base then overlay[k] else MergeValue(k, base[k], overlay[k])
  }

  function MergeValue(key: string, base: Value, overlay: Value): Value
    decreases overlay, 1
  {
    if base.Obj? && overlay.Obj? then Obj(Merge(base.fields, overlay.fields))
    else if base.Arr? && overlay.Arr? && DictHeaded(base.items) then
      Arr(MergeList(IdKey(key), base.items, overlay.items, []))
    else overlay
  }

  /** Overlay elements are taken in order; those that match no base element wait in `pending` and are appended
      after all the others, so two of them with one id are both appended. */
  function MergeList(idKey: Option<string>, base: seq<Value>, overlay: seq<Value>, pending: seq<Value>): seq<Value>
    decreases overlay
  {
    if overlay == [] then base + pending
    else if Find(idKey, base, Id(idKey, overlay[0])).Some? then
      MergeList(idKey, AbsorbAll(idKey, base, overlay[0]), overlay[1..], pending)
    else MergeList(idKey, base, overlay[1..], pending + [overlay[0]])
  }

  /** `element` is merged into every base element with the same id. */
  function AbsorbAll(idKey: Option<string>, base: seq<Value>, element: Value): seq<Value>
    decreases element, 2
  {
    seq(|base|, i requires 0 <= i < |base| => Absorb(idKey, base[i], element))
  }

  function Absorb(idKey: Option<string>, x: Value, element: Value): Value
    decreases element, 1
  {
    if x.Obj? && element.Obj? && Id(idKey, x) == Id(idKey, element) then Obj(Merge(x.fields, element.fields)) else x
  }

  // ---------------------------------------------------------------------------------------------------------
  // When the merge raises: an element of a list of dicts that is not a dict has no `get`.

  ghost predicate Mergeable(base: Dict, overlay: Dict)
    decreases Obj(overlay), 0
  {
    forall k | k in base && k in overlay :: MergeableValue(k, base[k], overlay[k])
  }

  ghost predicate MergeableValue(key: string, base: Value, overlay: Value)
    decreases overlay, 1
  {
    && (base.Obj? && overlay.Obj? ==> Mergeable(base.fields, overlay.fields))
    && (base.Arr? && overlay.Arr? && DictHeaded(base.items) ==>
          MergeableList(IdKey(key), base.items, overlay.items))
  }

  ghost predicate MergeableList(idKey: Option<string>, base: seq<Value>, overlay: seq<Value>)
    decreases overlay
  {
    overlay == [] ||
    (&& MergeableElement(idKey, base, overlay[0])
     && MergeableList(idKey, AbsorbAll(idKey, base, overlay[0]), overlay[1..]))
  }

  ghost predicate MergeableElement(idKey: Option<string>, base: seq<Value>, element: Value)
    decreases element, 1
  {
    && element.Obj?
    && forall i | 0 <= i < |base| ::
         base[i].Obj? && (Id(idKey, base[i]) == Id(idKey, element) ==> Mergeable(base[i].fields, element.fields))
  }

  // ---------------------------------------------------------------------------------------------------------
  // The code

  method DepthFirstMergeOverlayDict(base: Dict, overlay: Dict) returns (r: Result<Dict>)
    ensures r.Success? <==> Mergeable(base, overlay)
    ensures r.Success? ==> r.value == Merge(base, overlay)
    decreases Obj(overlay), 0
  {
    var merged := base;
    var todo := overlay.Keys;
    while todo != {}
      invariant todo <= overlay.Keys
      invariant merged.Keys == base.Keys + (overlay.Keys - todo)
      invariant forall k | k in merged :: (merged[k] ==
        if k in todo || k !in overlay then base[k]
        else if k !in base then overlay[k]
        else MergeValue(k, base[k], overlay[k]))
      invariant forall k | k in base && k in overlay && k !in todo :: MergeableValue(k, base[k], overlay[k])
    {
      var key :| key in todo;
      var value := overlay[key];
      if key in merged && merged[key].Obj? && value.Obj? {
        var sub := DepthFirstMergeOverlayDict(merged[key].fields, value.fields);
        if sub.Failure? {
          assert !MergeableValue(key, base[key], overlay[key]);
          return Failure(sub.error);
        }
        merged := merged[key := Obj(sub.value)];
      } else if key in merged && merged[key].Arr? && value.Arr? && DictHeaded(merged[key].items) {
        var sub := UpdateDictList(merged[key].items, value.items, key);
        if sub.Failure? {
          assert !MergeableValue(key, base[key], overlay[key]);
          return Failure(sub.error);
        }
        merged := merged[key := Arr(sub.value)];
      } else {
        merged := merged[key := value];
      }
      todo := todo - {key};
    }
    r := Success(merged);
  }

  method UpdateDictList(baseValues: seq<Value>, overlayValues: seq<Value>, key: string)
    returns (r: Result<seq<Value>>)
    requires baseValues != []
    ensures r.Success? <==> MergeableList(IdKey(key), baseValues, overlayValues)
    ensures r.Success? ==> r.value == MergeList(IdKey(key), baseValues, overlayValues, [])
    decreases overlayValues
  {
    var idKey := IdKey(key);
    var values := baseValues;
    var toAppend := [];
    var j := 0;
    while j < |overlayValues|
      invariant 0 <= j <= |overlayValues|
      invariant |values| == |baseValues|
      invariant MergeList(idKey, values, overlayValues[j..], toAppend)
             == MergeList(idKey, baseValues, overlayValues, [])
      invariant MergeableList(idKey, values, overlayValues[j..])
           <==> MergeableList(idKey, baseValues, overlayValues)
    {
      var element := overlayValues[j];
      assert overlayValues[j..][0] == element && overlayValues[j..][1..] == overlayValues[j + 1..];
      var replaced := ReplaceMatches(idKey, values, element);
      if replaced.Failure? { return Failure(replaced.error); }
      FindMember(idKey, values, Id(idKey, element));
      var wasReplaced := replaced.value.1;
      values := replaced.value.0;
      if !wasReplaced { toAppend := toAppend + [element]; }
      j := j + 1;
    }
    r := Success(values + toAppend);
  }

  /** The inner loop of `update_dict_list`. */
  method ReplaceMatches(idKey: Option<string>, baseValues: seq<Value>, element: Value)
    returns (r: Result<(seq<Value>, bool)>)
    requires baseValues != []
    ensures r.Success? <==> MergeableElement(idKey, baseValues, element)
    ensures r.Success? ==>
      && r.value.0 == AbsorbAll(idKey, baseValues, element)
      && (r.value.1 <==> exists m | 0 <= m < |baseValues| :: Id(idKey, baseValues[m]) == Id(idKey, element))
      && (!r.value.1 ==> r.value.0 == baseValues)
    decreases element, 2
  {
    var values := baseValues;
    var wasReplaced := false;
    var i := 0;
    while i < |values|
      invariant 0 <= i <= |values| == |baseValues|
      invariant forall m | i <= m < |values| :: values[m] == baseValues[m]
      invariant forall m | 0 <= m < i :: values[m] == Absorb(idKey, baseValues[m], element)
      invariant wasReplaced <==> exists m | 0 <= m < i :: Id(idKey, baseValues[m]) == Id(idKey, element)
      invariant i > 0 ==> element.Obj?
      invariant forall m | 0 <= m < i ::
        && baseValues[m].Obj?
        && (Id(idKey, baseValues[m]) == Id(idKey, element) ==> Mergeable(baseValues[m].fields, element.fields))
    {
      if !values[i].Obj? || !element.Obj? { return Failure(AttributeError); }
      if Id(idKey, values[i]) == Id(idKey, element) {
        var sub := DepthFirstMergeOverlayDict(values[i].fields, element.fields);
        if sub.Failure? { return Failure(sub.error); }
        values := values[i := Obj(sub.value)];
        wasReplaced := true;
      }
      i := i + 1;
    }
    r := Success((values, wasReplaced));
  }

  lemma {:induction false} FindMember(idKey: Option<string>, list: seq<Value>, v: Value)
    ensures Find(idKey, list, v).Some? <==> exists m | 0 <= m < |list| :: Id(idKey, list[m]) == v
    ensures Find(idKey, list, v).Some? ==>
      Find(idKey, list, v).value in list && Id(idKey, Find(idKey, list, v).value) == v
  {
    if list != [] {
      FindMember(idKey, list[1..], v);
      if Id(idKey, list[0]) != v {
        forall m | 0 < m < |list| ensures list[m] == list[1..][m - 1] {}
        if m :| 0 <= m < |list| && Id(idKey, list[m]) == v {
          assert list[1..][m - 1] == list[m];
        }
      }
    }
  }
}
