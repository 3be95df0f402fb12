/** Contract overrides: selected by weight, then layered over an entitlement. */
module Overrides {
  import opened Json

  const OVERRIDE_SELECTOR_WEIGHTS: map<string, nat> :=
    map["series_overrides" := 1, "series" := 2, "cloud" := 3, "variant" := 4]

  /** More than any sum of the selector weights. */
  const WEIGHT_BOUND: nat := 11

  datatype Override = Override(selector: Dict, body: Dict)

  // ---------------------------------------------------------------------------------------------------------
  // Weights

  predicate Matches(selector: Dict, values: Dict) {
    forall k | k in selector :: k in values && selector[k] == values[k]
  }

  function KeyWeight(keys: set<string>, k: string): nat {
    if k in keys && k in OVERRIDE_SELECTOR_WEIGHTS then OVERRIDE_SELECTOR_WEIGHTS[k] else 0
  }

  function TotalWeight(keys: set<string>): nat {
    KeyWeight(keys, "series_overrides") + KeyWeight(keys, "series") + KeyWeight(keys, "cloud")
    + KeyWeight(keys, "variant")
  }

  function Weight(selector: Dict, values: Dict): nat {
    if Matches(selector, values) then TotalWeight(selector.Keys) else 0
  }

  method GetOverrideWeight(selector: Dict, values: Dict) returns (weight: nat)
    requires values.Keys <= OVERRIDE_SELECTOR_WEIGHTS.Keys
    ensures weight == Weight(selector, values)
  {
    weight := 0;
    var todo := selector.Keys;
    while todo != {}
      invariant todo <= selector.Keys
      invariant forall k | k in selector && k !in todo :: k in values && selector[k] == values[k]
      invariant weight == TotalWeight(selector.Keys - todo)
    {
      var name :| name in todo;
      if name !in values || values[name] != selector[name] { return 0; }
      weight := weight + OVERRIDE_SELECTOR_WEIGHTS[name];
      todo := todo - {name};
    }
    assert selector.Keys - todo == selector.Keys;
  }

  function SelectorValues(series: string, cloud: Option<string>, variant: Option<string>): (values: Dict) {
    map["series" := Str(series), "cloud" := if cloud.Some? then Str(cloud.value) else Null]
    + if variant.Some? && variant.value != "" then map["variant" := Str(variant.value)] else map[]
  }

  // ---------------------------------------------------------------------------------------------------------
  // Selection

  /** The elements that a Python `for` finds in the entitlement's own overrides, which may be absent. */
  function OverrideElements(entitlement: Dict): Result<seq<Value>> {
    if "overrides" !in entitlement then Success([])
    else match entitlement["overrides"]
      case Arr(items) => Success(items)
      case Obj(fields) => if fields == map[] then Success([]) else Failure(AttributeError)
      case Str(s) => if s == "" then Success([]) else Failure(AttributeError)
      case _ => Failure(TypeError)
  }

  function ReadOverride(element: Value): Result<Override> {
    if !element.Obj? then Failure(if element.Arr? then TypeError else AttributeError)
    else if "selector" !in element.fields then Failure(KeyError)
    else if !element.fields["selector"].Obj? then Failure(AttributeError)
    else Success(Override(element.fields["selector"].fields, element.fields - {"selector"}))
  }

  function ReadOverrides(elements: seq<Value>): Result<seq<Override>> {
    if elements == [] then Success([])
    else
      var init := ReadOverrides(elements[..|elements| - 1]);
      if init.Failure? then init
      else
        var last := ReadOverride(elements[|elements| - 1]);
        if last.Failure? then Failure(last.error) else Success(init.value + [last.value])
  }

  /** Overrides keyed by weight: a later override takes the place of an earlier one of the same weight. */
  function ByWeight(overrides: seq<Override>, values: Dict): map<nat, Dict> {
    if overrides == [] then map[]
    else
      var init, last := ByWeight(overrides[..|overrides| - 1], values), overrides[|overrides| - 1];
      var weight := Weight(last.selector, values);
      if weight != 0 then init[weight := last.body] else init
  }

  /** What the entitlement's `series` holds for this series; the code pops it. */
  function SeriesLayer(entitlement: Dict, series: string): Result<Value> {
    if "series" !in entitlement then Success(Obj(map[]))
    else if entitlement["series"].Obj? then
      Success(if series in entitlement["series"].fields then entitlement["series"].fields[series] else Obj(map[]))
    else Failure(if entitlement["series"].Arr? then TypeError else AttributeError)
  }

  predicate Truthy(v: Value) {
    match v
    case Null => false
    case Bool(b) => b
    case Int(n) => n != 0
    case Str(s) => s != ""
    case Arr(items) => items != []
    case Obj(fields) => fields != map[]
    case _ => true
  }

  function Selected(entitlement: Dict, series: string, values: Dict): Result<map<nat, Dict>> {
    var seriesLayer := SeriesLayer(entitlement, series);
    if seriesLayer.Failure? then Failure(seriesLayer.error)
    else
      var elements := OverrideElements(entitlement);
      if elements.Failure? then Failure(elements.error)
      else
        var overrides := ReadOverrides(elements.value);
        if overrides.Failure? then Failure(overrides.error)
        else if Truthy(seriesLayer.value) && !seriesLayer.value.Obj? then Failure(AttributeError)
        else if Truthy(seriesLayer.value) then
          Success(map[1 := seriesLayer.value.fields] + ByWeight(overrides.value, values))
        else Success(ByWeight(overrides.value, values))
  }

  method SelectOverrides(entitlement: Dict, series: string, cloud: Option<string>, variant: Option<string>)
    returns (rest: Dict, r: Result<map<nat, Dict>>)
    ensures r == Selected(entitlement, series, SelectorValues(series, cloud, variant))
    ensures r.Success? ==> rest == entitlement - {"series"}
  {
    hide ReadOverrides, ByWeight, Truthy;
    rest := entitlement;
    var overrides: map<nat, Dict> := map[];
    var values: Dict := map["series" := Str(series), "cloud" := if cloud.Some? then Str(cloud.value) else Null];
    if variant.Some? && variant.value != "" { values := values["variant" := Str(variant.value)]; }
    assert values == SelectorValues(series, cloud, variant);
    var seriesLayer := SeriesLayer(entitlement, series);
    if seriesLayer.Failure? { return rest, Failure(seriesLayer.error); }
    rest := rest - {"series"};
    if Truthy(seriesLayer.value) && seriesLayer.value.Obj? {
      overrides := overrides[OVERRIDE_SELECTOR_WEIGHTS["series_overrides"] := seriesLayer.value.fields];
    }
    ghost var first := overrides;
    var elements := OverrideElements(entitlement);
    if elements.Failure? { return rest, Failure(elements.error); }
    var general := WeighOverrides(elements.value, values);
    if general.Failure? { return rest, general; }
    assert overrides == map[] ==> overrides + general.value == general.value;
    overrides := overrides + general.value;
    // A series override that is not a dict is found out only when the layers are applied.
    r := if Truthy(seriesLayer.value) && !seriesLayer.value.Obj? then Failure(AttributeError) else Success(overrides);
  }

  method WeighOverrides(elements: seq<Value>, values: Dict) returns (r: Result<map<nat, Dict>>)
    requires values.Keys <= OVERRIDE_SELECTOR_WEIGHTS.Keys
    ensures ReadOverrides(elements).Failure? ==> r == Failure(ReadOverrides(elements).error)
    ensures ReadOverrides(elements).Success? ==> r == Success(ByWeight(ReadOverrides(elements).value, values))
  {
    var overrides: map<nat, Dict> := map[];
    ghost var read: seq<Override> := [];
    var i := 0;
    while i < |elements|
      invariant 0 <= i <= |elements|
      invariant ReadOverrides(elements[..i]) == Success(read)
      invariant overrides == ByWeight(read, values)
    {
      var override := ReadOverride(elements[i]);
      assert elements[..i + 1][..i] == elements[..i];
      if override.Failure? {
        ReadOverridesFails(elements, i);
        return Failure(override.error);
      }
      var weight := GetOverrideWeight(override.value.selector, values);
      if weight != 0 { overrides := overrides[weight := override.value.body]; }
      assert (read + [override.value])[..|read|] == read;
      read := read + [override.value];
      i := i + 1;
    }
    assert elements[..i] == elements;
    r := Success(overrides);
  }

  lemma {:induction false} ReadOverridesFails(elements: seq<Value>, i: nat)
    requires i < |elements| && ReadOverrides(elements[..i]).Success? && ReadOverride(elements[i]).Failure?
    ensures ReadOverrides(elements) == Failure(ReadOverride(elements[i]).error)
    decreases |elements|
  {
    if i == |elements| - 1 {
      assert elements[..i + 1] == elements;
    } else {
      var init := elements[..|elements| - 1];
      assert init[..i] == elements[..i];
      ReadOverridesFails(init, i);
    }
  }

  // ---------------------------------------------------------------------------------------------------------
  // Layering

  /** What `dict.update(v)` adds. */
  function UpdateFields(v: Value): Result<Dict> {
    match v
    case Obj(fields) => Success(fields)
    case Arr(items) => if items == [] then Success(map[]) else Failure(ValueError)
    case Str(s) => if s == "" then Success(map[]) else Failure(ValueError)
    case _ => Failure(TypeError)
  }

  /** A dict is updated by the layer's dict; anything else is replaced wholesale. */
  function LayerValue(current: Option<Value>, v: Value): Value {
    if current.Some? && current.value.Obj? && UpdateFields(v).Success? then
      Obj(current.value.fields + UpdateFields(v).value)
    else v
  }

  predicate Layerable(entitlement: Dict, layer: Dict) {
    forall k | k in layer && k in entitlement && entitlement[k].Obj? :: UpdateFields(layer[k]).Success?
  }

  function Lookup(d: Dict, k: string): Option<Value> {
    if k in d then Some(d[k]) else None
  }

  function ApplyLayer(entitlement: Dict, layer: Dict): Dict {
    map k | k in entitlement.Keys + layer.Keys ::
      if k in layer then LayerValue(Lookup(entitlement, k), layer[k]) else entitlement[k]
  }

  /** All layers of weight less than `n`, lightest first. */
  function ApplyBelow(entitlement: Dict, layers: map<nat, Dict>, n: nat): Option<Dict> {
    if n == 0 then Some(entitlement)
    else
      var below := ApplyBelow(entitlement, layers, n - 1);
      if below.None? || n - 1 !in layers then below
      else if Layerable(below.value, layers[n - 1]) then Some(ApplyLayer(below.value, layers[n - 1]))
      else None
  }

  /** The entitlement with its overrides applied, or none when the code raises. */
  function Overridden(entitlement: Dict, series: string, values: Dict): Option<Dict> {
    var layers := Selected(entitlement, series, values);
    if layers.Failure? then None else ApplyBelow(entitlement - {"series"}, layers.value, WEIGHT_BOUND)
  }

  // ---------------------------------------------------------------------------------------------------------
  // The code

  /** `sorted(keys)`. */
  method Sorted(keys: set<nat>) returns (s: seq<nat>)
    ensures forall i, j | 0 <= i < j < |s| :: s[i] < s[j]
    ensures forall k :: k in s <==> k in keys
  {
    s := [];
    var todo := keys;
    while todo != {}
      invariant todo <= keys
      invariant forall k :: k in s <==> k in keys && k !in todo
      invariant forall i, j | 0 <= i < j < |s| :: s[i] < s[j]
      invariant forall k, m | k in s && m in todo :: k < m
    {
      assert forall i | 0 <= i < |s| :: s[i] in s;
      var least :| least in todo;
      var others := todo - {least};
      while others != {}
        invariant others <= todo && least in todo
        invariant forall k | k in todo && k !in others :: least <= k
      {
        var k :| k in others;
        if k < least { least := k; }
        others := others - {k};
      }
      s := s + [least];
      todo := todo - {least};
    }
  }

  method ApplyContractOverrides(access: Dict, series: string, cloud: Option<string>, variant: Option<string>)
    returns (r: Result<Dict>)
    ensures "entitlement" !in access ==> r == Failure(RuntimeError)
    ensures r.Success? <==>
      && "entitlement" in access && access["entitlement"].Obj?
      && Overridden(access["entitlement"].fields, series, SelectorValues(series, cloud, variant)).Some?
    ensures r.Success? ==> r.value == access["entitlement" := Obj(
      Overridden(access["entitlement"].fields, series, SelectorValues(series, cloud, variant)).value)]
    ensures r.Failure? ==> OverridesRaise(access, series, SelectorValues(series, cloud, variant), r.error)
  {
    hide ApplyBelow;
    if "entitlement" !in access { return Failure(RuntimeError); }
    if !access["entitlement"].Obj? {
      return Failure(if access["entitlement"].Arr? then TypeError else AttributeError);
    }
    var rest, overrides := SelectOverrides(access["entitlement"].fields, series, cloud, variant);
    if overrides.Failure? { return Failure(overrides.error); }
    SelectedWeights(access["entitlement"].fields, series, SelectorValues(series, cloud, variant));
    var entitlement := ApplySorted(rest, overrides.value);
    if entitlement.Failure? { return entitlement; }
    r := Success(access["entitlement" := Obj(entitlement.value)]);
  }

  /** What is raised where the overrides cannot be applied. Which of the two errors of `dict.update` it is depends on
      the order of the keys. */
  predicate OverridesRaise(access: Dict, series: string, values: Dict, error: Error) {
    if "entitlement" !in access then error == RuntimeError
    else if !access["entitlement"].Obj? then
      error == if access["entitlement"].Arr? then TypeError else AttributeError
    else
      var layers := Selected(access["entitlement"].fields, series, values);
      if layers.Failure? then error == layers.error else error in {TypeError, ValueError}
  }

  method ApplySorted(rest: Dict, layers: map<nat, Dict>) returns (r: Result<Dict>)
    requires forall w | w in layers :: w < WEIGHT_BOUND
    ensures r.Failure? ==> r.error in {TypeError, ValueError}
    ensures r.Success? <==> ApplyBelow(rest, layers, WEIGHT_BOUND).Some?
    ensures r.Success? ==> ApplyBelow(rest, layers, WEIGHT_BOUND) == Some(r.value)
  {
    hide Layerable, ApplyLayer;
    var entitlement := rest;
    var weights := Sorted(layers.Keys);
    var i := 0;
    ghost var done: nat := 0;
    while i < |weights|
      invariant 0 <= i <= |weights|
      invariant done == if i == 0 then 0 else weights[i - 1] + 1
      invariant ApplyBelow(rest, layers, done) == Some(entitlement)
    {
      var weight := weights[i];
      assert weight in weights;
      NoneBetween(weights, layers.Keys, i);
      SkipAbsent(rest, layers, done, weight);
      var applied := ApplyOverride(entitlement, layers[weight]);
      if applied.Failure? {
        ApplyBelowFails(rest, layers, weight + 1, WEIGHT_BOUND);
        return applied;
      }
      entitlement := applied.value;
      done := weight + 1;
      i := i + 1;
    }
    NoneBetween(weights, layers.Keys, i);
    SkipAbsent(rest, layers, done, WEIGHT_BOUND);
    r := Success(entitlement);
  }

  lemma NoneBetween(weights: seq<nat>, keys: set<nat>, i: nat)
    requires i <= |weights| && forall w | w in keys :: w in weights
    requires forall j, k | 0 <= j < k < |weights| :: weights[j] < weights[k]
    ensures forall w | w in keys :: (i > 0 && w <= weights[i - 1]) || (i < |weights| && weights[i] <= w)
  {
    forall w | w in keys ensures (i > 0 && w <= weights[i - 1]) || (i < |weights| && weights[i] <= w) {
      var j :| 0 <= j < |weights| && weights[j] == w;
    }
  }

  method ApplyOverride(before: Dict, layer: Dict) returns (r: Result<Dict>)
    ensures r.Failure? ==> r.error in {TypeError, ValueError}
    ensures r.Success? <==> Layerable(before, layer)
    ensures r.Success? ==> r.value == ApplyLayer(before, layer)
  {
    var entitlement := before;
    var todo := layer.Keys;
    while todo != {}
      invariant todo <= layer.Keys
      invariant entitlement.Keys == before.Keys + (layer.Keys - todo)
      invariant forall k | k in entitlement :: (
        entitlement[k] == if k in layer && k !in todo then LayerValue(Lookup(before, k), layer[k]) else before[k])
      invariant forall k | k in layer && k !in todo && k in before && before[k].Obj? ::
        UpdateFields(layer[k]).Success?
    {
      var key :| key in todo;
      if key in entitlement && entitlement[key].Obj? {
        var update := UpdateFields(layer[key]);
        if update.Failure? { return Failure(update.error); }
        entitlement := entitlement[key := Obj(entitlement[key].fields + update.value)];
      } else {
        entitlement := entitlement[key := layer[key]];
      }
      todo := todo - {key};
    }
    r := Success(entitlement);
  }

  lemma {:induction false} SkipAbsent(entitlement: Dict, layers: map<nat, Dict>, m: nat, n: nat)
    requires m <= n && forall w | w in layers :: !(m <= w < n)
    ensures ApplyBelow(entitlement, layers, n) == ApplyBelow(entitlement, layers, m)
    decreases n
  {
    if m < n { SkipAbsent(entitlement, layers, m, n - 1); }
  }

  lemma {:induction false} ApplyBelowFails(entitlement: Dict, layers: map<nat, Dict>, m: nat, n: nat)
    requires m <= n && ApplyBelow(entitlement, layers, m).None?
    ensures ApplyBelow(entitlement, layers, n).None?
    decreases n
  {
    if m < n { ApplyBelowFails(entitlement, layers, m, n - 1); }
  }

  lemma {:induction false} ByWeightWeights(overrides: seq<Override>, values: Dict)
    requires values.Keys <= {"series", "cloud", "variant"}
    ensures forall w | w in ByWeight(overrides, values) ::
      OVERRIDE_SELECTOR_WEIGHTS["series_overrides"] < w < WEIGHT_BOUND
  {
    if overrides != [] {
      ByWeightWeights(overrides[..|overrides| - 1], values);
    }
  }

  /** Every match outranks the series override, which alone has its weight; no weight exceeds the sum of all. */
  lemma {:induction false} SelectedWeights(entitlement: Dict, series: string, values: Dict)
    requires values.Keys <= {"series", "cloud", "variant"}
    ensures Selected(entitlement, series, values).Success? ==>
      var layers := Selected(entitlement, series, values).value;
      var matches := ByWeight(ReadOverrides(OverrideElements(entitlement).value).value, values);
      && (forall w | w in layers :: 1 <= w < WEIGHT_BOUND)
      && (forall w | w in matches :: w in layers && OVERRIDE_SELECTOR_WEIGHTS["series_overrides"] < w)
      && (forall w | w in layers && w !in matches ::
            && w == OVERRIDE_SELECTOR_WEIGHTS["series_overrides"]
            && SeriesLayer(entitlement, series) == Success(Obj(layers[w])))
  {
    if Selected(entitlement, series, values).Success? {
      ByWeightWeights(ReadOverrides(OverrideElements(entitlement).value).value, values);
    }
  }
}
