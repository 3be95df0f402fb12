/** Which override wins, told by the keys of the selectors and the entitlement's own document. */
module OverrideOrder {
  import opened Json
  import opened Overrides
  import opened OverrideLaws

  // ---------------------------------------------------------------------------------------------------------
  // Selectors

  /** The selector holds nothing but this series, this cloud and this variant. */
  predicate Applies(selector: Dict, series: string, cloud: Option<string>, variant: Option<string>) {
    forall k | k in selector ::
      || (k == "series" && selector[k] == Str(series))
      || (k == "cloud" && selector[k] == if cloud.Some? then Str(cloud.value) else Null)
      || (k == "variant" && variant.Some? && variant.value != "" && selector[k] == Str(variant.value))
  }

  /** The keys of the selectors that have any, lowest first. */
  const PRECEDENCE: seq<set<string>> := [
    {"series"}, {"cloud"}, {"variant"}, {"series", "cloud"}, {"series", "variant"}, {"cloud", "variant"},
    {"series", "cloud", "variant"}
  ]

  predicate Below(s: Dict, t: Dict) {
    exists i, j | 0 <= i < j < |PRECEDENCE| :: s.Keys == PRECEDENCE[i] && t.Keys == PRECEDENCE[j]
  }

  lemma AppliesMatches(selector: Dict, series: string, cloud: Option<string>, variant: Option<string>)
    ensures Applies(selector, series, cloud, variant) <==> Matches(selector, SelectorValues(series, cloud, variant))
  {
  }

  /** The place of a set of keys. */
  function Place(keys: set<string>): (i: nat)
    requires keys <= {"series", "cloud", "variant"} && keys != {}
    ensures i < |PRECEDENCE| && PRECEDENCE[i] == keys
  {
    if "variant" !in keys then (if "cloud" !in keys then 0 else if "series" !in keys then 1 else 3)
    else if "cloud" !in keys then (if "series" !in keys then 2 else 4)
    else if "series" !in keys then 5
    else 6
  }

  lemma PlacesDiffer(i: nat, j: nat)
    requires i < |PRECEDENCE| && j < |PRECEDENCE| && PRECEDENCE[i] == PRECEDENCE[j]
    ensures i == j
  {
    assert forall k | k in {"series", "cloud", "variant"} :: k in PRECEDENCE[i] <==> k in PRECEDENCE[j];
  }

  lemma PlaceWeight(keys: set<string>)
    requires keys <= {"series", "cloud", "variant"} && keys != {}
    ensures TotalWeight(keys) == [2, 3, 4, 5, 6, 7, 9][Place(keys)]
  {
  }

  /** Matching selectors have the precedence of their keys: the variant before the cloud, this before the series, and
      two keys before one. */
  lemma WeightsFollowPrecedence(s: Dict, t: Dict, series: string, cloud: Option<string>, variant: Option<string>)
    requires Applies(s, series, cloud, variant) && Applies(t, series, cloud, variant) && s != map[] && t != map[]
    ensures var values := SelectorValues(series, cloud, variant);
      && (Weight(s, values) < Weight(t, values) <==> Below(s, t))
      && (Below(s, t) || Below(t, s) || s == t)
  {
    AppliesMatches(s, series, cloud, variant);
    AppliesMatches(t, series, cloud, variant);
    PlaceWeight(s.Keys);
    PlaceWeight(t.Keys);
    var i, j := Place(s.Keys), Place(t.Keys);
    assert Below(s, t) <==> i < j by { BelowPlaces(s, t, i, j); }
    assert Below(t, s) <==> j < i by { BelowPlaces(t, s, j, i); }
    if i == j {
      assert forall k | k in s :: s[k] == t[k];
      assert s == t;
    }
  }

  lemma BelowPlaces(s: Dict, t: Dict, i: nat, j: nat)
    requires i < |PRECEDENCE| && j < |PRECEDENCE| && PRECEDENCE[i] == s.Keys && PRECEDENCE[j] == t.Keys
    ensures Below(s, t) <==> i < j
  {
    hide PRECEDENCE;
    if Below(s, t) {
      var m, n :| 0 <= m < n < |PRECEDENCE| && s.Keys == PRECEDENCE[m] && t.Keys == PRECEDENCE[n];
      PlacesDiffer(i, m);
      PlacesDiffer(j, n);
    }
  }

  // ---------------------------------------------------------------------------------------------------------
  // Entitlements

  /** The overrides as the entitlement lists them. */
  function Listed(overrides: seq<Override>): seq<Value> {
    seq(|overrides|, i requires 0 <= i < |overrides| =>
      Obj(overrides[i].body["selector" := Obj(overrides[i].selector)]))
  }

  /** The entitlement's document lists these overrides and holds this layer for the series. */
  ghost predicate Offers(entitlement: Dict, series: string, overrides: seq<Override>, seriesLayer: Dict) {
    && (if "overrides" in entitlement then entitlement["overrides"] == Arr(Listed(overrides)) else overrides == [])
    && (forall i | 0 <= i < |overrides| :: "selector" !in overrides[i].body)
    && (if "series" in entitlement then
          && entitlement["series"].Obj?
          && var layers := entitlement["series"].fields;
          if series in layers then layers[series] == Obj(seriesLayer) else seriesLayer == map[]
        else seriesLayer == map[])
  }

  lemma {:induction false} ReadListed(overrides: seq<Override>)
    requires forall i | 0 <= i < |overrides| :: "selector" !in overrides[i].body
    ensures ReadOverrides(Listed(overrides)) == Success(overrides)
  {
    if overrides != [] {
      var n := |overrides| - 1;
      var init, last := overrides[..n], overrides[n];
      assert Listed(overrides)[..n] == Listed(init);
      ReadListed(init);
      assert last.body["selector" := Obj(last.selector)] - {"selector"} == last.body;
      assert init + [last] == overrides;
    }
  }

  lemma OffersSelects(entitlement: Dict, series: string, overrides: seq<Override>, seriesLayer: Dict)
    requires Offers(entitlement, series, overrides, seriesLayer)
    ensures Selects(entitlement, series, overrides, seriesLayer)
  {
    hide ReadOverrides;
    ReadListed(overrides);
    assert Listed([]) == [];
  }

  /** What a Python loop takes for a list of overrides: none, a list of dicts with a dict as selector, or something
      empty. */
  ghost predicate ListsOverrides(entitlement: Dict) {
    "overrides" in entitlement ==>
      var listed := entitlement["overrides"];
      if listed.Arr? then
        forall i | 0 <= i < |listed.items| ::
          listed.items[i].Obj? && "selector" in listed.items[i].fields && listed.items[i].fields["selector"].Obj?
      else listed in {Obj(map[]), Str("")}
  }

  /** There is a dict of series, and a dict, or else something that counts as false, for this one. */
  ghost predicate HoldsSeries(entitlement: Dict, series: string) {
    "series" in entitlement ==>
      && entitlement["series"].Obj?
      && var layers := entitlement["series"].fields;
      series in layers ==> layers[series].Obj? || layers[series] in {Null, Bool(false), Int(0), Str(""), Arr([])}
  }

  /** The selection raises exactly where one of the two is not as it should be. */
  lemma SelectsExactly(entitlement: Dict, series: string, values: Dict)
    ensures Selected(entitlement, series, values).Success?
      <==> ListsOverrides(entitlement) && HoldsSeries(entitlement, series)
  {
    hide ByWeight;
    if OverrideElements(entitlement).Success? { ReadsExactly(OverrideElements(entitlement).value); }
  }

  lemma {:induction false} ReadsExactly(elements: seq<Value>)
    ensures ReadOverrides(elements).Success? <==> forall i | 0 <= i < |elements| ::
      elements[i].Obj? && "selector" in elements[i].fields && elements[i].fields["selector"].Obj?
  {
    if elements != [] {
      var init := elements[..|elements| - 1];
      ReadsExactly(init);
      assert forall i | 0 <= i < |init| :: init[i] == elements[i];
    }
  }

  /** What one layer does to a key, whatever the kinds of the two values. */
  lemma LayerKinds(entitlement: Dict, layer: Dict, k: string)
    ensures Layerable(entitlement, layer) && k in layer && k in entitlement && entitlement[k].Obj? ==>
      layer[k].Obj? || layer[k] in {Arr([]), Str("")}
    ensures (forall l | l in layer && l in entitlement && entitlement[l].Obj? :: layer[l].Obj?) ==>
      Layerable(entitlement, layer)
    ensures var r := ApplyLayer(entitlement, layer);
      && (k in r <==> k in entitlement || k in layer)
      && (k in entitlement && k !in layer ==> r[k] == entitlement[k])
      && (k in layer && !(k in entitlement && entitlement[k].Obj?) ==> r[k] == layer[k])
      && (k in layer && k in entitlement && entitlement[k].Obj? && layer[k].Obj? ==>
            r[k] == Obj(entitlement[k].fields + layer[k].fields))
  {
  }

  /** Override `i` applies and has a selector that no later override repeats. */
  ghost predicate InForce(overrides: seq<Override>, series: string, cloud: Option<string>, variant: Option<string>,
                          i: int)
  {
    && 0 <= i < |overrides|
    && Applies(overrides[i].selector, series, cloud, variant) && overrides[i].selector != map[]
    && forall j | i < j < |overrides| :: overrides[j].selector != overrides[i].selector
  }

  lemma InForceEffective(overrides: seq<Override>, series: string, cloud: Option<string>, variant: Option<string>,
                         i: int)
    ensures InForce(overrides, series, cloud, variant, i)
      <==> Effective(overrides, SelectorValues(series, cloud, variant), i)
  {
    var values := SelectorValues(series, cloud, variant);
    SelectorValuesKeys(series, cloud, variant);
    if 0 <= i < |overrides| {
      var s := overrides[i].selector;
      AppliesMatches(s, series, cloud, variant);
      hide Matches, SelectorKeys, SelectorValues, Applies;
      WeightsAreFaithful(s, s, values);
      forall j | i < j < |overrides|
        ensures Weight(s, values) != 0 ==>
          (overrides[j].selector == s <==> Weight(overrides[j].selector, values) == Weight(s, values))
      {
        WeightsAreFaithful(s, overrides[j].selector, values);
      }
      NoMatchNoWeight(s, values);
    }
  }

  lemma NoMatchNoWeight(s: Dict, values: Dict)
    ensures !Matches(s, values) ==> Weight(s, values) == 0
  {
  }

  lemma SelectorValuesKeys(series: string, cloud: Option<string>, variant: Option<string>)
    ensures SelectorKeys(SelectorValues(series, cloud, variant))
  {
  }

  /** A slot holds the value of the override in force whose selector has precedence over those of all others in force
      that fill it. */
  lemma HigherOverrideWins(entitlement: Dict, series: string, cloud: Option<string>, variant: Option<string>,
                           overrides: seq<Override>, seriesLayer: Dict, p: Slot, i: int)
    requires Offers(entitlement, series, overrides, seriesLayer)
    requires Consistent(entitlement, series, SelectorValues(series, cloud, variant))
    requires InForce(overrides, series, cloud, variant, i) && Holds(overrides[i].body, p).Some?
    requires forall j | InForce(overrides, series, cloud, variant, j) && j != i && Holds(overrides[j].body, p).Some? ::
      Below(overrides[j].selector, overrides[i].selector)
    ensures var r := Overridden(entitlement, series, SelectorValues(series, cloud, variant));
      r.Some? && Holds(r.value, p) == Holds(overrides[i].body, p)
  {
    var values := SelectorValues(series, cloud, variant);
    SelectorValuesKeys(series, cloud, variant);
    OffersSelects(entitlement, series, overrides, seriesLayer);
    InForceEffective(overrides, series, cloud, variant, i);
    forall j | Effective(overrides, values, j) && Holds(overrides[j].body, p).Some? && j != i
      ensures Weight(overrides[j].selector, values) < Weight(overrides[i].selector, values)
    {
      InForceEffective(overrides, series, cloud, variant, j);
      WeightsFollowPrecedence(overrides[j].selector, overrides[i].selector, series, cloud, variant);
    }
    assert NoneHeavier(overrides, values, i, p);
    hide Offers, InForce, Overridden, Consistent, Selects, Effective;
    OverridePriority(entitlement, series, values, overrides, seriesLayer, p);
  }

  /** Where no override in force fills the slot, the series override does, or else it is as it was. */
  lemma SeriesOverrideWins(entitlement: Dict, series: string, cloud: Option<string>, variant: Option<string>,
                           overrides: seq<Override>, seriesLayer: Dict, p: Slot)
    requires Offers(entitlement, series, overrides, seriesLayer)
    requires Consistent(entitlement, series, SelectorValues(series, cloud, variant))
    requires forall j | InForce(overrides, series, cloud, variant, j) :: Holds(overrides[j].body, p).None?
    ensures var r := Overridden(entitlement, series, SelectorValues(series, cloud, variant));
      && r.Some?
      && Holds(r.value, p)
           == if Holds(seriesLayer, p).Some? then Holds(seriesLayer, p) else Holds(entitlement - {"series"}, p)
  {
    var values := SelectorValues(series, cloud, variant);
    SelectorValuesKeys(series, cloud, variant);
    OffersSelects(entitlement, series, overrides, seriesLayer);
    forall j | Effective(overrides, values, j) ensures Holds(overrides[j].body, p).None? {
      InForceEffective(overrides, series, cloud, variant, j);
    }
    hide Offers, InForce, Overridden, Consistent, Selects, Effective;
    OverridePriority(entitlement, series, values, overrides, seriesLayer, p);
  }
}
