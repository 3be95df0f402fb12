/** What an entitlement holds after its overrides are applied, and that applying them again changes nothing. */
module OverrideLaws {
  import opened Json
  import opened Overrides

  // ---------------------------------------------------------------------------------------------------------
  // Weights order matches faithfully

  ghost predicate SelectorKeys(values: Dict) {
    values.Keys <= {"series", "cloud", "variant"}
  }

  /** Two matching selectors of equal weight are the same selector; a larger one weighs more; every match outranks
      the series override. Only a selector with no key at all matches without any weight. */
  lemma WeightsAreFaithful(s: Dict, t: Dict, values: Dict)
    requires SelectorKeys(values)
    ensures Weight(s, values) == Weight(t, values) != 0 ==> s == t
    ensures Matches(s, values) && Matches(t, values) && s.Keys < t.Keys ==> Weight(s, values) < Weight(t, values)
    ensures Weight(s, values) != 0 ==> Weight(s, values) > OVERRIDE_SELECTOR_WEIGHTS["series_overrides"]
    ensures Matches(s, values) ==> (Weight(s, values) == 0 <==> s == map[])
  {
    var names := {"series", "cloud", "variant"};
    if Matches(s, values) {
      assert s.Keys <= names;
      if s != map[] {
        var k :| k in s;
        assert k in names;
      }
      if Matches(t, values) {
        assert t.Keys <= names;
        if Weight(s, values) == Weight(t, values) {
          assert forall k | k in names :: k in s <==> k in t;
          assert s.Keys == t.Keys;
        }
        if s.Keys < t.Keys {
          var k :| k in t && k !in s;
          assert k in names;
        }
      }
    }
  }

  // ---------------------------------------------------------------------------------------------------------
  // Slots: a top-level key that holds no dict, or a key of a dict

  datatype Slot = Slot(key: string, sub: Option<string>)

  function Holds(d: Dict, p: Slot): Option<Value> {
    if p.key !in d then None
    else if p.sub.None? then (if d[p.key].Obj? then None else Some(d[p.key]))
    else if d[p.key].Obj? && p.sub.value in d[p.key].fields then Some(d[p.key].fields[p.sub.value])
    else None
  }

  lemma SlotsDetermine(d: Dict, e: Dict)
    requires d.Keys == e.Keys && forall p :: Holds(d, p) == Holds(e, p)
    ensures d == e
  {
    forall k | k in d ensures d[k] == e[k] {
      assert Holds(d, Slot(k, None)) == Holds(e, Slot(k, None));
      if d[k].Obj? {
        forall s ensures Lookup(d[k].fields, s) == Lookup(e[k].fields, s) {
          assert Holds(d, Slot(k, Some(s))) == Holds(e, Slot(k, Some(s)));
        }
        assert forall s :: s in d[k].fields <==> s in e[k].fields by {
          forall s ensures s in d[k].fields <==> s in e[k].fields {
            assert Lookup(d[k].fields, s) == Lookup(e[k].fields, s);
          }
        }
        forall s | s in d[k].fields ensures d[k].fields[s] == e[k].fields[s] {
          assert Lookup(d[k].fields, s) == Lookup(e[k].fields, s);
        }
      }
    }
  }

  /** The entitlement and all layers that write `k` agree on whether it holds a dict. */
  ghost predicate KindConsistent(entitlement: Dict, layers: map<nat, Dict>, k: string) {
    || ((k in entitlement ==> entitlement[k].Obj?) && forall w | w in layers && k in layers[w] :: layers[w][k].Obj?)
    || ((k in entitlement ==> !entitlement[k].Obj?) && forall w | w in layers && k in layers[w] :: !layers[w][k].Obj?)
  }

  /** What the heaviest layer lighter than `n` that fills `p` holds there, else what the entitlement holds. */
  function TopSlot(entitlement: Dict, layers: map<nat, Dict>, n: nat, p: Slot): Option<Value> {
    if n == 0 then Holds(entitlement, p)
    else if n - 1 in layers && Holds(layers[n - 1], p).Some? then Holds(layers[n - 1], p)
    else TopSlot(entitlement, layers, n - 1, p)
  }

  ghost predicate WrittenBy(layers: map<nat, Dict>, k: string) {
    exists w | w in layers :: k in layers[w]
  }

  lemma LayerFillsSlots(below: Dict, layers: map<nat, Dict>, w: nat)
    requires w in layers && forall k :: KindConsistent(below, layers, k)
    ensures Layerable(below, layers[w])
    ensures var r := ApplyLayer(below, layers[w]);
      && (forall k :: KindConsistent(r, layers, k))
      && (forall p :: Holds(r, p) == if Holds(layers[w], p).Some? then Holds(layers[w], p) else Holds(below, p))
  {
    forall k | k in layers[w] && k in below && below[k].Obj? ensures UpdateFields(layers[w][k]).Success? {
      assert KindConsistent(below, layers, k);
    }
    var r := ApplyLayer(below, layers[w]);
    forall k ensures KindConsistent(r, layers, k) {
      assert KindConsistent(below, layers, k);
    }
    forall p ensures Holds(r, p) == if Holds(layers[w], p).Some? then Holds(layers[w], p) else Holds(below, p) {
      assert KindConsistent(below, layers, p.key);
    }
  }

  lemma {:induction false} LayersFillSlots(entitlement: Dict, layers: map<nat, Dict>, n: nat)
    requires forall k :: KindConsistent(entitlement, layers, k)
    ensures var r := ApplyBelow(entitlement, layers, n);
      && r.Some?
      && (forall k :: KindConsistent(r.value, layers, k))
      && (forall k :: k in r.value <==> k in entitlement || exists w | w in layers && w < n :: k in layers[w])
      && (forall k :: k in r.value ==> k in entitlement || WrittenBy(layers, k))
      && (forall p :: Holds(r.value, p) == TopSlot(entitlement, layers, n, p))
      && (forall k | k in entitlement && !WrittenBy(layers, k) :: k in r.value && r.value[k] == entitlement[k])
  {
    if n > 0 {
      LayersFillSlots(entitlement, layers, n - 1);
      if n - 1 in layers {
        var below, layer := ApplyBelow(entitlement, layers, n - 1).value, layers[n - 1];
        LayerFillsSlots(below, layers, n - 1);
        var r := ApplyLayer(below, layer);
        forall k ensures k in r <==> k in entitlement || exists w | w in layers && w < n :: k in layers[w] {
          assert k in r <==> k in below || k in layer;
        }
      }
    }
  }

  // ---------------------------------------------------------------------------------------------------------
  // Which override counts

  /** Override `i` matches, and no later one in the list has the same weight. */
  ghost predicate Effective(overrides: seq<Override>, values: Dict, i: int) {
    && 0 <= i < |overrides|
    && Weight(overrides[i].selector, values) != 0
    && forall j | i < j < |overrides| ::
         Weight(overrides[j].selector, values) != Weight(overrides[i].selector, values)
  }

  /** Some effective override has this weight. */
  ghost predicate Weighed(overrides: seq<Override>, values: Dict, w: nat) {
    exists i :: Effective(overrides, values, i) && Weight(overrides[i].selector, values) == w
  }

  lemma EffectiveLast(init: seq<Override>, last: Override, values: Dict, i: int)
    ensures Effective(init + [last], values, i) <==>
      if i == |init| then Weight(last.selector, values) != 0
      else Effective(init, values, i) && Weight(last.selector, values) != Weight(init[i].selector, values)
  {
    var all := init + [last];
    if Effective(all, values, i) && i < |init| {
      assert all[|init|] == last;
      forall j | i < j < |init| ensures Weight(init[j].selector, values) != Weight(init[i].selector, values) {
        assert all[j] == init[j];
      }
    }
  }

  lemma {:induction false} ByWeightIsEffective(overrides: seq<Override>, values: Dict)
    ensures forall i | Effective(overrides, values, i) ::
      var w := Weight(overrides[i].selector, values);
      w in ByWeight(overrides, values) && ByWeight(overrides, values)[w] == overrides[i].body
    ensures forall w | w in ByWeight(overrides, values) :: Weighed(overrides, values, w)
  {
    hide Weight;
    if overrides != [] {
      var n := |overrides| - 1;
      var init, last := overrides[..n], overrides[n];
      assert overrides == init + [last];
      ByWeightIsEffective(init, values);
      forall i ensures Effective(overrides, values, i) <==>
        if i == n then Weight(last.selector, values) != 0
        else Effective(init, values, i) && Weight(last.selector, values) != Weight(init[i].selector, values)
      {
        EffectiveLast(init, last, values, i);
      }
      forall w | w in ByWeight(overrides, values)
        ensures exists i :: Effective(overrides, values, i) && Weight(overrides[i].selector, values) == w
      {
        if w == Weight(last.selector, values) != 0 {
          assert Effective(overrides, values, n);
        } else {
          assert w in ByWeight(init, values);
          var i :| Effective(init, values, i) && Weight(init[i].selector, values) == w;
          assert Effective(overrides, values, i);
        }
      }
    }
  }

  /** The selection succeeds with these general overrides and this series override. */
  ghost predicate Selects(entitlement: Dict, series: string, overrides: seq<Override>, seriesLayer: Dict) {
    && SeriesLayer(entitlement, series) == Success(Obj(seriesLayer))
    && OverrideElements(entitlement).Success?
    && ReadOverrides(OverrideElements(entitlement).value) == Success(overrides)
  }

  ghost predicate Consistent(entitlement: Dict, series: string, values: Dict) {
    var layers := Selected(entitlement, series, values);
    layers.Success? && forall k :: KindConsistent(entitlement - {"series"}, layers.value, k)
  }

  /** No effective override heavier than `i` fills `p`. */
  ghost predicate NoneHeavier(overrides: seq<Override>, values: Dict, i: int, p: Slot)
    requires 0 <= i < |overrides|
  {
    forall j | Effective(overrides, values, j)
      && Weight(overrides[j].selector, values) > Weight(overrides[i].selector, values) ::
      Holds(overrides[j].body, p).None?
  }

  lemma {:induction false} TopSlotIs(entitlement: Dict, layers: map<nat, Dict>, n: nat, w: nat, p: Slot)
    requires w < n && w in layers && Holds(layers[w], p).Some?
    requires forall v | v in layers && w < v :: Holds(layers[v], p).None?
    ensures TopSlot(entitlement, layers, n, p) == Holds(layers[w], p)
  {
    if n - 1 != w { TopSlotIs(entitlement, layers, n - 1, w, p); }
  }

  lemma {:induction false} TopSlotUnfilled(entitlement: Dict, layers: map<nat, Dict>, n: nat, p: Slot)
    requires forall w | w in layers :: Holds(layers[w], p).None?
    ensures TopSlot(entitlement, layers, n, p) == Holds(entitlement, p)
  {
    if n > 0 { TopSlotUnfilled(entitlement, layers, n - 1, p); }
  }

  /** Every slot holds the value of the heaviest effective override that fills it, else of the series override,
      else of the original entitlement. */
  lemma OverridePriority(entitlement: Dict, series: string, values: Dict, overrides: seq<Override>,
                         seriesLayer: Dict, p: Slot)
    requires SelectorKeys(values)
    requires Selects(entitlement, series, overrides, seriesLayer) && Consistent(entitlement, series, values)
    ensures Overridden(entitlement, series, values).Some?
    ensures var r := Overridden(entitlement, series, values).value;
      forall i | Effective(overrides, values, i) && Holds(overrides[i].body, p).Some?
        && NoneHeavier(overrides, values, i, p) :: Holds(r, p) == Holds(overrides[i].body, p)
    ensures var r := Overridden(entitlement, series, values).value;
      (forall i | Effective(overrides, values, i) :: Holds(overrides[i].body, p).None?) ==>
        Holds(r, p) == if Holds(seriesLayer, p).Some? then Holds(seriesLayer, p) else Holds(entitlement - {"series"}, p)
  {
    var layers := Selected(entitlement, series, values).value;
    LayersFillSlots(entitlement - {"series"}, layers, WEIGHT_BOUND);
    forall i | Effective(overrides, values, i) && Holds(overrides[i].body, p).Some?
      && NoneHeavier(overrides, values, i, p)
      ensures TopSlot(entitlement - {"series"}, layers, WEIGHT_BOUND, p) == Holds(overrides[i].body, p)
    {
      EffectiveWins(entitlement, series, values, overrides, seriesLayer, p, i);
    }
    if forall i | Effective(overrides, values, i) :: Holds(overrides[i].body, p).None? {
      SeriesWins(entitlement, series, values, overrides, seriesLayer, p);
    }
  }

  /** The selected layers are the effective overrides and, when it is not empty, the series override. */
  lemma SelectedLayers(entitlement: Dict, series: string, values: Dict, overrides: seq<Override>, seriesLayer: Dict)
    requires SelectorKeys(values) && Selects(entitlement, series, overrides, seriesLayer)
    ensures Selected(entitlement, series, values).Success?
    ensures var layers := Selected(entitlement, series, values).value;
      && (forall w | w in layers :: w < WEIGHT_BOUND && (w == 1 ==> layers[w] == seriesLayer)
            && (w != 1 ==> Weighed(overrides, values, w)))
      && (1 !in layers ==> seriesLayer == map[])
      && (forall i | Effective(overrides, values, i) ::
            var w := Weight(overrides[i].selector, values); w in layers && layers[w] == overrides[i].body && w > 1)
  {
    SelectedIs(entitlement, series, values, overrides, seriesLayer);
    hide *;
    SomeLayers(values, overrides, seriesLayer, Selected(entitlement, series, values).value);
  }

  lemma SomeLayers(values: Dict, overrides: seq<Override>, seriesLayer: Dict, layers: map<nat, Dict>)
    requires SelectorKeys(values)
    requires layers == if seriesLayer == map[] then ByWeight(overrides, values)
                       else map[1 := seriesLayer] + ByWeight(overrides, values)
    ensures forall w | w in layers ::
      w < WEIGHT_BOUND && (w == 1 ==> layers[w] == seriesLayer) && (w != 1 ==> Weighed(overrides, values, w))
    ensures 1 !in layers ==> seriesLayer == map[]
    ensures forall i | Effective(overrides, values, i) ::
      var w := Weight(overrides[i].selector, values); w in layers && layers[w] == overrides[i].body && w > 1
  {
    hide ByWeight, Weight, Effective, Weighed;
    ByWeightWeights(overrides, values);
    ByWeightIsEffective(overrides, values);
  }

  lemma SelectedIs(entitlement: Dict, series: string, values: Dict, overrides: seq<Override>, seriesLayer: Dict)
    requires Selects(entitlement, series, overrides, seriesLayer)
    ensures Selected(entitlement, series, values)
         == Success(if seriesLayer == map[] then ByWeight(overrides, values)
                    else map[1 := seriesLayer] + ByWeight(overrides, values))
  {
    hide ByWeight, ReadOverrides, OverrideElements, SeriesLayer;
  }

  lemma EffectiveWins(entitlement: Dict, series: string, values: Dict, overrides: seq<Override>, seriesLayer: Dict,
                      p: Slot, i: int)
    requires SelectorKeys(values) && Selects(entitlement, series, overrides, seriesLayer)
    requires Effective(overrides, values, i) && Holds(overrides[i].body, p).Some?
    requires NoneHeavier(overrides, values, i, p)
    ensures Selected(entitlement, series, values).Success?
    ensures TopSlot(entitlement - {"series"}, Selected(entitlement, series, values).value, WEIGHT_BOUND, p)
         == Holds(overrides[i].body, p)
  {
    SelectedLayers(entitlement, series, values, overrides, seriesLayer);
    var layers := Selected(entitlement, series, values).value;
    var w := Weight(overrides[i].selector, values);
    forall v | v in layers && w < v ensures Holds(layers[v], p).None? {
      var j :| Effective(overrides, values, j) && Weight(overrides[j].selector, values) == v;
    }
    TopSlotIs(entitlement - {"series"}, layers, WEIGHT_BOUND, w, p);
  }

  lemma SeriesWins(entitlement: Dict, series: string, values: Dict, overrides: seq<Override>, seriesLayer: Dict,
                   p: Slot)
    requires SelectorKeys(values) && Selects(entitlement, series, overrides, seriesLayer)
    requires forall i | Effective(overrides, values, i) :: Holds(overrides[i].body, p).None?
    ensures Selected(entitlement, series, values).Success?
    ensures TopSlot(entitlement - {"series"}, Selected(entitlement, series, values).value, WEIGHT_BOUND, p)
         == if Holds(seriesLayer, p).Some? then Holds(seriesLayer, p) else Holds(entitlement - {"series"}, p)
  {
    SelectedLayers(entitlement, series, values, overrides, seriesLayer);
    var layers := Selected(entitlement, series, values).value;
    forall w | w in layers && w != 1 ensures Holds(layers[w], p).None? {
      var i :| Effective(overrides, values, i) && Weight(overrides[i].selector, values) == w;
    }
    if Holds(seriesLayer, p).Some? {
      TopSlotIs(entitlement - {"series"}, layers, WEIGHT_BOUND, 1, p);
    } else {
      TopSlotUnfilled(entitlement - {"series"}, layers, WEIGHT_BOUND, p);
    }
  }

  /** Some selected layer writes the top-level key `k`. */
  ghost predicate Written(entitlement: Dict, series: string, values: Dict, k: string)
    requires Selected(entitlement, series, values).Success?
  {
    WrittenBy(Selected(entitlement, series, values).value, k)
  }

  /** Keys no override writes are unchanged, `series` is gone, and no other key appears. */
  lemma OverrideFrame(entitlement: Dict, series: string, values: Dict)
    requires SelectorKeys(values) && Consistent(entitlement, series, values)
    ensures Overridden(entitlement, series, values).Some?
    ensures var r := Overridden(entitlement, series, values).value;
      && (forall k :: k in r <==> (k in entitlement && k != "series") || Written(entitlement, series, values, k))
      && (forall k | k in entitlement && k != "series" && !Written(entitlement, series, values, k) ::
            r[k] == entitlement[k])
  {
    var layers := Selected(entitlement, series, values).value;
    SelectedWeights(entitlement, series, values);
    LayersFillSlots(entitlement - {"series"}, layers, WEIGHT_BOUND);
  }

  // ---------------------------------------------------------------------------------------------------------
  // Applying twice

  /** Layering again, without the series override: a slot gets the value it got the first time, or keeps its own. */
  lemma {:induction false} TopSlotAgain(d: Dict, e: Dict, layers: map<nat, Dict>, general: map<nat, Dict>, n: nat,
                                        p: Slot)
    requires layers - {1} == general - {1} && 0 !in layers && 0 !in general && 1 !in general
    ensures TopSlot(e, general, n, p) == TopSlot(d, layers, n, p)
      || (TopSlot(e, general, n, p) == Holds(e, p) && forall w | w in general && w < n :: Holds(general[w], p).None?)
  {
    if n > 0 {
      TopSlotAgain(d, e, layers, general, n - 1, p);
      if n - 1 > 1 {
        assert n - 1 in layers <==> n - 1 in layers - {1};
        assert n - 1 in general <==> n - 1 in general - {1};
        assert n - 1 in general ==> (layers - {1})[n - 1] == (general - {1})[n - 1];
      }
    }
  }

  lemma LayeringAgain(d: Dict, layers: map<nat, Dict>, general: map<nat, Dict>)
    requires forall k :: KindConsistent(d, layers, k)
    requires layers - {1} == general && 0 !in layers && forall w | w in layers :: w < WEIGHT_BOUND
    ensures ApplyBelow(d, layers, WEIGHT_BOUND).Some?
    ensures var r := ApplyBelow(d, layers, WEIGHT_BOUND).value;
      ApplyBelow(r, general, WEIGHT_BOUND) == Some(r)
  {
    LayersFillSlots(d, layers, WEIGHT_BOUND);
    var r := ApplyBelow(d, layers, WEIGHT_BOUND).value;
    assert forall w | w in general :: w in layers && general[w] == layers[w];
    forall k ensures KindConsistent(r, general, k) {
      assert KindConsistent(r, layers, k);
    }
    LayersFillSlots(r, general, WEIGHT_BOUND);
    var again := ApplyBelow(r, general, WEIGHT_BOUND).value;
    assert forall k :: k in again <==> k in r;
    assert general - {1} == general;
    forall p ensures Holds(again, p) == Holds(r, p) {
      TopSlotAgain(d, r, layers, general, WEIGHT_BOUND, p);
    }
    SlotsDetermine(again, r);
  }

  /** The series override is consumed by the first application, yet applying the overrides again changes nothing. */
  lemma OverridesIdempotent(entitlement: Dict, series: string, values: Dict, overrides: seq<Override>,
                            seriesLayer: Dict)
    requires SelectorKeys(values)
    requires Selects(entitlement, series, overrides, seriesLayer) && Consistent(entitlement, series, values)
    requires !Written(entitlement, series, values, "series") && !Written(entitlement, series, values, "overrides")
    ensures Overridden(entitlement, series, values).Some?
    ensures var r := Overridden(entitlement, series, values).value;
      Overridden(r, series, values) == Some(r)
  {
    hide ApplyBelow, ByWeight, OverrideElements, ReadOverrides, SeriesLayer, Truthy;
    OverrideFrame(entitlement, series, values);
    var layers, general := Selected(entitlement, series, values).value, ByWeight(overrides, values);
    var r := Overridden(entitlement, series, values).value;
    ByWeightWeights(overrides, values);
    SelectedIs(entitlement, series, values, overrides, seriesLayer);
    assert layers - {1} == general;
    assert "overrides" in entitlement ==> r["overrides"] == entitlement["overrides"];
    assert r - {"series"} == r;
    SelectedAgain(entitlement, r, series, overrides);
    SelectedIs(r, series, values, overrides, map[]);
    LayeringAgain(entitlement - {"series"}, layers, general);
  }

  lemma SelectedAgain(entitlement: Dict, r: Dict, series: string, overrides: seq<Override>)
    requires OverrideElements(entitlement).Success?
    requires ReadOverrides(OverrideElements(entitlement).value) == Success(overrides)
    requires "series" !in r && Lookup(r, "overrides") == Lookup(entitlement, "overrides")
    ensures Selects(r, series, overrides, map[])
  {
    hide ReadOverrides;
    assert OverrideElements(r) == OverrideElements(entitlement);
  }
}
