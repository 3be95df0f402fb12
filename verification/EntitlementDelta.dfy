/** What a contract refresh has to process for one entitlement. */
module EntitlementDelta {
  import opened Json
  import opened Deltas
  import opened Overrides
  import opened OverrideLaws

  /** Nothing, or a service to be told of the deltas. */
  datatype Work = Nothing | Process(deltas: Dict, service: Value, variant: Value)

  /** `access.get("entitlement", {}).get("type")`. */
  function ServiceType(access: Dict): Result<Value> {
    if "entitlement" !in access then Success(Null)
    else if access["entitlement"].Obj? then Success(Get(access["entitlement"].fields, "type"))
    else Failure(AttributeError)
  }

  /** `access.get(key, {}).get("obligations", {}).get("use_selector", "")`. */
  function SelectorUnder(access: Dict, key: string): Result<Value> {
    if key !in access then Success(Str(""))
    else if !access[key].Obj? then Failure(AttributeError)
    else
      var entitlement := access[key].fields;
      if "obligations" !in entitlement then Success(Str(""))
      else if !entitlement["obligations"].Obj? then Failure(AttributeError)
      else
        var obligations := entitlement["obligations"].fields;
        Success(if "use_selector" in obligations then obligations["use_selector"] else Str(""))
  }

  /** The variant that is looked up: under `entitlements`. */
  function UseSelector(access: Dict): Result<Value> {
    SelectorUnder(access, "entitlements")
  }

  /** The new access dict as the deltas see it, or none where applying the overrides raises. */
  function Prepared(newAccess: Dict, seriesOverrides: bool, series: string, cloud: Option<string>): Option<Dict> {
    if !seriesOverrides then Some(newAccess)
    else if "entitlement" !in newAccess || !newAccess["entitlement"].Obj? then None
    else
      var entitlement := Overridden(newAccess["entitlement"].fields, series, SelectorValues(series, cloud, None));
      if entitlement.None? then None else Some(newAccess["entitlement" := Obj(entitlement.value)])
  }

  /** The service named by the stored access dict, else by the deltas. */
  function NamedService(origAccess: Dict, deltas: Dict): Result<Value> {
    var stored := ServiceType(origAccess);
    if stored.Success? && !Truthy(stored.value) then ServiceType(deltas) else stored
  }

  /** The code, up to the call of the service: there is work exactly when there are deltas, a service that they are
      for, and its variant; the first of these that cannot be had is what is raised. */
  method ProcessEntitlementDelta(origAccess: Dict, newAccess: Dict, seriesOverrides: bool, series: string,
                                 cloud: Option<string>)
    returns (r: Result<Work>)
    ensures var prepared := Prepared(newAccess, seriesOverrides, series, cloud);
      if prepared.None? then
        r.Failure? && OverridesRaise(newAccess, series, SelectorValues(series, cloud, None), r.error)
      else if !Diffable(origAccess, prepared.value) then r == Failure(AttributeError)
      else
        var deltas := Delta(origAccess, prepared.value);
        var name, variant := NamedService(origAccess, deltas), UseSelector(prepared.value);
        if deltas == map[] then r == Success(Nothing)
        else if name.Failure? then r == Failure(name.error)
        else if !Truthy(name.value) then r == Failure(InvalidServiceType)
        else if variant.Failure? then r == Failure(variant.error)
        else r == Success(Process(deltas, name.value, variant.value))
  {
    var access := newAccess;
    if seriesOverrides {
      var overridden := ApplyContractOverrides(newAccess, series, cloud, None);
      if overridden.Failure? { return Failure(overridden.error); }
      access := overridden.value;
    }
    var deltas := GetDictDeltas(origAccess, access);
    if deltas.Failure? { return Failure(deltas.error); }
    if deltas.value == map[] { return Success(Nothing); }
    var name := ServiceType(origAccess);
    if name.Failure? { return Failure(name.error); }
    if !Truthy(name.value) {
      name := ServiceType(deltas.value);
      if name.Failure? { return Failure(name.error); }
    }
    if !Truthy(name.value) { return Failure(InvalidServiceType); }
    var variant := UseSelector(access);
    if variant.Failure? { return Failure(variant.error); }
    r := Success(Process(deltas.value, name.value, variant.value));
  }

  // ---------------------------------------------------------------------------------------------------------
  // What is looked up where

  /** The service is the stored type, or that of the deltas where there is none; the variant is the selector of the
      obligations. */
  lemma LookupsByPath(stored: Dict, deltas: Dict, access: Dict)
    ensures var named := AtPath(Obj(stored), ["entitlement", "type"]);
      named.Some? && Truthy(named.value) ==> NamedService(stored, deltas) == Success(named.value)
    ensures var holder, named := AtPath(Obj(stored), ["entitlement"]), AtPath(Obj(stored), ["entitlement", "type"]);
      var delta := AtPath(Obj(deltas), ["entitlement", "type"]);
      (holder.Some? ==> holder.value.Obj?) && (named.Some? ==> !Truthy(named.value)) && delta.Some? ==>
        NamedService(stored, deltas) == Success(delta.value)
    ensures var selector := AtPath(Obj(access), ["entitlements", "obligations", "use_selector"]);
      selector.Some? ==> UseSelector(access) == Success(selector.value)
  {
    TwoKeys(stored, "entitlement", "type");
    TwoKeys(deltas, "entitlement", "type");
    var path := ["entitlements", "obligations", "use_selector"];
    assert path[1..] == ["obligations", "use_selector"];
    if "entitlements" in access && access["entitlements"].Obj? {
      TwoKeys(access["entitlements"].fields, "obligations", "use_selector");
    }
  }

  lemma TwoKeys(d: Dict, k: string, l: string)
    ensures AtPath(Obj(d), [k]) == if k in d then Some(d[k]) else None
    ensures AtPath(Obj(d), [k, l])
      == if k in d && d[k].Obj? && l in d[k].fields then Some(d[k].fields[l]) else None
  {
    assert [k, l][1..] == [l] && [l][1..] == [] && [k][1..] == [];
    if k in d && d[k].Obj? && l in d[k].fields {
      assert AtPath(d[k].fields[l], []) == Some(d[k].fields[l]);
      assert AtPath(d[k], [l]) == Some(d[k].fields[l]);
    }
  }

  /** Overrides are applied where they are asked for, to the entitlement alone. */
  lemma PreparedAccess(access: Dict, series: string, cloud: Option<string>, k: string)
    ensures Prepared(access, false, series, cloud) == Some(access)
    ensures var prepared := Prepared(access, true, series, cloud);
      prepared.Some? && k != "entitlement" ==>
        (k in prepared.value <==> k in access) && (k in access ==> prepared.value[k] == access[k])
  {
    hide Overridden;
  }

  /** What counts as no service: null, false, zero and everything empty. */
  lemma Falsehoods(v: Value)
    ensures Truthy(v) <==> v !in {Null, Bool(false), Int(0), Str(""), Arr([]), Obj(map[])}
  {
  }

  // ---------------------------------------------------------------------------------------------------------
  // Which variant is looked up

  /** The entitlement's own selector is missing or empty. */
  predicate NamesNoVariant(access: Dict) {
    "entitlement" in access ==>
      && access["entitlement"].Obj?
      && var entitlement := access["entitlement"].fields;
      "obligations" in entitlement ==>
        && entitlement["obligations"].Obj?
        && var obligations := entitlement["obligations"].fields;
        "use_selector" in obligations ==> obligations["use_selector"] == Str("")
  }

  /** An access dict without the key `entitlements` gives the empty variant, overrides applied or not; that is the
      selector of its entitlement exactly if this names no variant. */
  lemma VariantIsEmpty(access: Dict, seriesOverrides: bool, series: string, cloud: Option<string>)
    requires "entitlements" !in access
    requires Prepared(access, seriesOverrides, series, cloud).Some?
    ensures var prepared := Prepared(access, seriesOverrides, series, cloud).value;
      && UseSelector(prepared) == Success(Str(""))
      && (UseSelector(prepared) == SelectorUnder(prepared, "entitlement") <==> NamesNoVariant(prepared))
  {
    hide Overridden, SelectorValues;
    var prepared := Prepared(access, seriesOverrides, series, cloud).value;
    assert "entitlements" !in prepared;
  }

  /** A service with a variant is processed without it. */
  lemma VariantIsLost(name: string)
    requires name != ""
    ensures var access := map["entitlement" := Obj(map["obligations" := Obj(map["use_selector" := Str(name)])])];
      && SelectorUnder(access, "entitlement") == Success(Str(name))
      && UseSelector(access) == Success(Str(""))
  {
  }

  // ---------------------------------------------------------------------------------------------------------
  // A refresh without changes

  /** Stored access dicts already have their overrides applied; refreshing an unchanged contract applies them again,
      and there is still nothing to process. */
  lemma RefreshIsQuiet(access: Dict, series: string, cloud: Option<string>, overrides: seq<Override>,
                       seriesLayer: Dict)
    requires "entitlement" in access && access["entitlement"].Obj?
    requires var entitlement, values := access["entitlement"].fields, SelectorValues(series, cloud, None);
      && Selects(entitlement, series, overrides, seriesLayer) && Consistent(entitlement, series, values)
      && !Written(entitlement, series, values, "series") && !Written(entitlement, series, values, "overrides")
    ensures var stored := Prepared(access, true, series, cloud);
      && stored.Some?
      && Prepared(stored.value, true, series, cloud) == stored
      && Diffable(stored.value, stored.value) && Delta(stored.value, stored.value) == map[]
  {
    var values := SelectorValues(series, cloud, None);
    OverridesIdempotent(access["entitlement"].fields, series, values, overrides, seriesLayer);
    var stored := Prepared(access, true, series, cloud).value;
    assert stored["entitlement" := stored["entitlement"]] == stored;
    DeltaSelf(stored);
  }
}
