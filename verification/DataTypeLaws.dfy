/** Printing and parsing undo each other, for every nested schema; lenient parsing normalises. */
module DataTypeLaws {
  import opened Json
  import opened DataTypes

  /** Different fields have different attributes and different keys, at every depth; no enum has a null member. */
  ghost predicate Distinct(s: Schema)
    decreases s
  {
    match s
    case EnumSchema(members) => Null !in members
    case ListSchema(item) => Distinct(item)
    case DictSchema(item) => Distinct(item)
    case ObjectSchema(fields) => DistinctFields(fields)
    case _ => true
  }

  ghost predicate DistinctFields(fields: seq<Field>)
    decreases fields
  {
    DistinctKeys(fields) && forall i | 0 <= i < |fields| :: Distinct(fields[i].schema)
  }

  ghost predicate DistinctKeys(fields: seq<Field>) {
    forall i, j | 0 <= i < j < |fields| ::
      fields[i].key != fields[j].key && fields[i].dictKey != fields[j].dictKey
  }

  ghost function Keys(fields: seq<Field>): set<string> {
    set f | f in fields :: f.key
  }

  /** `v` is a document that the schema describes. */
  ghost predicate Accepts(s: Schema, v: Value)
    decreases s, 0
  {
    match s
    case StringSchema => v.Str?
    case StrictStringSchema => v.Str? && '\n' !in v.s && '\r' !in v.s && '\0' !in v.s && ' ' !in v.s
    case IntSchema => v.Int?
    case BoolSchema => v.Bool?
    case DatetimeSchema => v.Datetime?
    case EnumSchema(members) => v in members
    case ListSchema(item) => v.Arr? && forall i | 0 <= i < |v.items| :: Accepts(item, v.items[i])
    case DictSchema(item) => v.Obj? && forall k | k in v.fields :: Accepts(item, v.fields[k])
    case ObjectSchema(fields) => v.Obj? && AcceptsDict(fields, v.fields, false)
  }

  /** A required key is present, and each value present is null or what the field's schema describes; when lenient,
      only the values of required fields matter. */
  ghost predicate AcceptsDict(fields: seq<Field>, d: Dict, lenient: bool)
    decreases fields
  {
    forall i | 0 <= i < |fields| ::
      && (fields[i].required ==> fields[i].dictKey in d)
      && (fields[i].dictKey in d && d[fields[i].dictKey] != Null && (fields[i].required || !lenient) ==>
            Accepts(fields[i].schema, d[fields[i].dictKey]))
  }

  /** `x` is a value of the class `s`: an attribute of an object may be null, nothing else may. */
  ghost predicate Conforms(s: Schema, x: Data)
    decreases s, 0
  {
    match s
    case EnumSchema(members) => x.Member? && x.members == members && x.v in members
    case ListSchema(item) => x.Items? && forall i | 0 <= i < |x.items| :: Conforms(item, x.items[i])
    case DictSchema(item) => x.Entries? && forall k | k in x.entries :: Conforms(item, x.entries[k])
    case ObjectSchema(fields) => x.Object? && x.fields == fields && ConformsAttrs(fields, x.attrs)
    case _ => x.Plain? && Accepts(s, x.v)
  }

  ghost predicate ConformsAttrs(fields: seq<Field>, attrs: map<string, Data>)
    decreases fields
  {
    && attrs.Keys == Keys(fields)
    && forall i | 0 <= i < |fields| ::
         attrs[fields[i].key] == NONE || Conforms(fields[i].schema, attrs[fields[i].key])
  }

  /** No required attribute is null, at any depth. */
  ghost predicate NoRequiredNull(x: Data) {
    match x
    case Items(items) => forall i | 0 <= i < |items| :: NoRequiredNull(items[i])
    case Entries(entries) => forall k | k in entries :: NoRequiredNull(entries[k])
    case Object(fields, attrs) =>
      && (forall i | 0 <= i < |fields| && fields[i].required ::
            fields[i].key in attrs && attrs[fields[i].key] != NONE)
      && forall k | k in attrs :: NoRequiredNull(attrs[k])
    case _ => true
  }

  // ---------------------------------------------------------------------------------------------------------
  // What parsing accepts, and what it yields

  lemma KeysLast(init: seq<Field>, last: Field)
    ensures Keys(init + [last]) == Keys(init) + {last.key}
  {
    assert forall f :: f in init + [last] <==> f in init || f == last;
  }

  lemma {:induction false} FromFieldsKeys(fields: seq<Field>, d: Dict, lenient: bool)
    ensures FromFields(fields, d, lenient).Some? <==>
      forall i | 0 <= i < |fields| :: FromField(fields[i], d, lenient).Some?
    ensures FromFields(fields, d, lenient).Some? ==> FromFields(fields, d, lenient).value.Keys == Keys(fields)
  {
    if fields != [] {
      var n := |fields| - 1;
      FromFieldsKeys(fields[..n], d, lenient);
      KeysLast(fields[..n], fields[n]);
      assert fields == fields[..n] + [fields[n]];
    }
  }

  lemma {:induction false} FromFieldsPointwise(fields: seq<Field>, d: Dict, lenient: bool, i: nat)
    requires DistinctKeys(fields) && i < |fields| && FromFields(fields, d, lenient).Some?
    ensures fields[i].key in FromFields(fields, d, lenient).value
    ensures FromField(fields[i], d, lenient) == Some(FromFields(fields, d, lenient).value[fields[i].key])
    decreases |fields|
  {
    if i < |fields| - 1 { FromFieldsPointwise(fields[..|fields| - 1], d, lenient, i); }
  }

  /** Strict parsing succeeds exactly on the documents the schema describes, and yields a value of the class. */
  lemma {:induction false} ParseAccepts(s: Schema, v: Value)
    requires Distinct(s)
    ensures FromValue(s, v).Some? <==> Accepts(s, v)
    ensures FromValue(s, v).Some? ==> Conforms(s, FromValue(s, v).value)
    decreases s, 1
  {
    match s
    case ListSchema(item) =>
      if v.Arr? {
        forall i | 0 <= i < |v.items|
          ensures FromValue(item, v.items[i]).Some? <==> Accepts(item, v.items[i])
          ensures FromValue(item, v.items[i]).Some? ==> Conforms(item, FromValue(item, v.items[i]).value)
        {
          ParseAccepts(item, v.items[i]);
        }
      }
    case DictSchema(item) =>
      if v.Obj? {
        forall k | k in v.fields
          ensures FromValue(item, v.fields[k]).Some? <==> Accepts(item, v.fields[k])
          ensures FromValue(item, v.fields[k]).Some? ==> Conforms(item, FromValue(item, v.fields[k]).value)
        {
          ParseAccepts(item, v.fields[k]);
        }
      }
    case ObjectSchema(fields) =>
      if v.Obj? { ParseDictAccepts(fields, v.fields, false); }
    case _ =>
  }

  /** So does lenient parsing, where an ill-typed optional value counts as null: it fails exactly when a required
      key is missing or a non-null required value is ill-typed. */
  lemma {:induction false} ParseDictAccepts(fields: seq<Field>, d: Dict, lenient: bool)
    requires DistinctFields(fields)
    ensures FromDict(fields, d, lenient).Some? <==> AcceptsDict(fields, d, lenient)
    ensures FromDict(fields, d, lenient).Some? ==> Conforms(ObjectSchema(fields), FromDict(fields, d, lenient).value)
    decreases fields, 0
  {
    forall i | 0 <= i < |fields| && fields[i].dictKey in d
      ensures var f, v := fields[i], d[fields[i].dictKey];
        && (FromValue(f.schema, v).Some? <==> Accepts(f.schema, v))
        && (FromValue(f.schema, v).Some? ==> Conforms(f.schema, FromValue(f.schema, v).value))
    {
      ParseAccepts(fields[i].schema, d[fields[i].dictKey]);
    }
    FromFieldsKeys(fields, d, lenient);
    if FromDict(fields, d, lenient).Some? {
      forall i | 0 <= i < |fields|
        ensures fields[i].key in FromFields(fields, d, lenient).value
        ensures FromField(fields[i], d, lenient) == Some(FromFields(fields, d, lenient).value[fields[i].key])
      {
        FromFieldsPointwise(fields, d, lenient, i);
      }
    }
  }

  // ---------------------------------------------------------------------------------------------------------
  // Parsing what was printed

  lemma {:induction false} PrintsNonNull(s: Schema, x: Data, keepNone: bool)
    requires Distinct(s) && Conforms(s, x)
    ensures ToValue(x, keepNone) != Null
  {
  }

  lemma {:induction false} ToDictKeys(x: Data, n: nat, keepNone: bool, k: string)
    requires x.Object? && n <= |x.fields|
    ensures k in ToDict(x, n, keepNone) ==> exists j :: 0 <= j < n && x.fields[j].dictKey == k
  {
    if n > 0 {
      ToDictKeys(x, n - 1, keepNone, k);
      assert k == x.fields[n - 1].dictKey ==> 0 <= n - 1 < n && x.fields[n - 1].dictKey == k;
    }
  }

  /** Every field is printed under its own key, or left out when it is null and nulls are not kept. */
  lemma {:induction false} ToDictPointwise(x: Data, n: nat, keepNone: bool, i: nat)
    requires x.Object? && i < n <= |x.fields| && DistinctKeys(x.fields) && x.fields[i].key in x.attrs
    ensures var k, val, d := x.fields[i].dictKey, ToValue(x.attrs[x.fields[i].key], keepNone), ToDict(x, n, keepNone);
      if val != Null || keepNone then k in d && d[k] == val else k !in d
  {
    if i < n - 1 {
      ToDictPointwise(x, n - 1, keepNone, i);
    } else {
      ToDictKeys(x, n - 1, keepNone, x.fields[i].dictKey);
    }
  }

  /** Printing and parsing undo each other. Without the nulls the print is parsed back exactly when no required
      attribute is null at any depth; otherwise it is refused. */
  lemma {:induction false} RoundTrip(s: Schema, x: Data, keepNone: bool)
    requires Distinct(s) && Conforms(s, x)
    ensures FromValue(s, ToValue(x, keepNone)) == if keepNone || NoRequiredNull(x) then Some(x) else None
    decreases s, 1
  {
    match s
    case ListSchema(item) =>
      var vs := ToValue(x, keepNone).items;
      forall i | 0 <= i < |x.items|
        ensures FromValue(item, vs[i]) == if keepNone || NoRequiredNull(x.items[i]) then Some(x.items[i]) else None
      {
        RoundTrip(item, x.items[i], keepNone);
      }
      ItemsRead(item, vs, x.items);
    case DictSchema(item) =>
      var vs := ToValue(x, keepNone).fields;
      forall k | k in x.entries
        ensures FromValue(item, vs[k]) == if keepNone || NoRequiredNull(x.entries[k]) then Some(x.entries[k]) else None
      {
        RoundTrip(item, x.entries[k], keepNone);
      }
      EntriesRead(item, vs, x.entries);
    case ObjectSchema(fields) =>
      RoundTripObject(fields, x, keepNone);
    case _ =>
  }

  lemma ItemsRead(item: Schema, vs: seq<Value>, items: seq<Data>)
    requires |vs| == |items| && forall i | 0 <= i < |vs| :: FromValue(item, vs[i]) in {Some(items[i]), None}
    ensures FromItems(item, vs)
      == if forall i | 0 <= i < |vs| :: FromValue(item, vs[i]).Some? then Some(items) else None
  {
    if FromItems(item, vs).Some? { assert FromItems(item, vs).value == items; }
  }

  lemma EntriesRead(item: Schema, d: Dict, entries: map<string, Data>)
    requires d.Keys == entries.Keys && forall k | k in d :: FromValue(item, d[k]) in {Some(entries[k]), None}
    ensures FromEntries(item, d) == if forall k | k in d :: FromValue(item, d[k]).Some? then Some(entries) else None
  {
    if FromEntries(item, d).Some? { assert FromEntries(item, d).value == entries; }
  }

  lemma {:induction false} RoundTripObject(fields: seq<Field>, x: Data, keepNone: bool)
    requires Distinct(ObjectSchema(fields)) && Conforms(ObjectSchema(fields), x)
    ensures FromDict(fields, ToDict(x, |fields|, keepNone), false)
         == if keepNone || NoRequiredNull(x) then Some(x) else None
    decreases fields, 1
  {
    var d := ToDict(x, |fields|, keepNone);
    forall i | 0 <= i < |fields|
      ensures fields[i].key in x.attrs
      ensures FromField(fields[i], d, false)
        == if FieldSurvives(x, i, keepNone) then Some(x.attrs[fields[i].key]) else None
    {
      assert fields[i] in fields;
      RoundTripField(fields, x, keepNone, i);
    }
    FromFieldsKeys(fields, d, false);
    AllSurvive(fields, x, keepNone);
    if FromFields(fields, d, false).Some? {
      var attrs := FromFields(fields, d, false).value;
      forall i | 0 <= i < |fields| ensures attrs[fields[i].key] == x.attrs[fields[i].key] {
        FromFieldsPointwise(fields, d, false, i);
      }
      assert attrs == x.attrs;
    }
  }

  lemma {:induction false} AllSurvive(fields: seq<Field>, x: Data, keepNone: bool)
    requires x.Object? && x.fields == fields && x.attrs.Keys == Keys(fields)
    requires forall i | 0 <= i < |fields| :: fields[i].key in x.attrs
    ensures keepNone || NoRequiredNull(x) <==> forall i | 0 <= i < |fields| :: FieldSurvives(x, i, keepNone)
  {
    if !keepNone && forall i | 0 <= i < |fields| :: FieldSurvives(x, i, keepNone) {
      forall i | 0 <= i < |fields| && fields[i].required ensures x.attrs[fields[i].key] != NONE {
        assert FieldSurvives(x, i, keepNone);
      }
      forall k | k in x.attrs ensures NoRequiredNull(x.attrs[k]) {
        var f :| f in fields && f.key == k;
        var i :| 0 <= i < |fields| && fields[i] == f;
        assert FieldSurvives(x, i, keepNone);
      }
    }
  }

  ghost predicate FieldSurvives(x: Data, i: int, keepNone: bool)
    requires x.Object? && 0 <= i < |x.fields| && x.fields[i].key in x.attrs
  {
    var attr := x.attrs[x.fields[i].key];
    keepNone || ((x.fields[i].required ==> attr != NONE) && NoRequiredNull(attr))
  }

  lemma {:induction false} RoundTripField(fields: seq<Field>, x: Data, keepNone: bool, i: nat)
    requires Distinct(ObjectSchema(fields)) && Conforms(ObjectSchema(fields), x) && i < |fields|
    requires fields[i].key in x.attrs
    ensures FromField(fields[i], ToDict(x, |fields|, keepNone), false)
         == if FieldSurvives(x, i, keepNone) then Some(x.attrs[fields[i].key]) else None
    decreases fields, 0
  {
    var attr := x.attrs[fields[i].key];
    ToDictPointwise(x, |fields|, keepNone, i);
    if attr != NONE {
      PrintsNonNull(fields[i].schema, attr, keepNone);
      RoundTrip(fields[i].schema, attr, keepNone);
    }
  }

  // ---------------------------------------------------------------------------------------------------------
  // Lenient parsing

  lemma {:induction false} LenientAgrees(fields: seq<Field>, d: Dict)
    ensures FromFields(fields, d, false).Some? ==> FromFields(fields, d, true) == FromFields(fields, d, false)
    ensures FromDict(fields, d, false).Some? ==> FromDict(fields, d, true) == FromDict(fields, d, false)
  {
    if fields != [] { LenientAgrees(fields[..|fields| - 1], d); }
  }

  /** The keys of optional fields whose value is neither null nor what the field's schema describes. */
  ghost function IllTyped(fields: seq<Field>, d: Dict): set<string> {
    set i | 0 <= i < |fields| && !fields[i].required && fields[i].dictKey in d && d[fields[i].dictKey] != Null
      && !Accepts(fields[i].schema, d[fields[i].dictKey]) :: fields[i].dictKey
  }

  /** Lenient parsing is strict parsing of the document without its ill-typed optional values: each becomes null. */
  lemma LenientDropsIllTyped(fields: seq<Field>, d: Dict)
    requires DistinctFields(fields)
    ensures FromDict(fields, d, true) == FromDict(fields, d - IllTyped(fields, d), false)
    ensures var x := FromDict(fields, d, true);
      forall i | 0 <= i < |fields| && fields[i].dictKey in IllTyped(fields, d) && x.Some? ::
        fields[i].key in x.value.attrs && x.value.attrs[fields[i].key] == Plain(Null)
  {
    var kept := d - IllTyped(fields, d);
    forall i | 0 <= i < |fields| ensures FromField(fields[i], d, true) == FromField(fields[i], kept, false) {
      LenientField(fields, d, i);
    }
    hide FromField;
    SameFields(fields, d, true, kept, false);
    forall i | 0 <= i < |fields| && fields[i].dictKey in IllTyped(fields, d) && FromDict(fields, d, true).Some?
      ensures fields[i].key in FromDict(fields, d, true).value.attrs
      ensures FromDict(fields, d, true).value.attrs[fields[i].key] == Plain(Null)
    {
      LenientField(fields, d, i);
      FromFieldsPointwise(fields, d, true, i);
    }
  }

  lemma LenientField(fields: seq<Field>, d: Dict, i: nat)
    requires DistinctFields(fields) && i < |fields|
    ensures FromField(fields[i], d, true) == FromField(fields[i], d - IllTyped(fields, d), false)
    ensures fields[i].dictKey in IllTyped(fields, d) ==> FromField(fields[i], d, true) == Some(Plain(Null))
  {
    var k := fields[i].dictKey;
    hide Accepts, FromValue;
    if k in d { ParseAccepts(fields[i].schema, d[k]); }
    if k in IllTyped(fields, d) {
      var j :| 0 <= j < |fields| && !fields[j].required && fields[j].dictKey == k && d[k] != Null
        && !Accepts(fields[j].schema, d[k]);
      assert i == j;
    }
  }

  lemma {:induction false} SameFields(fields: seq<Field>, d: Dict, lenient: bool, e: Dict, lenient': bool)
    requires forall i | 0 <= i < |fields| :: FromField(fields[i], d, lenient) == FromField(fields[i], e, lenient')
    ensures FromFields(fields, d, lenient) == FromFields(fields, e, lenient')
  {
    hide FromField;
    if fields != [] {
      var init := fields[..|fields| - 1];
      forall i | 0 <= i < |init| ensures FromField(init[i], d, lenient) == FromField(init[i], e, lenient') {
        assert init[i] == fields[i];
      }
      SameFields(init, d, lenient, e, lenient');
    }
  }

  /** Keys that no field has are ignored. */
  lemma ExtraKeysAreIgnored(fields: seq<Field>, d: Dict, e: Dict, lenient: bool)
    requires forall i | 0 <= i < |fields| ::
      var k := fields[i].dictKey;
      (k in d <==> k in e) && (k in d ==> d[k] == e[k])
    ensures FromDict(fields, d, lenient) == FromDict(fields, e, lenient)
  {
    hide FromValue;
    forall i | 0 <= i < |fields| ensures FromField(fields[i], d, lenient) == FromField(fields[i], e, lenient) {}
    SameFields(fields, d, lenient, e, lenient);
  }

  /** What lenient parsing yields prints as a document that strict parsing reads as the same object. */
  lemma LenientNormalises(fields: seq<Field>, d: Dict)
    requires DistinctFields(fields) && FromDict(fields, d, true).Some?
    ensures var x := FromDict(fields, d, true).value;
      FromDict(fields, ToDict(x, |fields|, true), false) == Some(x)
  {
    ParseDictAccepts(fields, d, true);
    RoundTripObject(fields, FromDict(fields, d, true).value, true);
  }
}
