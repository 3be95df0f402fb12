/** Typed data objects: parsed from documents by nested schemas, and printed back. */
module DataTypes {
  import opened Json

  /** A class that extends `DataValue`. An enum is the values of its members. */
  datatype Schema =
    | StringSchema
    | StrictStringSchema
    | IntSchema
    | BoolSchema
    | DatetimeSchema
    | EnumSchema(members: seq<Value>)
    | ListSchema(item: Schema)
    | DictSchema(item: Schema)
    | ObjectSchema(fields: seq<Field>)

  datatype Field = Field(key: string, schema: Schema, required: bool, dictKey: string)

  /** A parsed value. An enum member and an object know their class. */
  datatype Data =
    | Plain(v: Value)
    | Member(members: seq<Value>, v: Value)
    | Items(items: seq<Data>)
    | Entries(entries: map<string, Data>)
    | Object(fields: seq<Field>, attrs: map<string, Data>)

  const NONE := Plain(Null)

  // ---------------------------------------------------------------------------------------------------------
  // Parsing. The result is none where the code raises `IncorrectTypeError`.

  predicate Unsafe(c: char) {
    c == '\n' || c == '\r' || c == '\0' || c == ' '
  }

  function FromValue(s: Schema, v: Value): Option<Data>
    decreases s, 0
  {
    match s
    case StringSchema => if v.Str? then Some(Plain(v)) else None
    case StrictStringSchema =>
      if v.Str? && forall c | c in v.s :: !Unsafe(c) then Some(Plain(v)) else None
    case IntSchema => if v.Int? then Some(Plain(v)) else None
    case BoolSchema => if v.Bool? then Some(Plain(v)) else None
    case DatetimeSchema => if v.Datetime? then Some(Plain(v)) else None
    case EnumSchema(members) => if v in members then Some(Member(members, v)) else None
    case ListSchema(item) =>
      var items := if v.Arr? then FromItems(item, v.items) else None;
      if items.Some? then Some(Items(items.value)) else None
    case DictSchema(item) =>
      var entries := if v.Obj? then FromEntries(item, v.fields) else None;
      if entries.Some? then Some(Entries(entries.value)) else None
    case ObjectSchema(fields) => if v.Obj? then FromDict(fields, v.fields, false) else None
  }

  function FromItems(item: Schema, vs: seq<Value>): Option<seq<Data>>
    decreases item, 1
  {
    if forall i | 0 <= i < |vs| :: FromValue(item, vs[i]).Some? then
      Some(seq(|vs|, i requires 0 <= i < |vs| => FromValue(item, vs[i]).value))
    else None
  }

  function FromEntries(item: Schema, d: Dict): Option<map<string, Data>>
    decreases item, 1
  {
    if forall k | k in d :: FromValue(item, d[k]).Some? then Some(map k | k in d :: FromValue(item, d[k]).value)
    else None
  }

  function FromDict(fields: seq<Field>, d: Dict, lenient: bool): Option<Data>
    decreases fields, 1
  {
    var attrs := FromFields(fields, d, lenient);
    if attrs.Some? then Some(Object(fields, attrs.value)) else None
  }

  function FromFields(fields: seq<Field>, d: Dict, lenient: bool): Option<map<string, Data>>
    decreases fields, 0
  {
    if fields == [] then Some(map[])
    else
      var field := fields[|fields| - 1];
      var init := FromFields(fields[..|fields| - 1], d, lenient);
      if init.None? then init
      else
        var val := FromField(field, d, lenient);
        if val.None? then None else Some(init.value[field.key := val.value])
  }

  /** An explicit null is accepted even where the field is required; a missing key is not. */
  function FromField(field: Field, d: Dict, lenient: bool): Option<Data>
    decreases field
  {
    if field.dictKey !in d then (if field.required then None else Some(NONE))
    else if d[field.dictKey] == Null then Some(NONE)
    else
      var val := FromValue(field.schema, d[field.dictKey]);
      if val.None? && !field.required && lenient then Some(NONE) else val
  }

  /** The code. */
  method ParseValue(s: Schema, v: Value) returns (r: Option<Data>)
    ensures r == FromValue(s, v)
    decreases s
  {
    match s
    case ListSchema(item) =>
      if !v.Arr? { return None; }
      var parsed := [];
      var i := 0;
      while i < |v.items|
        invariant 0 <= i <= |v.items| && |parsed| == i
        invariant forall j | 0 <= j < i :: FromValue(item, v.items[j]) == Some(parsed[j])
      {
        var element := ParseValue(item, v.items[i]);
        if element.None? { return None; }
        parsed := parsed + [element.value];
        i := i + 1;
      }
      assert FromItems(item, v.items).Some?;
      assert FromItems(item, v.items).value == parsed;
      return Some(Items(parsed));
    case DictSchema(item) =>
      if !v.Obj? { return None; }
      var parsed := map[];
      var todo := v.fields.Keys;
      while todo != {}
        invariant todo <= v.fields.Keys && parsed.Keys == v.fields.Keys - todo
        invariant forall k | k in parsed :: FromValue(item, v.fields[k]) == Some(parsed[k])
      {
        var key :| key in todo;
        var element := ParseValue(item, v.fields[key]);
        if element.None? { return None; }
        parsed := parsed[key := element.value];
        todo := todo - {key};
      }
      assert FromEntries(item, v.fields).Some?;
      assert FromEntries(item, v.fields).value == parsed;
      return Some(Entries(parsed));
    case ObjectSchema(fields) =>
      if !v.Obj? { return None; }
      r := ParseDict(fields, v.fields, false);
    case _ =>
      r := FromValue(s, v);
  }

  method ParseDict(fields: seq<Field>, d: Dict, optionalTypeErrorsBecomeNull: bool) returns (r: Option<Data>)
    ensures r == FromDict(fields, d, optionalTypeErrorsBecomeNull)
    decreases fields
  {
    var kwargs: map<string, Data> := map[];
    var i := 0;
    while i < |fields|
      invariant 0 <= i <= |fields|
      invariant FromFields(fields[..i], d, optionalTypeErrorsBecomeNull) == Some(kwargs)
    {
      var field := fields[i];
      assert fields[..i + 1][..i] == fields[..i];
      var val := NONE;
      if field.dictKey !in d {
        if field.required {
          FromFieldsFails(fields, d, optionalTypeErrorsBecomeNull, i);
          return None;
        }
      } else if d[field.dictKey] != Null {
        var parsed := ParseValue(field.schema, d[field.dictKey]);
        if parsed.Some? {
          val := parsed.value;
        } else if field.required || !optionalTypeErrorsBecomeNull {
          FromFieldsFails(fields, d, optionalTypeErrorsBecomeNull, i);
          return None;
        }
      }
      kwargs := kwargs[field.key := val];
      i := i + 1;
    }
    assert fields[..i] == fields;
    r := Some(Object(fields, kwargs));
  }

  lemma {:induction false} FromFieldsFails(fields: seq<Field>, d: Dict, lenient: bool, i: nat)
    requires i < |fields| && FromFields(fields[..i], d, lenient).Some?
    requires FromField(fields[i], d, lenient).None?
    ensures FromFields(fields, d, lenient).None?
    decreases |fields|
  {
    if i == |fields| - 1 {
      assert fields[..i + 1] == fields;
    } else {
      var init := fields[..|fields| - 1];
      assert init[..i] == fields[..i];
      FromFieldsFails(init, d, lenient, i);
    }
  }

  // ---------------------------------------------------------------------------------------------------------
  // Printing

  function ToValue(x: Data, keepNone: bool): Value
    decreases x, 1
  {
    match x
    case Plain(v) => v
    case Member(_, v) => v
    case Items(items) => Arr(seq(|items|, i requires 0 <= i < |items| => ToValue(items[i], keepNone)))
    case Entries(entries) => Obj(map k | k in entries :: ToValue(entries[k], keepNone))
    case Object(fields, _) => Obj(ToDict(x, |fields|, keepNone))
  }

  /** What `to_dict` holds after the first `n` fields of the object's class. */
  function ToDict(x: Data, n: nat, keepNone: bool): Dict
    requires x.Object? && n <= |x.fields|
    decreases x, 0, n
  {
    if n == 0 then map[]
    else
      var field := x.fields[n - 1];
      var val := if field.key in x.attrs then ToValue(x.attrs[field.key], keepNone) else Null;
      var d := ToDict(x, n - 1, keepNone);
      if val != Null || keepNone then d[field.dictKey := val] else d
  }

  /** The code. */
  method PrintObject(x: Data, keepNone: bool) returns (d: Dict)
    requires x.Object?
    ensures d == ToDict(x, |x.fields|, keepNone)
    decreases x, 0
  {
    d := map[];
    var i := 0;
    while i < |x.fields|
      invariant 0 <= i <= |x.fields|
      invariant d == ToDict(x, i, keepNone)
    {
      var field := x.fields[i];
      var newVal := Null;
      if field.key in x.attrs { newVal := PrintValue(x.attrs[field.key], keepNone); }
      if newVal != Null || keepNone { d := d[field.dictKey := newVal]; }
      i := i + 1;
    }
  }

  method PrintValue(x: Data, keepNone: bool) returns (v: Value)
    ensures v == ToValue(x, keepNone)
    decreases x, 1
  {
    match x
    case Plain(v0) => v := v0;
    case Member(_, v0) => v := v0;
    case Items(items) =>
      var printed := [];
      var i := 0;
      while i < |items|
        invariant 0 <= i <= |items| && |printed| == i
        invariant forall j | 0 <= j < i :: printed[j] == ToValue(items[j], keepNone)
      {
        var element := PrintValue(items[i], keepNone);
        printed := printed + [element];
        i := i + 1;
      }
      assert ToValue(x, keepNone).items == printed;
      v := Arr(printed);
    case Entries(entries) =>
      var printed := map[];
      var todo := entries.Keys;
      while todo != {}
        invariant todo <= entries.Keys && printed.Keys == entries.Keys - todo
        invariant forall k | k in printed :: printed[k] == ToValue(entries[k], keepNone)
      {
        var key :| key in todo;
        var element := PrintValue(entries[key], keepNone);
        printed := printed[key := element];
        todo := todo - {key};
      }
      assert ToValue(x, keepNone).fields == printed;
      v := Obj(printed);
    case Object(_, _) =>
      var d := PrintObject(x, keepNone);
      v := Obj(d);
  }
}
