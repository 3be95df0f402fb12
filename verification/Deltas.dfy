/** The structural difference of two documents, with `Dropped` for a removed key. */
module Deltas {
  import opened Json

  /** What a delta is taken between: the sentinel object is never part of a document. */
  ghost predicate Plain(d: Dict)
    decreases Obj(d)
  {
    forall k | k in d :: d[k] != Dropped && (d[k].Obj? ==> Plain(d[k].fields))
  }

  /** A dict of `a` is either absent from `b` or a dict there. Anything else has no `get` and no `items`. */
  ghost predicate Diffable(a: Dict, b: Dict)
    decreases Obj(a)
  {
    forall k | k in a && k in b && a[k].Obj? :: b[k].Obj? && Diffable(a[k].fields, b[k].fields)
  }

  /** The value the delta holds under `k`, if it holds one. */
  function DeltaAt(a: Dict, b: Dict, k: string): Option<Value>
    decreases Obj(a), 0
  {
    var new_ := if k in b then b[k] else Dropped;
    if k !in a then (if k in b then Some(new_) else None)
    else if a[k].Obj? && new_.Obj? then
      var sub := Delta(a[k].fields, new_.fields);
      if sub == map[] then None else Some(Obj(sub))
    else if a[k] == new_ then None
    else Some(new_)
  }

  function Delta(a: Dict, b: Dict): Dict
    decreases Obj(a), 1
  {
    map k | k in a.Keys + b.Keys && DeltaAt(a, b, k).Some? :: DeltaAt(a, b, k).value
  }

  /** The code. */
  method GetDictDeltas(orig: Dict, new_: Dict) returns (r: Result<Dict>)
    ensures r.Success? <==> Diffable(orig, new_)
    ensures r == if r.Success? then Success(Delta(orig, new_)) else Failure(AttributeError)
    decreases Obj(orig)
  {
    var deltas: Dict := map[];
    var todo := orig.Keys;
    while todo != {}
      invariant todo <= orig.Keys
      invariant forall k ::
        (if k in deltas then Some(deltas[k]) else None)
          == if k in orig && k !in todo then DeltaAt(orig, new_, k) else None
      invariant forall k | k in orig && k !in todo && k in new_ && orig[k].Obj? ::
        new_[k].Obj? && Diffable(orig[k].fields, new_[k].fields)
    {
      var key :| key in todo;
      var value := orig[key];
      var newValue := if key in new_ then new_[key] else Dropped;
      if value.Obj? {
        if key in new_ {
          if !new_[key].Obj? { return Failure(AttributeError); }
          var sub := GetDictDeltas(value.fields, new_[key].fields);
          if sub.Failure? { return sub; }
          if sub.value != map[] { deltas := deltas[key := Obj(sub.value)]; }
        } else {
          deltas := deltas[key := Dropped];
        }
      } else if value != newValue {
        deltas := deltas[key := newValue];
      }
      todo := todo - {key};
    }
    todo := new_.Keys;
    while todo != {}
      invariant todo <= new_.Keys
      invariant forall k ::
        (if k in deltas then Some(deltas[k]) else None)
          == if k in orig || (k in new_ && k !in todo) then DeltaAt(orig, new_, k) else None
    {
      var key :| key in todo;
      if key !in orig { deltas := deltas[key := new_[key]]; }
      todo := todo - {key};
    }
    assert deltas == Delta(orig, new_) by {
      assert forall k :: k in deltas <==> k in Delta(orig, new_);
    }
    r := Success(deltas);
  }

  // ---------------------------------------------------------------------------------------------------------
  // Deltas are a correct patch

  /** Applies a delta: a dict of the delta is a nested delta exactly where the document holds a dict. */
  function Patch(d: Dict, delta: Dict): Dict
    decreases Obj(delta)
  {
    map k | k in d.Keys + delta.Keys && !(k in delta && delta[k] == Dropped) ::
      if k !in delta then d[k]
      else if k in d && d[k].Obj? && delta[k].Obj? then Obj(Patch(d[k].fields, delta[k].fields))
      else delta[k]
  }

  /** A delta mentions exactly the keys on which the two documents differ. */
  lemma {:induction false} DeltaMentionsChanges(a: Dict, b: Dict, k: string)
    requires Diffable(a, b) && Plain(a) && Plain(b)
    ensures k in Delta(a, b) <==> (k in a) != (k in b) || (k in a && a[k] != b[k])
    decreases Obj(a), 0
  {
    if k in a && k in b && a[k].Obj? { DeltaEmptyIffEqual(a[k].fields, b[k].fields); }
  }

  lemma {:induction false} DeltaEmptyIffEqual(a: Dict, b: Dict)
    requires Diffable(a, b) && Plain(a) && Plain(b)
    ensures Delta(a, b) == map[] <==> a == b
    decreases Obj(a), 1
  {
    forall k ensures k in Delta(a, b) <==> (k in a) != (k in b) || (k in a && a[k] != b[k]) {
      DeltaMentionsChanges(a, b, k);
    }
    if Delta(a, b) == map[] {
      assert forall k :: k !in Delta(a, b);
      assert forall k :: k in a <==> k in b;
    }
  }

  lemma {:induction false} DeltaPatches(a: Dict, b: Dict)
    requires Diffable(a, b) && Plain(a) && Plain(b)
    ensures Patch(a, Delta(a, b)) == b
    decreases Obj(a)
  {
    var patched := Patch(a, Delta(a, b));
    forall k ensures (k in patched <==> k in b) && (k in b ==> patched[k] == b[k]) {
      DeltaMentionsChanges(a, b, k);
      if k in a && k in b && a[k].Obj? {
        DeltaPatches(a[k].fields, b[k].fields);
      }
    }
  }

  /** How a delta tells that a value was dropped, or changed from one to another. */
  function Change(old_: Option<Value>, new_: Option<Value>): Value {
    if new_.None? then Dropped
    else if old_.Some? && old_.value.Obj? && new_.value.Obj? then Obj(Delta(old_.value.fields, new_.value.fields))
    else new_.value
  }

  /** At every depth the delta holds a value exactly where the two documents differ inside a dict of the new one: the
      drop marker, the delta of two dicts, or else the new value. */
  lemma {:induction false} DeltaPath(a: Dict, b: Dict, path: seq<string>)
    requires path != [] && Diffable(a, b) && Plain(a) && Plain(b)
    ensures var old_, new_ := AtPath(Obj(a), path), AtPath(Obj(b), path);
      var parent, held := AtPath(Obj(b), path[..|path| - 1]), AtPath(Obj(Delta(a, b)), path);
      && (held.Some? <==> old_ != new_ && parent.Some? && parent.value.Obj?)
      && (held.Some? ==> held.value == Change(old_, new_))
    decreases |path|
  {
    var k, rest := path[0], path[1..];
    DeltaMentionsChanges(a, b, k);
    if rest == [] {
      assert path[..|path| - 1] == [] && path == [k];
    } else {
      assert path[..|path| - 1][0] == k && path[..|path| - 1][1..] == rest[..|rest| - 1];
      if k in a && k in b && a[k].Obj? {
        DeltaEmptyIffEqual(a[k].fields, b[k].fields);
        DeltaPath(a[k].fields, b[k].fields, rest);
      } else if k in b && AtPath(b[k], rest).Some? {
        AtParent(b[k], rest);
      }
    }
  }

  lemma {:induction false} AtParent(v: Value, path: seq<string>)
    requires path != [] && AtPath(v, path).Some?
    ensures var parent := AtPath(v, path[..|path| - 1]);
      parent.Some? && parent.value.Obj?
    decreases |path|
  {
    var init := path[..|path| - 1];
    if |path| == 1 {
      assert init == [];
    } else {
      assert init[0] == path[0] && init[1..] == path[1..][..|path| - 2];
      AtParent(v.fields[path[0]], path[1..]);
    }
  }

  /** No dict of `a` meets anything else in `b`, at any depth. */
  ghost predicate DictsMeetDicts(a: Dict, b: Dict) {
    forall path | MeetAt(a, b, path) :: AtPath(Obj(b), path).value.Obj?
  }

  predicate MeetAt(a: Dict, b: Dict, path: seq<string>) {
    AtPath(Obj(a), path).Some? && AtPath(Obj(a), path).value.Obj? && AtPath(Obj(b), path).Some?
  }

  /** The delta raises exactly where, at some depth, a dict meets a value that is no dict. */
  lemma {:induction false} DiffableExactly(a: Dict, b: Dict)
    ensures Diffable(a, b) <==> DictsMeetDicts(a, b)
    decreases Obj(a)
  {
    if Diffable(a, b) {
      forall path | MeetAt(a, b, path) ensures AtPath(Obj(b), path).value.Obj? {
        if path != [] {
          var k, rest := path[0], path[1..];
          assert AtPath(Obj(a), path) == AtPath(a[k], rest) && AtPath(Obj(b), path) == AtPath(b[k], rest);
          assert a[k].Obj?;
          DiffableExactly(a[k].fields, b[k].fields);
          assert MeetAt(a[k].fields, b[k].fields, rest);
        }
      }
    }
    if DictsMeetDicts(a, b) {
      forall k | k in a && k in b && a[k].Obj? ensures b[k].Obj? && Diffable(a[k].fields, b[k].fields) {
        assert [k][1..] == [] && AtPath(a[k], []) == Some(a[k]) && AtPath(b[k], []) == Some(b[k]);
        assert MeetAt(a, b, [k]);
        forall path | MeetAt(a[k].fields, b[k].fields, path) ensures AtPath(b[k], path).value.Obj? {
          assert ([k] + path)[1..] == path;
          assert MeetAt(a, b, [k] + path);
        }
        DiffableExactly(a[k].fields, b[k].fields);
      }
    }
  }

  lemma {:induction false} DeltaSelf(a: Dict)
    ensures Diffable(a, a) && Delta(a, a) == map[]
    decreases Obj(a)
  {
    forall k | k in a && a[k].Obj? ensures Diffable(a[k].fields, a[k].fields) && DeltaAt(a, a, k).None? {
      DeltaSelf(a[k].fields);
    }
    assert forall k :: k !in Delta(a, a);
  }
}
