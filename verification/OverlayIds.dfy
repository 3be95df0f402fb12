/** The merge of lists whose elements no unique id tells apart. */
module OverlayIds {
  import opened Json
  import opened Overlay
  import opened OverlayLaws
  import opened OverlayOrder

  // ---------------------------------------------------------------------------------------------------------
  // The ids

  /** Under the three keys two elements are matched by this field alone, whatever else they hold; where both lack it,
      they match. */
  lemma ListsMatchedById(key: string, id: string, x: Dict, y: Dict)
    requires (key, id) in
      {("availableResources", "name"), ("resourceEntitlements", "type"), ("overrides", "selector")}
    ensures Merge(map[key := Arr([Obj(x)])], map[key := Arr([Obj(y)])])
         == map[key := Arr(if Get(x, id) == Get(y, id) then [Obj(Merge(x, y))] else [Obj(x), Obj(y)])]
  {
    MergeOnes(IdKey(key), x, y);
  }

  /** Under any other key they always match. */
  lemma OtherListsMatchAlways(key: string, x: Dict, y: Dict)
    requires key !in {"availableResources", "resourceEntitlements", "overrides"}
    ensures Merge(map[key := Arr([Obj(x)])], map[key := Arr([Obj(y)])]) == map[key := Arr([Obj(Merge(x, y))])]
  {
    MergeOnes(IdKey(key), x, y);
  }

  /** A list of dicts is merged with nothing but a list of dicts: any other element on either side raises. */
  lemma {:induction false} OnlyDictsMerge(idKey: Option<string>, base: seq<Value>, overlay: seq<Value>)
    requires base != [] && overlay != [] && MergeableList(idKey, base, overlay)
    ensures AllDicts(base) && AllDicts(overlay)
    decreases overlay
  {
    var next := AbsorbAll(idKey, base, overlay[0]);
    if |overlay| > 1 {
      OnlyDictsMerge(idKey, next, overlay[1..]);
      forall j | 0 < j < |overlay| ensures overlay[j].Obj? { assert overlay[j] == overlay[1..][j - 1]; }
    }
  }

  lemma MergeOnes(idKey: Option<string>, x: Dict, y: Dict)
    ensures MergeList(idKey, [Obj(x)], [Obj(y)], [])
         == if Id(idKey, Obj(x)) == Id(idKey, Obj(y)) then [Obj(Merge(x, y))] else [Obj(x), Obj(y)]
  {
    var b, o := [Obj(x)], [Obj(y)];
    assert b[1..] == [] && o[1..] == [];
    assert Find(idKey, b, Id(idKey, o[0])) == if Id(idKey, b[0]) == Id(idKey, o[0]) then Some(b[0]) else None;
    if Id(idKey, b[0]) == Id(idKey, o[0]) {
      assert AbsorbAll(idKey, b, o[0]) == [Obj(Merge(x, y))];
    }
  }

  // ---------------------------------------------------------------------------------------------------------
  // Ids that are not unique

  /** Elements whose id no element of the base has are all appended, whatever ids they share with each other. */
  lemma {:induction false} NewElementsAreAppended(idKey: Option<string>, b: seq<Value>, o: seq<Value>,
                                                  pending: seq<Value>)
    requires forall i | 0 <= i < |o| :: Find(idKey, b, Id(idKey, o[i])).None?
    ensures MergeList(idKey, b, o, pending) == b + pending + o
    decreases o
  {
    if o != [] { NewElementsAreAppended(idKey, b, o[1..], pending + [o[0]]); }
  }

  // ---------------------------------------------------------------------------------------------------------
  // Lists without an id key: every element matches every other

  /** `d` with the dicts of a list merged into it one after the other. */
  function Fold(d: Dict, overlay: seq<Value>): Dict
    decreases overlay
  {
    if overlay == [] then d
    else Fold(if overlay[0].Obj? then Merge(d, overlay[0].fields) else d, overlay[1..])
  }

  ghost predicate AllDicts(list: seq<Value>) {
    forall i | 0 <= i < |list| :: list[i].Obj?
  }

  /** Nothing is ever appended. */
  lemma {:induction false} UnkeyedListsNeverGrow(base: seq<Value>, overlay: seq<Value>)
    requires base != []
    ensures |MergeList(None, base, overlay, [])| == |base|
    decreases overlay
  {
    if overlay != [] { UnkeyedListsNeverGrow(AbsorbAll(None, base, overlay[0]), overlay[1..]); }
  }

  /** Every overlay dict is merged into every base element. */
  lemma {:induction false} UnkeyedListsFold(base: seq<Value>, overlay: seq<Value>)
    requires base != [] && AllDicts(base)
    ensures MergeList(None, base, overlay, [])
         == seq(|base|, i requires 0 <= i < |base| => Obj(Fold(base[i].fields, overlay)))
    decreases overlay
  {
    if overlay == [] {
      assert base + [] == base;
    } else {
      var next := AbsorbAll(None, base, overlay[0]);
      forall i | 0 <= i < |base|
        ensures next[i].Obj? && Fold(base[i].fields, overlay) == Fold(next[i].fields, overlay[1..])
      {
        assert next[i] == Absorb(None, base[i], overlay[0]);
      }
      UnkeyedListsFold(next, overlay[1..]);
    }
  }

  // ---------------------------------------------------------------------------------------------------------
  // A list of dicts that absorbs itself

  ghost predicate AllWellFormed(list: seq<Value>) {
    forall i | 0 <= i < |list| :: list[i].Obj? && WellFormed(list[i].fields)
  }

  /** Every two elements are alike. */
  ghost predicate AllAlike(list: seq<Value>)
    requires AllDicts(list)
  {
    forall i, j | 0 <= i < |list| && 0 <= j < |list| :: Alike(list[i].fields, list[j].fields)
  }

  /** Merging the list into an element changes nothing. */
  ghost predicate Fixed(list: seq<Value>, i: int)
    requires AllDicts(list) && 0 <= i < |list|
  {
    Fold(list[i].fields, list) == list[i].fields
  }

  lemma {:induction false} FoldLast(d: Dict, init: seq<Value>, last: Dict)
    requires WellFormed(d) && AllWellFormed(init)
    ensures WellFormed(Fold(d, init))
    ensures Fold(d, init + [Obj(last)]) == Merge(Fold(d, init), last)
    decreases init
  {
    var all := init + [Obj(last)];
    if init == [] {
      assert all[1..] == [];
    } else {
      assert all[1..] == init[1..] + [Obj(last)];
      MergeWellFormed(d, init[0].fields);
      FoldLast(Merge(d, init[0].fields), init[1..], last);
    }
  }

  /** What absorbs every element is left as it is. */
  lemma {:induction false} FoldAbsorbed(d: Dict, list: seq<Value>)
    requires WellFormed(d) && AllWellFormed(list)
    requires forall j | 0 <= j < |list| :: Subsumes(d, list[j].fields)
    ensures Fold(d, list) == d
    decreases list
  {
    if list != [] {
      SubsumesExactly(d, list[0].fields);
      FoldAbsorbed(d, list[1..]);
    }
  }

  /** If `last` is absorbed by everything and absorbs what `d` becomes, it absorbs all the elements. */
  lemma {:induction false} FoldWithin(d: Dict, list: seq<Value>, last: Dict)
    requires WellFormed(d) && AllWellFormed(list) && WellFormed(last)
    requires Subsumes(d, last) && forall j | 0 <= j < |list| :: Subsumes(list[j].fields, last)
    requires Subsumes(last, Fold(d, list))
    ensures Subsumes(last, d) && forall j | 0 <= j < |list| :: Subsumes(last, list[j].fields)
    decreases list
  {
    hide Subsumes, Merge;
    if list != [] {
      var head, tail := list[0].fields, list[1..];
      MergeSubsumes(d, head, last);
      FoldWithin(Merge(d, head), tail, last);
      SubsumedParts(d, head, last);
      forall j | 0 <= j < |list| ensures Subsumes(last, list[j].fields) {
        if j > 0 { assert list[j] == tail[j - 1]; }
      }
    }
  }

  /** Every element is left as it is by merging all of them into it, one after the other, exactly if they are all
      alike. */
  lemma FixedExactly(list: seq<Value>)
    requires AllWellFormed(list)
    ensures AllDicts(list)
    ensures (forall i | 0 <= i < |list| :: Fixed(list, i)) <==> AllAlike(list)
  {
    if AllAlike(list) {
      forall i | 0 <= i < |list| ensures Fixed(list, i) { AlikeFixed(list, i); }
    }
    if list != [] && forall i | 0 <= i < |list| :: Fixed(list, i) {
      hide Alike, Fixed;
      forall i, j | 0 <= i < |list| && 0 <= j < |list| ensures Alike(list[i].fields, list[j].fields) {
        FixedAbsorbs(list, i, j);
        FixedAbsorbs(list, j, i);
        AlikeSubsumes(list[i].fields, list[j].fields);
      }
    }
  }

  lemma AlikeFixed(list: seq<Value>, i: nat)
    requires AllWellFormed(list) && i < |list| && AllDicts(list) && AllAlike(list)
    ensures Fixed(list, i)
  {
    hide Alike, Subsumes;
    forall j | 0 <= j < |list| ensures Subsumes(list[i].fields, list[j].fields) {
      AlikeSubsumes(list[i].fields, list[j].fields);
    }
    FoldAbsorbed(list[i].fields, list);
  }

  lemma FixedAbsorbs(list: seq<Value>, i: nat, j: nat)
    requires AllWellFormed(list) && AllDicts(list) && i < |list| && j < |list|
    requires forall m | 0 <= m < |list| :: Fixed(list, m)
    ensures Subsumes(list[i].fields, list[j].fields)
  {
    hide Subsumes, Merge;
    var n := |list| - 1;
    var last := list[n].fields;
    forall m | 0 <= m < |list| ensures Subsumes(list[m].fields, last) { FixedAbsorbsLast(list, m); }
    assert Fixed(list, n);
    FoldWithin(last, list, last);
    SubsumesTransitive(list[i].fields, last, list[j].fields);
  }

  lemma FixedAbsorbsLast(list: seq<Value>, m: nat)
    requires AllWellFormed(list) && AllDicts(list) && m < |list| && Fixed(list, m)
    ensures Subsumes(list[m].fields, list[|list| - 1].fields)
  {
    hide Subsumes, Merge;
    var init, last := list[..|list| - 1], list[|list| - 1].fields;
    assert list == init + [Obj(last)];
    FoldLast(list[m].fields, init, last);
    MergeSubsumesOverlay(Fold(list[m].fields, init), last);
  }

  // ---------------------------------------------------------------------------------------------------------
  // Merging the same overlay again

  /** The elements of one id, in order. */
  function SameId(idKey: Option<string>, list: seq<Value>, id: Value): seq<Value>
    decreases list
  {
    if list == [] then []
    else (if Id(idKey, list[0]) == id then [list[0]] else []) + SameId(idKey, list[1..], id)
  }

  lemma {:induction false} SameIdMembers(idKey: Option<string>, list: seq<Value>, id: Value)
    ensures forall e :: e in SameId(idKey, list, id) <==> e in list && Id(idKey, e) == id
    ensures Find(idKey, list, id).None? ==> SameId(idKey, list, id) == []
    decreases list
  {
    if list != [] { SameIdMembers(idKey, list[1..], id); }
  }

  /** `x` with the elements of its id merged into it one after the other. */
  function Folded(idKey: Option<string>, x: Value, overlay: seq<Value>): Value {
    if x.Obj? then Obj(Fold(x.fields, SameId(idKey, overlay, Id(idKey, x)))) else x
  }

  /** Where every overlay element has a match, the merge takes each base element by itself. */
  lemma {:induction false} MatchedFold(idKey: Option<string>, base: seq<Value>, overlay: seq<Value>)
    requires AllWellFormed(overlay)
    requires forall j | 0 <= j < |overlay| :: Find(idKey, base, Id(idKey, overlay[j])).Some?
    requires forall i | 0 <= i < |base| && Find(idKey, overlay, Id(idKey, base[i])).Some? ::
      base[i].Obj? && WellFormed(base[i].fields)
    ensures MergeList(idKey, base, overlay, [])
         == seq(|base|, i requires 0 <= i < |base| => Folded(idKey, base[i], overlay))
    decreases overlay
  {
    if overlay == [] {
      assert base + [] == base;
      assert forall i | 0 <= i < |base| :: Folded(idKey, base[i], overlay) == base[i];
    } else {
      var head, tail := overlay[0], overlay[1..];
      var next := AbsorbAll(idKey, base, head);
      forall i | 0 <= i < |base|
        ensures Id(idKey, next[i]) == Id(idKey, base[i])
        ensures Folded(idKey, next[i], tail) == Folded(idKey, base[i], overlay)
        ensures Find(idKey, tail, Id(idKey, next[i])).Some? ==> next[i].Obj? && WellFormed(next[i].fields)
      {
        AbsorbFolds(idKey, base[i], overlay);
      }
      forall j | 0 <= j < |tail| ensures Find(idKey, next, Id(idKey, tail[j])).Some? {
        assert tail[j] == overlay[j + 1];
        FindSame(idKey, base, next, Id(idKey, tail[j]));
      }
      hide Folded, Find, Id, AbsorbAll;
      MatchedFold(idKey, next, tail);
    }
  }

  lemma AbsorbFolds(idKey: Option<string>, x: Value, overlay: seq<Value>)
    requires overlay != [] && AllWellFormed(overlay)
    requires Find(idKey, overlay, Id(idKey, x)).Some? ==> x.Obj? && WellFormed(x.fields)
    ensures var next := Absorb(idKey, x, overlay[0]);
      && Id(idKey, next) == Id(idKey, x)
      && Folded(idKey, next, overlay[1..]) == Folded(idKey, x, overlay)
      && (Find(idKey, overlay[1..], Id(idKey, x)).Some? ==> next.Obj? && WellFormed(next.fields))
  {
    hide Merge, WellFormed;
    var head, tail := overlay[0], overlay[1..];
    if Id(idKey, x) == Id(idKey, head) {
      if idKey.Some? { MergeKeepsId(idKey, x.fields, head.fields); }
      MergeWellFormed(x.fields, head.fields);
      var rest := SameId(idKey, tail, Id(idKey, x));
      assert ([head] + rest)[1..] == rest;
    } else {
      var rest := SameId(idKey, tail, Id(idKey, x));
      assert [] + rest == rest;
    }
  }

  /** Elements of one id are alike. */
  ghost predicate SameAreAlike(idKey: Option<string>, o: seq<Value>)
    requires AllDicts(o)
  {
    forall i, j | 0 <= i < |o| && 0 <= j < |o| && Id(idKey, o[i]) == Id(idKey, o[j]) :: Alike(o[i].fields, o[j].fields)
  }

  /** New elements that share an id are matched with each other by a second merge of the same overlay. It changes
      nothing exactly if the elements of one id are all alike. */
  lemma DuplicatesMergedTwice(idKey: Option<string>, b: seq<Value>, o: seq<Value>)
    requires AllWellFormed(o) && forall i | 0 <= i < |o| :: Find(idKey, b, Id(idKey, o[i])).None?
    ensures AllDicts(o)
    ensures var once := MergeList(idKey, b, o, []);
      && once == b + o
      && (MergeList(idKey, once, o, []) == once <==> SameAreAlike(idKey, o))
  {
    NewElementsAreAppended(idKey, b, o, []);
    var once := b + o;
    assert b + [] + o == once;
    NewElementsMatch(idKey, b, o);
    MatchedFold(idKey, once, o);
    var twice := MergeList(idKey, once, o, []);
    forall i | 0 <= i < |b| ensures twice[i] == b[i] {
      assert once[i] == b[i];
      SameIdMembers(idKey, o, Id(idKey, b[i]));
    }
    forall i | 0 <= i < |o| ensures twice[|b| + i] == o[i] <==> FixedInClass(idKey, o, i) {
      assert once[|b| + i] == o[i];
    }
    hide MergeList, Folded, Find, Id, FixedInClass, SameAreAlike;
    assert twice == once <==> forall i | 0 <= i < |o| :: twice[|b| + i] == o[i] by {
      assert forall i | 0 <= i < |o| :: once[|b| + i] == o[i];
      if forall i | 0 <= i < |o| :: twice[|b| + i] == o[i] {
        forall k | 0 <= k < |once| ensures twice[k] == once[k] {
          if k >= |b| { assert twice[|b| + (k - |b|)] == o[k - |b|]; }
        }
      }
    }
    ClassesFixed(idKey, o);
  }

  lemma NewElementsMatch(idKey: Option<string>, b: seq<Value>, o: seq<Value>)
    requires AllWellFormed(o) && forall i | 0 <= i < |o| :: Find(idKey, b, Id(idKey, o[i])).None?
    ensures forall j | 0 <= j < |o| :: Find(idKey, b + o, Id(idKey, o[j])).Some?
    ensures forall i | 0 <= i < |b| :: Find(idKey, o, Id(idKey, b[i])).None?
    ensures forall i | 0 <= i < |b + o| && Find(idKey, o, Id(idKey, (b + o)[i])).Some? ::
      (b + o)[i].Obj? && WellFormed((b + o)[i].fields)
  {
    hide Id, WellFormed;
    forall j | 0 <= j < |o| ensures Find(idKey, b + o, Id(idKey, o[j])).Some? {
      FindConcat(idKey, b, o, Id(idKey, o[j]));
      FindMember(idKey, o, Id(idKey, o[j]));
    }
    forall i | 0 <= i < |b| ensures Find(idKey, o, Id(idKey, b[i])).None? {
      FindMember(idKey, o, Id(idKey, b[i]));
      FindMember(idKey, b, Id(idKey, b[i]));
    }
  }

  /** Merging the elements of its own id into it leaves the element as it is. */
  ghost predicate FixedInClass(idKey: Option<string>, o: seq<Value>, i: int)
    requires 0 <= i < |o|
  {
    Folded(idKey, o[i], o) == o[i]
  }

  lemma ClassesFixed(idKey: Option<string>, o: seq<Value>)
    requires AllWellFormed(o)
    ensures AllDicts(o)
    ensures (forall i | 0 <= i < |o| :: FixedInClass(idKey, o, i)) <==> SameAreAlike(idKey, o)
  {
    hide Alike, WellFormed, Fold, Id;
    if forall i | 0 <= i < |o| :: FixedInClass(idKey, o, i) {
      forall i, j | 0 <= i < |o| && 0 <= j < |o| && Id(idKey, o[i]) == Id(idKey, o[j])
        ensures Alike(o[i].fields, o[j].fields)
      {
        var members := ClassOf(idKey, o, Id(idKey, o[i]));
        forall m | 0 <= m < |members| ensures Fixed(members, m) {
          assert members[m] in members;
          var k :| 0 <= k < |o| && o[k] == members[m];
          assert FixedInClass(idKey, o, k);
        }
        FixedExactly(members);
        assert o[i] in members && o[j] in members;
      }
    }
    if SameAreAlike(idKey, o) {
      forall i | 0 <= i < |o| ensures FixedInClass(idKey, o, i) {
        var members := ClassOf(idKey, o, Id(idKey, o[i]));
        forall m, n | 0 <= m < |members| && 0 <= n < |members|
          ensures Alike(members[m].fields, members[n].fields)
        {
          assert members[m] in members && members[n] in members;
        }
        FixedExactly(members);
        assert o[i] in members;
        var m :| 0 <= m < |members| && members[m] == o[i];
        assert Fixed(members, m);
      }
    }
  }

  lemma ClassOf(idKey: Option<string>, o: seq<Value>, id: Value) returns (members: seq<Value>)
    requires AllWellFormed(o)
    ensures members == SameId(idKey, o, id) && AllWellFormed(members) && AllDicts(members)
    ensures forall e :: e in members <==> e in o && Id(idKey, e) == id
  {
    hide Id, WellFormed;
    members := SameId(idKey, o, id);
    SameIdMembers(idKey, o, id);
    forall m | 0 <= m < |members| ensures members[m].Obj? && WellFormed(members[m].fields) {
      assert members[m] in members;
    }
  }

  /** So merging such an overlay twice need not be merging it once. */
  lemma DuplicateIdsBreakIdempotence(b: seq<Value>, name: Value)
    requires WellFormedValue("name", name) && Find(Some("name"), b, name).None?
    ensures var o := [Obj(map["name" := name, "n" := Int(1)]), Obj(map["name" := name, "n" := Int(2)])];
      var once := MergeList(Some("name"), b, o, []);
      MergeList(Some("name"), once, o, []) != once
  {
    var e1, e2: Dict := map["name" := name, "n" := Int(1)], map["name" := name, "n" := Int(2)];
    var o := [Obj(e1), Obj(e2)];
    assert WellFormed(e1) && WellFormed(e2);
    assert forall i | 0 <= i < |o| :: Id(Some("name"), o[i]) == name;
    assert !AlikeValue("n", e1["n"], e2["n"]);
    assert !Alike(o[0].fields, o[1].fields);
    DuplicatesMergedTwice(Some("name"), b, o);
  }

  /** Without an id key all elements have one id: a list absorbs itself exactly if all its elements are alike. */
  lemma UnkeyedListsAbsorbed(list: seq<Value>)
    requires AllWellFormed(list)
    ensures AllDicts(list)
    ensures MergeList(None, list, list, []) == list <==> AllAlike(list)
  {
    hide Alike;
    DuplicatesMergedTwice(None, [], list);
    assert [] + list == list;
  }
}
