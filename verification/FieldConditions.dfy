/** When collection fails, and when it loses a field name. */
module FieldConditions {
  import opened Basics
  import opened Dedup
  import opened FieldCollection

  // ---------- failure ----------

  /** Where a walk into fragments ends: the selection set reached and the fragment names spread on the way. */
  datatype Place = Place(sels: seq<Selection>, spreads: seq<string>)

  /** Follow a walk that takes, at each level, the fragment at one index of the selection set. */
  ghost function WalkTo(doc: Document, sels: seq<Selection>, walk: seq<nat>): Option<Place>
    decreases |walk|
  {
    if walk == [] then Some(Place(sels, []))
    else if walk[0] >= |sels| then None
    else
      match sels[walk[0]]
      case Field(_, _) => None
      case InlineFragment(selectionSet) => WalkTo(doc, selectionSet, walk[1..])
      case FragmentSpread(name) =>
        match ForName(doc.fragments, name)
        case None => None
        case Some(selectionSet) =>
          match WalkTo(doc, selectionSet, walk[1..])
          case None => None
          case Some(place) => Some(Place(place.sels, [name] + place.spreads))
  }

  /** A spread that cannot be followed: its fragment is undeclared or already open on the way here. */
  ghost predicate DeadSpread(doc: Document, sel: Selection, open: set<string>) {
    sel.FragmentSpread? && (ForName(doc.fragments, sel.name) == None || sel.name in open)
  }

  ghost predicate EndsBadly(doc: Document, sels: seq<Selection>, path: set<string>, depth: nat, walk: seq<nat>) {
    var place := WalkTo(doc, sels, walk);
    && place.Some?
    && (depth + |walk| > MAX_FRAGMENT_DEPTH
        || exists i | 0 <= i < |place.value.sels| ::
          DeadSpread(doc, place.value.sels[i], path + Elements(place.value.spreads)))
  }

  lemma {:induction false} ExpandFailsIffOneDoes(doc: Document, sels: seq<Selection>, path: set<string>, depth: nat)
    requires depth <= MAX_FRAGMENT_DEPTH
    ensures Expand(doc, sels, path, depth).Err? <==>
      exists i | 0 <= i < |sels| :: ExpandOne(doc, sels[i], path, depth).Err?
  {
    if sels != [] {
      ExpandFailsIffOneDoes(doc, sels[1..], path, depth);
      if i :| 0 <= i < |sels| && ExpandOne(doc, sels[i], path, depth).Err? {
        if i > 0 { assert sels[1..][i - 1] == sels[i]; }
      }
    }
  }

  /** A failing expansion has a walk to show for it. */
  lemma {:induction false} FailureHasWalk(doc: Document, sels: seq<Selection>, path: set<string>, depth: nat)
      returns (walk: seq<nat>)
    requires Expand(doc, sels, path, depth).Err?
    ensures EndsBadly(doc, sels, path, depth, walk)
    decreases DepthLeft(depth)
  {
    walk := [];
    if depth <= MAX_FRAGMENT_DEPTH {
      ExpandFailsIffOneDoes(doc, sels, path, depth);
      var i :| 0 <= i < |sels| && ExpandOne(doc, sels[i], path, depth).Err?;
      if DeadSpread(doc, sels[i], path) {
        NoSpreads(path);
      } else {
        var selectionSet := if sels[i].InlineFragment? then sels[i].selectionSet
          else ForName(doc.fragments, sels[i].name).value;
        var path1 := if sels[i].InlineFragment? then path else path + {sels[i].name};
        var rest := FailureHasWalk(doc, selectionSet, path1, depth + 1);
        walk := [i] + rest;
        assert walk[1..] == rest;
        if sels[i].FragmentSpread? {
          OpenSpreads(path, sels[i].name, WalkTo(doc, selectionSet, rest).value.spreads);
        }
      }
    }
  }

  lemma NoSpreads(path: set<string>)
    ensures path + Elements([]) == path
  {
  }

  lemma OpenSpreads(path: set<string>, name: string, spreads: seq<string>)
    ensures path + {name} + Elements(spreads) == path + Elements([name] + spreads)
  {
    KeysOfCons(Self, [name] + spreads);
    assert ([name] + spreads)[1..] == spreads;
  }

  /** A walk that ends badly makes the expansion fail. */
  lemma {:induction false} WalkMeansFailure(doc: Document, sels: seq<Selection>, path: set<string>, depth: nat,
      walk: seq<nat>)
    requires EndsBadly(doc, sels, path, depth, walk)
    ensures Expand(doc, sels, path, depth).Err?
    decreases |walk|
  {
    if depth <= MAX_FRAGMENT_DEPTH {
      ExpandFailsIffOneDoes(doc, sels, path, depth);
      if walk == [] {
        NoSpreads(path);
      } else {
        var i := walk[0];
        if sels[i].InlineFragment? {
          WalkMeansFailure(doc, sels[i].selectionSet, path, depth + 1, walk[1..]);
        } else if sels[i].name !in path {
          var selectionSet := ForName(doc.fragments, sels[i].name).value;
          OpenSpreads(path, sels[i].name, WalkTo(doc, selectionSet, walk[1..]).value.spreads);
          WalkMeansFailure(doc, selectionSet, path + {sels[i].name}, depth + 1, walk[1..]);
        }
        assert ExpandOne(doc, sels[i], path, depth).Err?;
      }
    }
  }

  /** Collection of an operation fails exactly when some walk through its fragments is longer than
      the depth bound, or reaches a spread of an undeclared fragment or of one spread on the way. */
  lemma FailsExactlyOnBadWalk(doc: Document, sels: seq<Selection>)
    ensures Expand(doc, sels, {}, 0).Err? <==> exists walk :: EndsBadly(doc, sels, {}, 0, walk)
  {
    if Expand(doc, sels, {}, 0).Err? {
      var walk := FailureHasWalk(doc, sels, {}, 0);
    }
    if walk :| EndsBadly(doc, sels, {}, 0, walk) {
      WalkMeansFailure(doc, sels, {}, 0, walk);
    }
  }

  /** A field inside n inline fragments. */
  function Nested(field: Selection, n: nat): seq<Selection> {
    if n == 0 then [field] else [InlineFragment(Nested(field, n - 1))]
  }

  lemma {:induction false} NestedExpands(doc: Document, key: string, name: string, n: nat, depth: nat)
    ensures Expand(doc, Nested(Field(key, name), n), {}, depth) ==
      if depth + n > 16 then Err(DepthExceeded) else Ok([TopLevelField(key, name)])
    decreases n
  {
    var sels := Nested(Field(key, name), n);
    assert sels[1..] == [];
    assert [TopLevelField(key, name)] + [] == [TopLevelField(key, name)];
    if n > 0 && depth <= 16 {
      NestedExpands(doc, key, name, n - 1, depth + 1);
    }
  }

  /** Sixteen fragments inside each other are expanded, and a seventeenth is refused. */
  lemma SixteenLevels(doc: Document, key: string, name: string, n: nat)
    ensures Expand(doc, Nested(Field(key, name), n), {}, 0) ==
      if n <= 16 then Ok([TopLevelField(key, name)]) else Err(DepthExceeded)
  {
    NestedExpands(doc, key, name, n, 0);
  }

  // ---------- which fields are collected ----------

  /** A walk through fragments ends in a selection set that selects the field. */
  ghost predicate Reaches(doc: Document, sels: seq<Selection>, walk: seq<nat>, f: TopLevelField) {
    var place := WalkTo(doc, sels, walk);
    place.Some? && Field(f.responseKey, f.name) in place.value.sels
  }

  lemma {:induction false} ExpandHoldsWhatOneDoes(doc: Document, sels: seq<Selection>, path: set<string>, depth: nat,
      f: TopLevelField)
    requires depth <= MAX_FRAGMENT_DEPTH && Expand(doc, sels, path, depth).Ok?
    ensures f in Expand(doc, sels, path, depth).value <==>
      exists i | 0 <= i < |sels| ::
        ExpandOne(doc, sels[i], path, depth).Ok? && f in ExpandOne(doc, sels[i], path, depth).value
    ensures forall i | 0 <= i < |sels| :: ExpandOne(doc, sels[i], path, depth).Ok?
  {
    if sels != [] {
      ExpandHoldsWhatOneDoes(doc, sels[1..], path, depth, f);
      assert forall i | 0 < i < |sels| :: sels[i] == sels[1..][i - 1];
      assert forall i | 0 <= i < |sels| - 1 :: sels[1..][i] == sels[i + 1];
    }
  }

  /** A collected field is reached by a walk. */
  lemma {:induction false} CollectedIsReached(doc: Document, sels: seq<Selection>, path: set<string>, depth: nat,
      f: TopLevelField) returns (walk: seq<nat>)
    requires Expand(doc, sels, path, depth).Ok? && f in Expand(doc, sels, path, depth).value
    ensures Reaches(doc, sels, walk, f)
    decreases DepthLeft(depth)
  {
    ExpandHoldsWhatOneDoes(doc, sels, path, depth, f);
    var i :| 0 <= i < |sels| && ExpandOne(doc, sels[i], path, depth).Ok?
      && f in ExpandOne(doc, sels[i], path, depth).value;
    if sels[i].Field? {
      walk := [];
      assert sels[i] == Field(f.responseKey, f.name);
    } else {
      var inner := if sels[i].InlineFragment? then sels[i].selectionSet else ForName(doc.fragments, sels[i].name).value;
      var rest := CollectedIsReached(doc, inner, if sels[i].InlineFragment? then path else path + {sels[i].name},
                                     depth + 1, f);
      walk := [i] + rest;
      assert walk[1..] == rest;
    }
  }

  /** And a field that a walk reaches is collected. */
  lemma {:induction false} ReachedIsCollected(doc: Document, sels: seq<Selection>, path: set<string>, depth: nat,
      walk: seq<nat>, f: TopLevelField)
    requires Expand(doc, sels, path, depth).Ok? && Reaches(doc, sels, walk, f)
    ensures f in Expand(doc, sels, path, depth).value
    decreases |walk|
  {
    ExpandHoldsWhatOneDoes(doc, sels, path, depth, f);
    if walk == [] {
      var i :| 0 <= i < |sels| && sels[i] == Field(f.responseKey, f.name);
      assert f in ExpandOne(doc, sels[i], path, depth).value;
    } else {
      var i := walk[0];
      assert ExpandOne(doc, sels[i], path, depth).Ok?;
      if sels[i].InlineFragment? {
        ReachedIsCollected(doc, sels[i].selectionSet, path, depth + 1, walk[1..], f);
      } else {
        var inner := ForName(doc.fragments, sels[i].name).value;
        ReachedIsCollected(doc, inner, path + {sels[i].name}, depth + 1, walk[1..], f);
      }
      assert f in ExpandOne(doc, sels[i], path, depth).value;
    }
  }

  /**
    When an operation can be collected at all, its fields are exactly those that some walk through fragments reaches.
   */
  lemma CollectedExactly(doc: Document, sels: seq<Selection>, f: TopLevelField)
    requires Expand(doc, sels, {}, 0).Ok?
    ensures f in Expand(doc, sels, {}, 0).value <==> exists walk :: Reaches(doc, sels, walk, f)
  {
    if f in Expand(doc, sels, {}, 0).value {
      var walk := CollectedIsReached(doc, sels, {}, 0, f);
    }
    if walk :| Reaches(doc, sels, walk, f) {
      ReachedIsCollected(doc, sels, {}, 0, walk, f);
    }
  }

  // ---------- lost names ----------

  /** The part of FieldsInSetCanMerge (section 5.3.2) that concerns names. */
  ghost predicate FieldsCanMerge(fields: seq<TopLevelField>) {
    forall f, g | f in fields && g in fields && f.responseKey == g.responseKey :: f.name == g.name
  }

  lemma KeptForEveryKey(fields: seq<TopLevelField>, f: TopLevelField) returns (g: TopLevelField)
    requires f in fields
    ensures g in FirstPerKey(ResponseKey, fields, {}) && g in fields && g.responseKey == f.responseKey
  {
    var kept := FirstPerKey(ResponseKey, fields, {});
    FirstPerKeyKeys(ResponseKey, fields, {});
    assert ResponseKey(f) in Keys(ResponseKey, fields);
    assert ResponseKey(f) in Keys(ResponseKey, kept);
    g :| g in kept && ResponseKey(g) == ResponseKey(f);
  }

  /** Every selected field is collected exactly when the fields that share a key share a name. */
  lemma NothingLostExactlyWhenMergeable(fields: seq<TopLevelField>)
    ensures (forall f | f in fields :: f in FirstPerKey(ResponseKey, fields, {})) <==> FieldsCanMerge(fields)
  {
    var kept := FirstPerKey(ResponseKey, fields, {});
    FirstPerKeyKeys(ResponseKey, fields, {});
    if FieldsCanMerge(fields) {
      forall f | f in fields ensures f in kept {
        var g := KeptForEveryKey(fields, f);
        assert g == f;
      }
    } else {
      var f, g :| f in fields && g in fields && f.responseKey == g.responseKey && f.name != g.name;
      NotBothKept(kept, f, g);
    }
  }

  lemma NotBothKept(kept: seq<TopLevelField>, f: TopLevelField, g: TopLevelField)
    requires DistinctKeys(ResponseKey, kept) && f.responseKey == g.responseKey && f != g
    ensures f !in kept || g !in kept
  {
  }

  /** The name is the first that some response key has. */
  ghost predicate LeadsSomeKey(fields: seq<TopLevelField>, name: string) {
    exists i: nat :: i < |fields| && IsFirst(ResponseKey, fields, {}, i) && fields[i].name == name
  }

  /** The names the gate looks up are all names a request selects exactly when each leads some response key. */
  lemma NamesCompleteExactly(fields: seq<TopLevelField>)
    ensures Elements(Distinct(Names(FirstPerKey(ResponseKey, fields, {})))) == Elements(Names(fields)) <==>
      forall f | f in fields :: LeadsSomeKey(fields, f.name)
  {
    hide FirstPerKey, IsFirst, LeadsSomeKey;
    var kept := FirstPerKey(ResponseKey, fields, {});
    FirstPerKeyKeys(ResponseKey, fields, {});
    FirstPerKeyKeys(Self, Names(kept), {});
    NamesAreElements(kept);
    NamesAreElements(fields);
    forall n ensures n in Elements(Names(kept)) <==> LeadsSomeKey(fields, n) {
      NameIsKeptExactly(fields, n);
    }
    if Elements(Names(kept)) == Elements(Names(fields)) {
      forall f | f in fields ensures LeadsSomeKey(fields, f.name) {
        assert f.name in Elements(Names(fields));
      }
    }
  }

  lemma NameIsKeptExactly(fields: seq<TopLevelField>, n: string)
    ensures (exists f :: f in FirstPerKey(ResponseKey, fields, {}) && f.name == n) <==> LeadsSomeKey(fields, n)
  {
    hide FirstPerKey;
    if f :| f in FirstPerKey(ResponseKey, fields, {}) && f.name == n {
      FirstPerKeyExactly(ResponseKey, fields, {}, f);
    }
    if i: nat :| i < |fields| && IsFirst(ResponseKey, fields, {}, i) && fields[i].name == n {
      FirstPerKeyExactly(ResponseKey, fields, {}, fields[i]);
      assert fields[i] in FirstPerKey(ResponseKey, fields, {});
    }
  }

  /** So they are whenever the fields can merge. */
  lemma NamesComplete(fields: seq<TopLevelField>)
    requires FieldsCanMerge(fields)
    ensures Elements(Distinct(Names(FirstPerKey(ResponseKey, fields, {})))) == Elements(Names(fields))
  {
    hide FirstPerKey, IsFirst;
    NamesCompleteExactly(fields);
    NothingLostExactlyWhenMergeable(fields);
    forall f | f in fields ensures LeadsSomeKey(fields, f.name) {
      assert f in FirstPerKey(ResponseKey, fields, {});
      NameIsKeptExactly(fields, f.name);
    }
  }

  lemma NamesAreElements(fields: seq<TopLevelField>)
    ensures forall n :: n in Elements(Names(fields)) <==> exists f :: f in fields && f.name == n
  {
    forall n ensures n in Elements(Names(fields)) <==> exists f :: f in fields && f.name == n {
      if n in Elements(Names(fields)) {
        var x :| x in Names(fields) && Self(x) == n;
        var i :| 0 <= i < |Names(fields)| && Names(fields)[i] == x;
        assert fields[i] in fields && fields[i].name == n;
      }
      if f :| f in fields && f.name == n {
        var i :| 0 <= i < |fields| && fields[i] == f;
        assert Names(fields)[i] == n && Self(n) == n;
      }
    }
  }

  lemma SecondUnderOneKey(f: TopLevelField, g: TopLevelField)
    requires f.responseKey == g.responseKey
    ensures FirstPerKey(ResponseKey, [f, g], {}) == [f]
  {
    assert [f, g] == [f] + [g];
    FirstPerKeyOfConcat(ResponseKey, [f], [g], {});
    SingleField(f, {});
    SingleField(g, {} + Keys(ResponseKey, [f]));
  }

  /** Without that condition a second name under a used key is never looked up. */
  lemma SecondNameUnderOneKeyIsLost(key: string, first: string, second: string)
    ensures
      var doc := Document([Operation("", [Field(key, first), Field(key, second)])], []);
      && ExpandOperations(doc, doc.operations, "") == Ok([TopLevelField(key, first), TopLevelField(key, second)])
      && Deduplicated(ExpandOperations(doc, doc.operations, ""), {}) == Ok([TopLevelField(key, first)])
  {
    var sels := [Field(key, first), Field(key, second)];
    var doc := Document([Operation("", sels)], []);
    var f, g := TopLevelField(key, first), TopLevelField(key, second);
    assert sels[1..] == [Field(key, second)];
    assert Expand(doc, sels[1..], {}, 0) == Ok([g]) by { assert [g] + [] == [g]; }
    assert Expand(doc, sels, {}, 0) == Ok([f, g]) by { assert [f] + [g] == [f, g]; }
    assert doc.operations[1..] == [] && [f, g] + [] == [f, g];
    SecondUnderOneKey(f, g);
  }
}
