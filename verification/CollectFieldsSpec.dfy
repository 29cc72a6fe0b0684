/**
  CollectFields of the GraphQL specification (October 2021, section 6.3.2), and its agreement
  with the host's collector.

  CollectFields visits each fragment once per operation and groups fields by response key. The
  host expands a repeated fragment again and keeps the first field of each key.
 */
module CollectFieldsSpec {
  import opened Basics
  import opened Dedup
  import opened FieldCollection

  // ---------- the specification's algorithm ----------

  /** One entry of the ordered map from response key to the fields that share it. */
  datatype Group = Group(responseKey: string, fields: seq<TopLevelField>)

  /** Append fields to the group of a key, creating it at the end of the map when absent. */
  function AppendToGroup(grouped: seq<Group>, key: string, fields: seq<TopLevelField>): (r: seq<Group>)
    ensures r != []
  {
    if grouped == [] then [Group(key, fields)]
    else if grouped[0].responseKey == key then [Group(key, grouped[0].fields + fields)] + grouped[1..]
    else [grouped[0]] + AppendToGroup(grouped[1..], key, fields)
  }

  /** For each group of a fragment's map, append its fields to the group of the same key. */
  function AppendGroups(grouped: seq<Group>, nested: seq<Group>): seq<Group>
    decreases |nested|
  {
    if nested == [] then grouped
    else AppendGroups(AppendToGroup(grouped, nested[0].responseKey, nested[0].fields), nested[1..])
  }

  ghost function FragmentNames(doc: Document): set<string> {
    set f | f in doc.fragments :: f.name
  }

  lemma {:induction false} ForNameIsDeclared(fragments: seq<Fragment>, name: string)
    requires ForName(fragments, name).Some?
    ensures exists f | f in fragments :: f.name == name
  {
    if fragments[0].name == name {
      assert fragments[0] in fragments;
    } else {
      ForNameIsDeclared(fragments[1..], name);
    }
  }

  datatype Visit<T> = Visit(result: T, visited: set<string>)

  /** CollectFields: visitedFragments lives across the whole operation. */
  ghost function CollectFields(doc: Document, sels: seq<Selection>, visited: set<string>,
      grouped: seq<Group>): (r: Visit<seq<Group>>)
    ensures visited <= r.visited
    decreases FragmentNames(doc) - visited, sels
  {
    if sels == [] then Visit(grouped, visited)
    else
      match sels[0]
      case Field(alias, name) =>
        CollectFields(doc, sels[1..], visited, AppendToGroup(grouped, alias, [TopLevelField(alias, name)]))
      case InlineFragment(selectionSet) =>
        var nested := CollectFields(doc, selectionSet, visited, []);
        CollectFields(doc, sels[1..], nested.visited, AppendGroups(grouped, nested.result))
      case FragmentSpread(name) =>
        if name in visited then CollectFields(doc, sels[1..], visited, grouped)
        else
          match ForName(doc.fragments, name)
          case None => CollectFields(doc, sels[1..], visited + {name}, grouped)
          case Some(selectionSet) =>
            ForNameIsDeclared(doc.fragments, name);
            var nested := CollectFields(doc, selectionSet, visited + {name}, []);
            CollectFields(doc, sels[1..], nested.visited, AppendGroups(grouped, nested.result))
  }

  // ---------- what the grouping amounts to ----------

  ghost predicate WellGrouped(grouped: seq<Group>) {
    forall g | g in grouped :: g.fields != [] && g.fields[0].responseKey == g.responseKey
  }

  /** The response keys in order, each with the first field of its group. */
  ghost function Heads(grouped: seq<Group>): seq<TopLevelField>
    requires WellGrouped(grouped)
  {
    if grouped == [] then [] else [grouped[0].fields[0]] + Heads(grouped[1..])
  }

  ghost function HeadKeys(grouped: seq<Group>): set<string>
    requires WellGrouped(grouped)
  {
    Keys(ResponseKey, Heads(grouped))
  }

  lemma HeadsOfCons(g: Group, grouped: seq<Group>)
    requires WellGrouped([g] + grouped)
    ensures WellGrouped(grouped) && g.fields != []
    ensures Heads([g] + grouped) == [g.fields[0]] + Heads(grouped)
    ensures HeadKeys([g] + grouped) == {g.responseKey} + HeadKeys(grouped)
  {
    assert g in [g] + grouped && forall x | x in grouped :: x in [g] + grouped;
    assert ([g] + grouped)[1..] == grouped;
    KeysOfCons(ResponseKey, [g.fields[0]] + Heads(grouped));
    assert ([g.fields[0]] + Heads(grouped))[1..] == Heads(grouped);
  }

  lemma {:induction false} AppendToGroupHeads(grouped: seq<Group>, key: string, fields: seq<TopLevelField>)
    requires WellGrouped(grouped) && fields != [] && fields[0].responseKey == key
    ensures WellGrouped(AppendToGroup(grouped, key, fields))
    ensures Heads(AppendToGroup(grouped, key, fields)) ==
      Heads(grouped) + FirstPerKey(ResponseKey, [fields[0]], HeadKeys(grouped))
  {
    SingleField(fields[0], HeadKeys(grouped));
    if grouped == [] {
      HeadsOfCons(Group(key, fields), []);
      assert [Group(key, fields)] + [] == [Group(key, fields)];
    } else {
      var g, rest := grouped[0], grouped[1..];
      assert grouped == [g] + rest;
      HeadsOfCons(g, rest);
      if g.responseKey == key {
        HeadsOfCons(Group(key, g.fields + fields), rest);
      } else {
        AppendToGroupHeads(rest, key, fields);
        SingleField(fields[0], HeadKeys(rest));
        HeadsOfCons(g, AppendToGroup(rest, key, fields));
      }
    }
  }

  lemma {:induction false} AppendGroupsHeads(grouped: seq<Group>, nested: seq<Group>)
    requires WellGrouped(grouped) && WellGrouped(nested)
    ensures WellGrouped(AppendGroups(grouped, nested))
    ensures Heads(AppendGroups(grouped, nested)) ==
      Heads(grouped) + FirstPerKey(ResponseKey, Heads(nested), HeadKeys(grouped))
    decreases |nested|
  {
    if nested == [] {
      hide AppendToGroup, Keys;
    } else {
      hide FirstPerKey, Keys, AppendToGroup, Heads;
      var g, rest := nested[0], nested[1..];
      assert nested == [g] + rest;
      HeadsOfCons(g, rest);
      AppendToGroupHeads(grouped, g.responseKey, g.fields);
      var grouped1 := AppendToGroup(grouped, g.responseKey, g.fields);
      AppendGroupsHeads(grouped1, rest);
      HeadKeysAfterAppend(grouped, grouped1, g.fields[0]);
      SingleField(g.fields[0], HeadKeys(grouped));
      FirstPerKeyOfConcat(ResponseKey, [g.fields[0]], Heads(rest), HeadKeys(grouped));
    }
  }

  lemma HeadKeysAfterAppend(grouped: seq<Group>, grouped1: seq<Group>, f: TopLevelField)
    requires WellGrouped(grouped) && WellGrouped(grouped1)
    requires Heads(grouped1) == Heads(grouped) + FirstPerKey(ResponseKey, [f], HeadKeys(grouped))
    ensures HeadKeys(grouped1) == HeadKeys(grouped) + {f.responseKey}
  {
    hide FirstPerKey, Heads;
    SingleField(f, HeadKeys(grouped));
    KeysOfConcat(ResponseKey, Heads(grouped), [f]);
    assert Heads(grouped) + [] == Heads(grouped);
  }

  /** The fields CollectFields meets, in order, before any grouping. */
  ghost function VisitOnce(doc: Document, sels: seq<Selection>, visited: set<string>): (r: Visit<seq<TopLevelField>>)
    ensures visited <= r.visited
    decreases FragmentNames(doc) - visited, sels
  {
    if sels == [] then Visit([], visited)
    else
      var first := VisitOne(doc, sels[0], visited);
      var rest := VisitOnce(doc, sels[1..], first.visited);
      Visit(first.result + rest.result, rest.visited)
  }

  ghost function VisitOne(doc: Document, sel: Selection, visited: set<string>): (r: Visit<seq<TopLevelField>>)
    ensures visited <= r.visited
    decreases FragmentNames(doc) - visited, sel
  {
    match sel
    case Field(alias, name) => Visit([TopLevelField(alias, name)], visited)
    case InlineFragment(selectionSet) => VisitOnce(doc, selectionSet, visited)
    case FragmentSpread(name) =>
      if name in visited then Visit([], visited)
      else
        match ForName(doc.fragments, name)
        case None => Visit([], visited + {name})
        case Some(selectionSet) =>
          ForNameIsDeclared(doc.fragments, name);
          VisitOnce(doc, selectionSet, visited + {name})
  }

  /** Grouping keeps, for each key, the first field met. */
  lemma {:induction false} CollectFieldsHeads(doc: Document, sels: seq<Selection>, visited: set<string>,
      grouped: seq<Group>)
    requires WellGrouped(grouped)
    ensures
      var r, met := CollectFields(doc, sels, visited, grouped), VisitOnce(doc, sels, visited);
      && r.visited == met.visited
      && WellGrouped(r.result)
      && Heads(r.result) == Heads(grouped) + FirstPerKey(ResponseKey, met.result, HeadKeys(grouped))
    decreases FragmentNames(doc) - visited, sels
  {
    if sels != [] {
      var first := VisitOne(doc, sels[0], visited);
      var grouped1 := grouped;
      match sels[0] {
        case Field(alias, name) =>
          AppendToGroupHeads(grouped, alias, [TopLevelField(alias, name)]);
          grouped1 := AppendToGroup(grouped, alias, [TopLevelField(alias, name)]);
        case InlineFragment(selectionSet) =>
          CollectFieldsHeads(doc, selectionSet, visited, []);
          grouped1 := AddNested(CollectFields(doc, selectionSet, visited, []).result, first.result, grouped);
        case FragmentSpread(name) =>
          if name !in visited && ForName(doc.fragments, name).Some? {
            ForNameIsDeclared(doc.fragments, name);
            var selectionSet := ForName(doc.fragments, name).value;
            CollectFieldsHeads(doc, selectionSet, visited + {name}, []);
            grouped1 := AddNested(CollectFields(doc, selectionSet, visited + {name}, []).result, first.result, grouped);
          }
      }
      assert Heads(grouped1) == Heads(grouped) + FirstPerKey(ResponseKey, first.result, HeadKeys(grouped));
      CollectFieldsHeads(doc, sels[1..], first.visited, grouped1);
      ConcatOnto(grouped, grouped1, first.result, VisitOnce(doc, sels[1..], first.visited).result);
    }
  }

  lemma AddNested(nested: seq<Group>, met: seq<TopLevelField>, grouped: seq<Group>) returns (r: seq<Group>)
    requires WellGrouped(nested) && WellGrouped(grouped)
    requires Heads(nested) == Heads([]) + FirstPerKey(ResponseKey, met, HeadKeys([]))
    ensures r == AppendGroups(grouped, nested) && WellGrouped(r)
    ensures Heads(r) == Heads(grouped) + FirstPerKey(ResponseKey, met, HeadKeys(grouped))
  {
    r := AppendGroups(grouped, nested);
    AppendGroupsHeads(grouped, nested);
    assert HeadKeys([]) == {} && Heads([]) + FirstPerKey(ResponseKey, met, {}) == FirstPerKey(ResponseKey, met, {});
    FirstPerKeyTwice(ResponseKey, met, {}, HeadKeys(grouped));
  }

  lemma ConcatOnto(grouped: seq<Group>, grouped1: seq<Group>, first: seq<TopLevelField>, rest: seq<TopLevelField>)
    requires WellGrouped(grouped) && WellGrouped(grouped1)
    requires Heads(grouped1) == Heads(grouped) + FirstPerKey(ResponseKey, first, HeadKeys(grouped))
    ensures Heads(grouped1) + FirstPerKey(ResponseKey, rest, HeadKeys(grouped1))
         == Heads(grouped) + FirstPerKey(ResponseKey, first + rest, HeadKeys(grouped))
  {
    hide FirstPerKey, Keys, Heads;
    FirstPerKeyOfConcat(ResponseKey, first, rest, HeadKeys(grouped));
    FirstPerKeyKeys(ResponseKey, first, HeadKeys(grouped));
    KeysOfConcat(ResponseKey, Heads(grouped), FirstPerKey(ResponseKey, first, HeadKeys(grouped)));
    assert HeadKeys(grouped1) == HeadKeys(grouped) + Keys(ResponseKey, first);
  }

  // ---------- agreement with the host's collector ----------

  ghost predicate Expands(doc: Document, sels: seq<Selection>, path: set<string>, depth: nat) {
    Expand(doc, sels, path, depth).Ok?
  }

  /** What a selection set expands to does not depend on where it is spread. */
  lemma {:induction false} ExpandIsIndependent(doc: Document, sels: seq<Selection>, path1: set<string>, depth1: nat,
      path2: set<string>, depth2: nat)
    requires Expands(doc, sels, path1, depth1) && Expands(doc, sels, path2, depth2)
    ensures Expand(doc, sels, path1, depth1) == Expand(doc, sels, path2, depth2)
    decreases DepthLeft(depth1), |sels|
  {
    if sels != [] {
      assert ExpandOne(doc, sels[0], path1, depth1).Ok? && ExpandOne(doc, sels[0], path2, depth2).Ok?;
      match sels[0] {
        case Field(_, _) =>
        case InlineFragment(selectionSet) =>
          ExpandIsIndependent(doc, selectionSet, path1, depth1 + 1, path2, depth2 + 1);
        case FragmentSpread(name) =>
          ExpandIsIndependent(doc, ForName(doc.fragments, name).value, path1 + {name}, depth1 + 1, path2 + {name},
            depth2 + 1);
      }
      ExpandIsIndependent(doc, sels[1..], path1, depth1, path2, depth2);
    }
  }

  /** Every key a fragment can contribute has been seen. */
  ghost predicate Exhausted(doc: Document, name: string, seen: set<string>) {
    match ForName(doc.fragments, name)
    case None => true
    case Some(selectionSet) =>
      forall path, depth: nat | Expands(doc, selectionSet, path, depth) ::
        Keys(ResponseKey, Expand(doc, selectionSet, path, depth).value) <= seen
  }

  ghost predicate AllExhausted(doc: Document, names: set<string>, seen: set<string>) {
    forall name | name in names :: Exhausted(doc, name, seen)
  }

  lemma ExhaustedOnceExpanded(doc: Document, name: string, path: set<string>, depth: nat, seen: set<string>)
    requires ForName(doc.fragments, name).Some?
    requires Expands(doc, ForName(doc.fragments, name).value, path, depth)
    requires Keys(ResponseKey, Expand(doc, ForName(doc.fragments, name).value, path, depth).value) <= seen
    ensures Exhausted(doc, name, seen)
  {
    var selectionSet := ForName(doc.fragments, name).value;
    forall p, d: nat | Expands(doc, selectionSet, p, d)
      ensures Keys(ResponseKey, Expand(doc, selectionSet, p, d).value) <= seen
    {
      ExpandIsIndependent(doc, selectionSet, path, depth, p, d);
    }
  }

  /** Both lists offer the same new fields and leave the same keys seen. */
  ghost predicate Alike(xs: seq<TopLevelField>, ys: seq<TopLevelField>, seen: set<string>) {
    && FirstPerKey(ResponseKey, xs, seen) == FirstPerKey(ResponseKey, ys, seen)
    && seen + Keys(ResponseKey, xs) == seen + Keys(ResponseKey, ys)
  }

  lemma AlikeConcat(xs1: seq<TopLevelField>, ys1: seq<TopLevelField>, xs2: seq<TopLevelField>,
      ys2: seq<TopLevelField>, seen: set<string>)
    requires Alike(xs1, ys1, seen) && Alike(xs2, ys2, seen + Keys(ResponseKey, xs1))
    ensures Alike(xs1 + xs2, ys1 + ys2, seen)
  {
    FirstPerKeyOfConcat(ResponseKey, xs1, xs2, seen);
    FirstPerKeyOfConcat(ResponseKey, ys1, ys2, seen);
    KeysOfConcat(ResponseKey, xs1, xs2);
    KeysOfConcat(ResponseKey, ys1, ys2);
  }

  /** Walking on from a state in which every fragment visited, except those still open on the
      spread path, is exhausted, visiting once and expanding again offer the same new fields. */
  lemma {:induction false} VisitOnceAgrees(doc: Document, sels: seq<Selection>, path: set<string>, depth: nat,
      visited: set<string>, seen: set<string>)
    requires Expands(doc, sels, path, depth)
    requires path <= visited && AllExhausted(doc, visited - path, seen)
    ensures
      var all, met := Expand(doc, sels, path, depth).value, VisitOnce(doc, sels, visited);
      && Alike(all, met.result, seen)
      && AllExhausted(doc, met.visited - path, seen + Keys(ResponseKey, all))
    decreases DepthLeft(depth), |sels| + 1
  {
    if sels != [] {
      VisitOneAgrees(doc, sels[0], path, depth, visited, seen);
      var one, first := ExpandOne(doc, sels[0], path, depth).value, VisitOne(doc, sels[0], visited);
      var seen1 := seen + Keys(ResponseKey, one);
      VisitOnceAgrees(doc, sels[1..], path, depth, first.visited, seen1);
      var rest := Expand(doc, sels[1..], path, depth).value;
      AlikeConcat(one, first.result, rest, VisitOnce(doc, sels[1..], first.visited).result, seen);
      KeysOfConcat(ResponseKey, one, rest);
      assert seen1 + Keys(ResponseKey, rest) == seen + Keys(ResponseKey, one + rest);
    }
  }

  lemma {:induction false} VisitOneAgrees(doc: Document, sel: Selection, path: set<string>, depth: nat,
      visited: set<string>, seen: set<string>)
    requires depth <= MAX_FRAGMENT_DEPTH && ExpandOne(doc, sel, path, depth).Ok?
    requires path <= visited && AllExhausted(doc, visited - path, seen)
    ensures
      var all, met := ExpandOne(doc, sel, path, depth).value, VisitOne(doc, sel, visited);
      && Alike(all, met.result, seen)
      && AllExhausted(doc, met.visited - path, seen + Keys(ResponseKey, all))
    decreases DepthLeft(depth), 0
  {
    var all, met := ExpandOne(doc, sel, path, depth).value, VisitOne(doc, sel, visited);
    match sel {
      case Field(_, _) =>
        StillExhausted(doc, visited - path, seen, seen + Keys(ResponseKey, all));
      case InlineFragment(selectionSet) =>
        VisitOnceAgrees(doc, selectionSet, path, depth + 1, visited, seen);
      case FragmentSpread(name) =>
        var selectionSet := ForName(doc.fragments, name).value;
        if name in visited {
          assert Exhausted(doc, name, seen);
          assert Expands(doc, selectionSet, path + {name}, depth + 1);
          FirstPerKeyAllSeen(ResponseKey, all, seen);
          StillExhausted(doc, visited - path, seen, seen + Keys(ResponseKey, all));
        } else {
          assert (visited + {name}) - (path + {name}) == visited - path;
          VisitOnceAgrees(doc, selectionSet, path + {name}, depth + 1, visited + {name}, seen);
          ExhaustedOnceExpanded(doc, name, path + {name}, depth + 1, seen + Keys(ResponseKey, all));
        }
    }
  }

  lemma StillExhausted(doc: Document, names: set<string>, seen: set<string>, more: set<string>)
    requires AllExhausted(doc, names, seen) && seen <= more
    ensures AllExhausted(doc, names, more)
  {
    forall name | name in names ensures Exhausted(doc, name, more) {
      assert Exhausted(doc, name, seen);
    }
  }

  /** Whenever the host collects the fields of an operation, it reports exactly the response keys
      of CollectFields, in the same order and with the same first field for each. */
  lemma CollectorAgreesWithCollectFields(doc: Document, op: Operation)
    requires Expand(doc, op.selectionSet, {}, 0).Ok?
    ensures
      var grouped := CollectFields(doc, op.selectionSet, {}, []).result;
      && WellGrouped(grouped)
      && Deduplicated(Expand(doc, op.selectionSet, {}, 0), {}) == Ok(Heads(grouped))
  {
    var met := VisitOnce(doc, op.selectionSet, {}).result;
    VisitOnceAgrees(doc, op.selectionSet, {}, 0, {}, {});
    CollectFieldsHeads(doc, op.selectionSet, {}, []);
    assert HeadKeys([]) == {} && Heads([]) + FirstPerKey(ResponseKey, met, {}) == FirstPerKey(ResponseKey, met, {});
  }

  /** The request asks for operation i: the only one, or the only one of the given name. */
  ghost predicate OnlySelected(ops: seq<Operation>, i: nat, operationName: string) {
    && i < |ops|
    && if operationName == "" then |ops| == 1 else forall j | 0 <= j < |ops| :: ops[j].name == operationName <==> j == i
  }

  lemma {:induction false} ExpandOnlySelected(doc: Document, ops: seq<Operation>, i: nat, operationName: string)
    requires OnlySelected(ops, i, operationName)
    ensures ExpandOperations(doc, ops, operationName) == Expand(doc, ops[i].selectionSet, {}, 0)
  {
    if i == 0 {
      var one := Expand(doc, ops[0].selectionSet, {}, 0);
      ExpandNoneSelected(doc, ops[1..], operationName);
      if one.Ok? { assert one.value + [] == one.value; }
    } else {
      ExpandOnlySelected(doc, ops[1..], i - 1, operationName);
    }
  }

  lemma {:induction false} ExpandNoneSelected(doc: Document, ops: seq<Operation>, operationName: string)
    requires operationName != "" || ops == []
    requires forall j | 0 <= j < |ops| :: ops[j].name != operationName
    ensures ExpandOperations(doc, ops, operationName) == Ok([])
  {
    if ops != [] {
      ExpandNoneSelected(doc, ops[1..], operationName);
    }
  }

  /** The same for a request whose operation name selects one operation of the document. */
  lemma RequestAgreesWithCollectFields(doc: Document, i: nat, operationName: string)
    requires OnlySelected(doc.operations, i, operationName)
    requires ExpandOperations(doc, doc.operations, operationName).Ok?
    ensures
      var grouped := CollectFields(doc, doc.operations[i].selectionSet, {}, []).result;
      && WellGrouped(grouped)
      && Deduplicated(ExpandOperations(doc, doc.operations, operationName), {}) == Ok(Heads(grouped))
  {
    ExpandOnlySelected(doc, doc.operations, i, operationName);
    CollectorAgreesWithCollectFields(doc, doc.operations[i]);
  }
}
