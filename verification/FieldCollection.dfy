/**
  Which top-level fields a GraphQL operation selects, as the host's collector finds them.

  Directives and type conditions are not modelled: the host's collector ignores both.
 */
module FieldCollection {
  import opened Basics
  import opened Dedup

  datatype Selection =
    | Field(alias: string, name: string)
    | InlineFragment(selectionSet: seq<Selection>)
    | FragmentSpread(name: string)

  datatype Fragment = Fragment(name: string, selectionSet: seq<Selection>)

  datatype Operation = Operation(name: string, selectionSet: seq<Selection>)

  datatype Document = Document(operations: seq<Operation>, fragments: seq<Fragment>)

  datatype TopLevelField = TopLevelField(responseKey: string, name: string)

  datatype QueryError =
    | SyntaxError
    | DepthExceeded
    | FragmentCycle(name: string)
    | UndeclaredFragment(name: string)

  type Collected = Result<seq<TopLevelField>, QueryError>

  const MAX_FRAGMENT_DEPTH: nat := 16

  /** The first declaration of a fragment name. */
  function ForName(fragments: seq<Fragment>, name: string): Option<seq<Selection>> {
    if fragments == [] then None
    else if fragments[0].name == name then Some(fragments[0].selectionSet)
    else ForName(fragments[1..], name)
  }

  /** A name is looked up to its first declaration. */
  lemma {:induction false} ForNameIsFirst(fragments: seq<Fragment>, name: string)
    ensures ForName(fragments, name) == None <==> forall f | f in fragments :: f.name != name
    ensures ForName(fragments, name).Some? ==>
      exists i | 0 <= i < |fragments| ::
        && fragments[i] == Fragment(name, ForName(fragments, name).value)
        && forall j | 0 <= j < i :: fragments[j].name != name
  {
    if fragments != [] {
      ForNameIsFirst(fragments[1..], name);
      assert fragments == [fragments[0]] + fragments[1..];
      if fragments[0].name != name && ForName(fragments, name).Some? {
        var rest := fragments[1..];
        var i :| 0 <= i < |rest| && rest[i] == Fragment(name, ForName(rest, name).value)
          && forall j | 0 <= j < i :: rest[j].name != name;
        assert fragments[i + 1] == rest[i];
        assert forall j | 0 < j < i + 1 :: fragments[j] == rest[j - 1];
      } else if fragments[0].name == name {
        assert fragments[0] == Fragment(name, ForName(fragments, name).value);
      }
    }
  }

  function ResponseKey(f: TopLevelField): string {
    f.responseKey
  }

  // ---------- the full expansion ----------

  ghost function DepthLeft(depth: nat): nat {
    if depth > MAX_FRAGMENT_DEPTH then 0 else MAX_FRAGMENT_DEPTH + 1 - depth
  }

  /** Every field below a selection set, in order and with repeats, or the first error met. */
  ghost function Expand(doc: Document, sels: seq<Selection>, path: set<string>, depth: nat): Collected
    decreases DepthLeft(depth), |sels| + 1
  {
    if depth > MAX_FRAGMENT_DEPTH then Err(DepthExceeded)
    else if sels == [] then Ok([])
    else Chain(ExpandOne(doc, sels[0], path, depth), Expand(doc, sels[1..], path, depth))
  }

  ghost function ExpandOne(doc: Document, sel: Selection, path: set<string>, depth: nat): Collected
    requires depth <= MAX_FRAGMENT_DEPTH
    decreases DepthLeft(depth), 0
  {
    match sel
    case Field(alias, name) => Ok([TopLevelField(alias, name)])
    case InlineFragment(selectionSet) => Expand(doc, selectionSet, path, depth + 1)
    case FragmentSpread(name) =>
      if name in path then Err(FragmentCycle(name))
      else
        match ForName(doc.fragments, name)
        case None => Err(UndeclaredFragment(name))
        case Some(selectionSet) => Expand(doc, selectionSet, path + {name}, depth + 1)
  }

  ghost function Chain(first: Collected, rest: Collected): Collected {
    if first.Err? then first else if rest.Err? then rest else Ok(first.value + rest.value)
  }

  lemma ChainAssociative(a: Collected, b: Collected, c: Collected)
    ensures Chain(Chain(a, b), c) == Chain(a, Chain(b, c))
  {
    if a.Ok? && b.Ok? && c.Ok? {
      assert a.value + b.value + c.value == a.value + (b.value + c.value);
    }
  }

  // ---------- the host's collector ----------

  /** The walk over one operation. Both maps are shared by all levels of the recursion. */
  class Collector {
    var seen: set<string>
    var visitedFrags: set<string>

    constructor ()
      ensures seen == {} && visitedFrags == {}
    {
      seen, visitedFrags := {}, {};
    }

    /** Succeeds or fails as the expansion does; on success returns the first field of every new
        response key. Whatever the outcome, the spread path is as it was. */
    method CollectTopLevelFields(sels: seq<Selection>, doc: Document, depth: nat) returns (r: Collected)
      modifies this
      ensures visitedFrags == old(visitedFrags)
      ensures r == Deduplicated(Expand(doc, sels, old(visitedFrags), depth), old(seen))
      ensures r.Ok? ==> seen == old(seen) + Keys(ResponseKey, Expand(doc, sels, old(visitedFrags), depth).value)
      decreases DepthLeft(depth), 1
    {
      if depth > MAX_FRAGMENT_DEPTH {
        return Err(DepthExceeded);
      }
      hide Expand, FirstPerKey, Keys, Walk.Progress;
      ghost var walk := Walk(doc, sels, visitedFrags, depth, seen);
      ghost var done: seq<TopLevelField> := [];
      var fields: seq<TopLevelField> := [];
      walk.Begin();
      for i := 0 to |sels|
        invariant visitedFrags == old(visitedFrags)
        invariant walk.Progress(i, done, fields, seen)
      {
        ghost var one := ExpandOne(doc, sels[i], visitedFrags, depth);
        walk.Step(i, done, fields, seen);
        match sels[i] {
          case Field(alias, name) =>
            SingleField(TopLevelField(alias, name), seen);
            if alias !in seen {
              seen := seen + {alias};
              fields := fields + [TopLevelField(alias, name)];
            }
          case InlineFragment(selectionSet) =>
            var nested := CollectTopLevelFields(selectionSet, doc, depth + 1);
            if nested.Err? {
              return nested;
            }
            fields := fields + nested.value;
          case FragmentSpread(name) =>
            var nested := CollectSpread(name, doc, depth);
            if nested.Err? {
              return nested;
            }
            fields := fields + nested.value;
        }
        done := done + one.value;
      }
      walk.End(done, fields, seen);
      return Ok(fields);
    }

    /** The case of a spread: its fragment is open while it is collected. */
    method CollectSpread(name: string, doc: Document, depth: nat) returns (r: Collected)
      requires depth <= MAX_FRAGMENT_DEPTH
      modifies this
      ensures visitedFrags == old(visitedFrags)
      ensures r == Deduplicated(ExpandOne(doc, FragmentSpread(name), old(visitedFrags), depth), old(seen))
      ensures r.Ok? ==>
        seen == old(seen) + Keys(ResponseKey, ExpandOne(doc, FragmentSpread(name), old(visitedFrags), depth).value)
      decreases DepthLeft(depth), 0
    {
      hide Expand, FirstPerKey, Keys;
      if name in visitedFrags {
        return Err(FragmentCycle(name));
      }
      var frag := ForName(doc.fragments, name);
      if frag == None {
        return Err(UndeclaredFragment(name));
      }
      visitedFrags := visitedFrags + {name};
      r := CollectTopLevelFields(frag.value, doc, depth + 1);
      visitedFrags := visitedFrags - {name};
    }
  }

  ghost function Deduplicated(all: Collected, seen: set<string>): Collected {
    if all.Err? then all else Ok(FirstPerKey(ResponseKey, all.value, seen))
  }

  /** The fixed part of one call of the collector, and what its loop keeps. */
  datatype Walk = Walk(doc: Document, sels: seq<Selection>, path: set<string>, depth: nat, seen0: set<string>) {

    ghost function All(): Collected {
      Expand(doc, sels, path, depth)
    }

    ghost predicate Progress(i: nat, done: seq<TopLevelField>, fields: seq<TopLevelField>, seen: set<string>) {
      && depth <= MAX_FRAGMENT_DEPTH && i <= |sels|
      && All() == Chain(Ok(done), Expand(doc, sels[i..], path, depth))
      && fields == FirstPerKey(ResponseKey, done, seen0)
      && seen == seen0 + Keys(ResponseKey, done)
    }

    lemma Begin()
      requires depth <= MAX_FRAGMENT_DEPTH
      ensures Progress(0, [], [], seen0)
    {
      assert sels[0..] == sels;
      if All().Ok? { assert [] + All().value == All().value; }
    }

    lemma Step(i: nat, done: seq<TopLevelField>, fields: seq<TopLevelField>, seen: set<string>)
      requires Progress(i, done, fields, seen) && i < |sels|
      ensures var one := ExpandOne(doc, sels[i], path, depth);
        if one.Err? then All() == one
        else Progress(i + 1, done + one.value, fields + FirstPerKey(ResponseKey, one.value, seen),
          seen + Keys(ResponseKey, one.value))
    {
      var one := ExpandOne(doc, sels[i], path, depth);
      assert sels[i..][0] == sels[i] && sels[i..][1..] == sels[i + 1..];
      ChainAssociative(Ok(done), one, Expand(doc, sels[i + 1..], path, depth));
      if one.Ok? {
        KeysOfConcat(ResponseKey, done, one.value);
        FirstPerKeyOfConcat(ResponseKey, done, one.value, seen0);
      }
    }

    lemma End(done: seq<TopLevelField>, fields: seq<TopLevelField>, seen: set<string>)
      requires Progress(|sels|, done, fields, seen)
      ensures All() == Ok(done)
    {
      assert sels[|sels|..] == [];
      assert done + [] == done;
    }
  }

  lemma SingleField(f: TopLevelField, seen: set<string>)
    ensures FirstPerKey(ResponseKey, [f], seen) == if f.responseKey in seen then [] else [f]
    ensures Keys(ResponseKey, [f]) == {f.responseKey}
  {
  }

  // ---------- the operations of a request ----------

  /** The expansions of the selected operations, in document order. */
  ghost function ExpandOperations(doc: Document, ops: seq<Operation>, operationName: string): Collected {
    if ops == [] then Ok([])
    else
      var rest := ExpandOperations(doc, ops[1..], operationName);
      if operationName == "" || ops[0].name == operationName then Chain(Expand(doc, ops[0].selectionSet, {}, 0), rest)
      else rest
  }

  /** The expansions of all these operations. */
  ghost function ExpandEach(doc: Document, ops: seq<Operation>): Collected {
    if ops == [] then Ok([]) else Chain(Expand(doc, ops[0].selectionSet, {}, 0), ExpandEach(doc, ops[1..]))
  }

  ghost function OperationsNamed(ops: seq<Operation>, name: string): seq<Operation> {
    if ops == [] then []
    else if ops[0].name == name then [ops[0]] + OperationsNamed(ops[1..], name)
    else OperationsNamed(ops[1..], name)
  }

  /** Without an operation name every operation is expanded, whatever its name. */
  lemma {:induction false} EmptyNameSelectsAll(doc: Document, ops: seq<Operation>)
    ensures ExpandOperations(doc, ops, "") == ExpandEach(doc, ops)
  {
    if ops != [] {
      EmptyNameSelectsAll(doc, ops[1..]);
    }
  }

  /** With one exactly the operations of that name are. */
  lemma {:induction false} NameSelectsThoseNamed(doc: Document, ops: seq<Operation>, name: string)
    requires name != ""
    ensures ExpandOperations(doc, ops, name) == ExpandEach(doc, OperationsNamed(ops, name))
    ensures forall op :: op in OperationsNamed(ops, name) <==> op in ops && op.name == name
  {
    if ops != [] {
      NameSelectsThoseNamed(doc, ops[1..], name);
      assert ops == [ops[0]] + ops[1..];
      assert ops[0].name == name ==> OperationsNamed(ops, name)[1..] == OperationsNamed(ops[1..], name);
    }
  }

  /**
    Expanding operations succeeds exactly when expanding each of them does, and gives their fields one after another.
   */
  lemma {:induction false} ExpandEachExactly(doc: Document, ops: seq<Operation>, more: seq<Operation>)
    ensures ExpandEach(doc, ops).Ok? <==> forall op | op in ops :: Expand(doc, op.selectionSet, {}, 0).Ok?
    ensures ExpandEach(doc, ops).Ok? && ExpandEach(doc, more).Ok? ==>
      ExpandEach(doc, ops + more) == Ok(ExpandEach(doc, ops).value + ExpandEach(doc, more).value)
    ensures |ops| == 1 ==> ExpandEach(doc, ops) == Expand(doc, ops[0].selectionSet, {}, 0)
  {
    hide Expand;
    if ops == [] {
      assert ops + more == more;
      if ExpandEach(doc, more).Ok? { assert [] + ExpandEach(doc, more).value == ExpandEach(doc, more).value; }
    } else {
      assert (ops + more)[1..] == ops[1..] + more;
      assert ops == [ops[0]] + ops[1..];
      ExpandEachExactly(doc, ops[1..], more);
      var one := Expand(doc, ops[0].selectionSet, {}, 0);
      if ExpandEach(doc, ops).Ok? && ExpandEach(doc, more).Ok? {
        assert one.value + ExpandEach(doc, ops[1..]).value + ExpandEach(doc, more).value
            == one.value + (ExpandEach(doc, ops[1..]).value + ExpandEach(doc, more).value);
      }
      if |ops| == 1 && one.Ok? { assert one.value + [] == one.value; }
    }
  }

  /** One seen map for the whole request, a fresh spread path for each operation. */
  method TopLevelFields(query: string, parse: string -> Result<Document, ()>, operationName: string)
      returns (r: Collected)
    ensures query == "" ==> r == Ok([])
    ensures query != "" && parse(query).Err? ==> r == Err(SyntaxError)
    ensures query != "" && parse(query).Ok? ==>
      r == Deduplicated(ExpandOperations(parse(query).value, parse(query).value.operations, operationName), {})
    ensures query != "" && parse(query).Ok? ==>
      var doc := parse(query).value;
      var selected := if operationName == "" then doc.operations else OperationsNamed(doc.operations, operationName);
      r == Deduplicated(ExpandEach(doc, selected), {})
  {
    if query == "" {
      return Ok([]);
    }
    var parsed := parse(query);
    if parsed.Err? {
      return Err(SyntaxError);
    }
    var doc := parsed.value;
    var walk := new Collector();
    var fields: seq<TopLevelField> := [];
    ghost var done: seq<TopLevelField> := [];
    ghost var all := ExpandOperations(doc, doc.operations, operationName);
    if operationName == "" {
      EmptyNameSelectsAll(doc, doc.operations);
    } else {
      NameSelectsThoseNamed(doc, doc.operations, operationName);
    }
    if all.Ok? { assert [] + all.value == all.value; }
    assert doc.operations[0..] == doc.operations;
    for i := 0 to |doc.operations|
      invariant walk.visitedFrags == {} && walk.seen == Keys(ResponseKey, done)
      invariant fields == FirstPerKey(ResponseKey, done, {})
      invariant all == Chain(Ok(done), ExpandOperations(doc, doc.operations[i..], operationName))
    {
      var op := doc.operations[i];
      ghost var one := Expand(doc, op.selectionSet, {}, 0);
      ghost var rest := ExpandOperations(doc, doc.operations[i + 1..], operationName);
      assert doc.operations[i..][0] == op && doc.operations[i..][1..] == doc.operations[i + 1..];
      if operationName != "" && op.name != operationName {
        continue;
      }
      ChainAssociative(Ok(done), one, rest);
      walk.visitedFrags := {};
      var opFields := walk.CollectTopLevelFields(op.selectionSet, doc, 0);
      if opFields.Err? {
        return opFields;
      }
      KeysOfConcat(ResponseKey, done, one.value);
      FirstPerKeyOfConcat(ResponseKey, done, one.value, {});
      assert {} + Keys(ResponseKey, done) == Keys(ResponseKey, done);
      fields := fields + opFields.value;
      done := done + one.value;
    }
    assert doc.operations[|doc.operations|..] == [];
    assert done + [] == done;
    return Ok(fields);
  }

  ghost function Names(fields: seq<TopLevelField>): seq<string> {
    seq(|fields|, i requires 0 <= i < |fields| => fields[i].name)
  }

  lemma NameFrom(fields: seq<TopLevelField>, i: nat, seen: set<string>)
    requires i < |fields|
    ensures i < |Names(fields)| && FirstPerKey(Self, Names(fields)[i..], seen) ==
      if fields[i].name in seen then FirstPerKey(Self, Names(fields)[i + 1..], seen)
      else [fields[i].name] + FirstPerKey(Self, Names(fields)[i + 1..], seen + {fields[i].name})
  {
    assert Names(fields)[i..][0] == fields[i].name && Names(fields)[i..][1..] == Names(fields)[i + 1..];
  }

  method CollectionNames(fields: seq<TopLevelField>) returns (names: seq<string>)
    ensures names == Distinct(Names(fields))
  {
    var seen: set<string> := {};
    names := [];
    for i := 0 to |fields|
      invariant names + FirstPerKey(Self, Names(fields)[i..], seen) == Distinct(Names(fields))
    {
      hide FirstPerKey, Names;
      NameFrom(fields, i, seen);
      if fields[i].name !in seen {
        seen := seen + {fields[i].name};
        names := names + [fields[i].name];
      }
    }
  }

  ghost function KeysNamed(fields: seq<TopLevelField>, name: string): seq<string> {
    if fields == [] then []
    else (if fields[0].name == name then [fields[0].responseKey] else []) + KeysNamed(fields[1..], name)
  }

  method ResponseKeys(fields: seq<TopLevelField>, name: string) returns (keys: seq<string>)
    ensures keys == KeysNamed(fields, name)
  {
    keys := [];
    for i := 0 to |fields|
      invariant keys + KeysNamed(fields[i..], name) == KeysNamed(fields, name)
    {
      assert fields[i..][0] == fields[i] && fields[i..][1..] == fields[i + 1..];
      if fields[i].name == name {
        keys := keys + [fields[i].responseKey];
      }
    }
  }

  lemma {:induction false} KeysNamedAreKeys(fields: seq<TopLevelField>, name: string)
    ensures forall k :: k in KeysNamed(fields, name) <==> TopLevelField(k, name) in fields
  {
    if fields != [] {
      KeysNamedAreKeys(fields[1..], name);
      assert fields == [fields[0]] + fields[1..];
    }
  }

  /** Of collected fields, the keys of one name are pairwise distinct and are that name's alone. */
  lemma {:induction false} KeysNamedDistinct(fields: seq<TopLevelField>, name: string)
    requires DistinctKeys(ResponseKey, fields)
    ensures DistinctKeys(Self, KeysNamed(fields, name))
  {
    if fields != [] {
      KeysNamedDistinct(fields[1..], name);
      KeysNamedAreKeys(fields[1..], name);
    }
  }
}
