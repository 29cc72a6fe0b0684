/** The billing gate's handler: which requests are served, and what is billed for them. */
module QueryGate {
  import opened Basics
  import opened Dedup
  import opened FieldCollection

  // ---------- counting the served rows ----------

  /** A value under a response key, as far as the row count looks at it. */
  datatype Json = Null | Array(length: nat) | Other

  const UINT64: nat := 0x1_0000_0000_0000_0000

  ghost function RowsAt(data: map<string, Json>, key: string): nat {
    if key in data && data[key].Array? then data[key].length else 0
  }

  ghost function RowSum(data: map<string, Json>, keys: seq<string>): nat {
    if keys == [] then 0 else RowsAt(data, keys[0]) + RowSum(data, keys[1..])
  }

  function Sum(ns: seq<nat>): nat {
    if ns == [] then 0 else ns[0] + Sum(ns[1..])
  }

  /** Under keys whose values are arrays of these lengths there are as many rows as the lengths add up to. */
  lemma {:induction false} RowSumIsSumOfLengths(data: map<string, Json>, keys: seq<string>, lengths: seq<nat>)
    requires |keys| == |lengths| && forall i | 0 <= i < |keys| :: keys[i] in data && data[keys[i]] == Array(lengths[i])
    ensures RowSum(data, keys) == Sum(lengths)
  {
    if keys != [] {
      RowSumIsSumOfLengths(data, keys[1..], lengths[1..]);
    }
  }

  /** A key that is absent, or whose value is null or no array, can be left out. */
  lemma {:induction false} OnlyArraysCount(data: map<string, Json>, keys: seq<string>, key: string, more: seq<string>)
    requires key !in data || data[key] == Null || data[key] == Other || data[key] == Array(0)
    ensures RowSum(data, keys + [key] + more) == RowSum(data, keys + more)
    decreases |keys|
  {
    if keys == [] {
      assert [] + [key] + more == [key] + more && ([key] + more)[1..] == more && [] + more == more;
    } else {
      assert (keys + [key] + more)[1..] == keys[1..] + [key] + more && (keys + more)[1..] == keys[1..] + more;
      OnlyArraysCount(data, keys[1..], key, more);
    }
  }

  lemma {:induction false} OthersRowsStay(data: map<string, Json>, keys: seq<string>, key: string, json: Json)
    requires key !in keys
    ensures RowSum(data[key := json], keys) == RowSum(data, keys)
  {
    if keys != [] {
      OthersRowsStay(data, keys[1..], key, json);
    }
  }

  /** Making one array longer by m adds m rows. */
  lemma {:induction false} LongerArrayAddsRows(data: map<string, Json>, keys: seq<string>, i: nat, n: nat, m: nat)
    requires DistinctKeys(Self, keys) && i < |keys| && keys[i] in data && data[keys[i]] == Array(n)
    ensures RowSum(data[keys[i] := Array(n + m)], keys) == RowSum(data, keys) + m
  {
    if i == 0 {
      assert forall j | 0 < j < |keys| :: Self(keys[0]) != Self(keys[j]);
      OthersRowsStay(data, keys[1..], keys[0], Array(n + m));
    } else {
      assert Self(keys[0]) != Self(keys[i]);
      LongerArrayAddsRows(data, keys[1..], i - 1, n, m);
    }
  }

  /**
    body is the data object of the response, or None when the body is not JSON. When every key holds an array, the rows
    are the sum of the lengths in 64 bits.
   */
  method ViewRows(body: Option<map<string, Json>>, viewKeys: seq<string>) returns (rows: nat, served: bool)
    ensures body == None ==> rows == 0 && !served
    ensures body.Some? ==>
      && rows == RowSum(body.value, viewKeys) % 0x1_0000_0000_0000_0000
      && (served <==> exists key | key in viewKeys :: key in body.value && body.value[key].Array?)
    ensures forall lengths: seq<nat> |
      && body.Some? && |lengths| == |viewKeys|
      && (forall i | 0 <= i < |lengths| :: viewKeys[i] in body.value && body.value[viewKeys[i]] == Array(lengths[i])) ::
      rows == Sum(lengths) % 0x1_0000_0000_0000_0000
  {
    if body == None {
      return 0, false;
    }
    var data := body.value;
    ghost var sum := 0;
    rows, served := 0, false;
    for i := 0 to |viewKeys|
      invariant sum + RowSum(data, viewKeys[i..]) == RowSum(data, viewKeys)
      invariant rows == sum % UINT64
      invariant served <==> exists key | key in viewKeys[..i] :: key in data && data[key].Array?
    {
      var key := viewKeys[i];
      assert viewKeys[i..][0] == key && viewKeys[i..][1..] == viewKeys[i + 1..];
      assert viewKeys[..i + 1] == viewKeys[..i] + [key];
      if key in data && data[key].Array? {
        served := true;
        sum := sum + data[key].length;
        rows := (rows + data[key].length) % UINT64;
      }
    }
    assert viewKeys[..|viewKeys|] == viewKeys;
    EveryLength(data, viewKeys);
  }

  lemma EveryLength(data: map<string, Json>, keys: seq<string>)
    ensures forall lengths: seq<nat> |
      && |lengths| == |keys|
      && (forall i | 0 <= i < |lengths| :: keys[i] in data && data[keys[i]] == Array(lengths[i])) ::
      RowSum(data, keys) == Sum(lengths)
  {
    hide RowSum, Sum;
    forall lengths: seq<nat> |
      && |lengths| == |keys|
      && forall i | 0 <= i < |lengths| :: keys[i] in data && data[keys[i]] == Array(lengths[i])
      ensures RowSum(data, keys) == Sum(lengths)
    {
      RowSumIsSumOfLengths(data, keys, lengths);
    }
  }

  /** The rows under a set of keys, each key once. */
  ghost function RowsOf(data: map<string, Json>, keys: set<string>): nat {
    if keys == {} then 0 else var k :| k in keys; RowsAt(data, k) + RowsOf(data, keys - {k})
  }

  lemma {:induction false} RowsOfRemove(data: map<string, Json>, keys: set<string>, k: string)
    requires k in keys
    ensures RowsOf(data, keys) == RowsAt(data, k) + RowsOf(data, keys - {k})
  {
    var k1 :| k1 in keys && RowsOf(data, keys) == RowsAt(data, k1) + RowsOf(data, keys - {k1});
    if k1 != k {
      RowsOfRemove(data, keys - {k1}, k);
      RowsOfRemove(data, keys - {k}, k1);
      assert keys - {k1} - {k} == keys - {k} - {k1};
    }
  }

  /** Over distinct keys the sum bills each of the view's arrays exactly once. */
  lemma {:induction false} RowSumBillsOnce(data: map<string, Json>, keys: seq<string>)
    requires DistinctKeys(Self, keys)
    ensures RowSum(data, keys) == RowsOf(data, Elements(keys))
  {
    if keys != [] {
      KeysOfCons(Self, keys);
      assert Self(keys[0]) == keys[0];
      RowSumBillsOnce(data, keys[1..]);
      assert keys[0] !in Elements(keys[1..]);
      RowsOfRemove(data, Elements(keys), keys[0]);
      assert Elements(keys) - {keys[0]} == Elements(keys[1..]);
    }
  }

  /** Repeating a key would bill its rows again. */
  lemma RepeatedKeyBillsTwice(data: map<string, Json>, key: string)
    ensures RowSum(data, [key, key]) == 2 * RowsOf(data, {key})
  {
    assert [key, key][1..] == [key] && [key][1..] == [];
    assert RowSum(data, [key]) == RowsAt(data, key) + RowSum(data, []);
    RowsOfRemove(data, {key}, key);
    assert {key} - {key} == {};
  }

  // ---------- the response writer ----------

  /** What the wrapped handler does to the response. */
  datatype WriterCall = HeaderCall(status: int, contentType: string) | WriteCall(b: string) {

    predicate StartsStream() {
      HeaderCall? && "text/event-stream" <= contentType
    }
  }

  datatype Capture = Capture(status: int, streaming: bool, body: string) {

    ghost function After(call: WriterCall): Capture {
      match call
      case HeaderCall(status, _) => Capture(status, streaming || call.StartsStream(), body)
      case WriteCall(b) => if streaming then this else Capture(status, streaming, body + b)
    }

    ghost function AfterAll(calls: seq<WriterCall>): Capture {
      if calls == [] then this else AfterAll(calls[..|calls| - 1]).After(calls[|calls| - 1])
    }
  }

  /** The calls before the first header of an event stream. */
  ghost function BeforeStream(calls: seq<WriterCall>): (before: seq<WriterCall>)
    ensures before <= calls && forall i | 0 <= i < |before| :: !before[i].StartsStream()
    ensures |before| < |calls| ==> calls[|before|].StartsStream()
    decreases |calls|
  {
    if calls == [] || calls[0].StartsStream() then [] else [calls[0]] + BeforeStream(calls[1..])
  }

  /** Everything that some calls write, in order. */
  ghost function Written(calls: seq<WriterCall>): string {
    if calls == [] then ""
    else Written(calls[..|calls| - 1]) + match calls[|calls| - 1] case WriteCall(b) => b case _ => ""
  }

  /** The status of the last header, 200 without one. */
  ghost function LastStatus(calls: seq<WriterCall>): int {
    if calls == [] then 200
    else match calls[|calls| - 1] case HeaderCall(status, _) => status case _ => LastStatus(calls[..|calls| - 1])
  }

  /** They are all calls before the first header with that content type, which starts with its name. */
  lemma BeforeStreamExactly(calls: seq<WriterCall>, n: nat)
    requires n <= |calls|
    requires forall i | 0 <= i < n && calls[i].HeaderCall? :: !("text/event-stream" <= calls[i].contentType)
    requires n < |calls| ==> calls[n].HeaderCall? && "text/event-stream" <= calls[n].contentType
    ensures BeforeStream(calls) == calls[..n]
  {
    var before := BeforeStream(calls);
    assert forall i | 0 <= i < |before| :: before[i] == calls[i];
  }

  /** The status is that of a header behind which there is none. */
  lemma {:induction false} LastStatusExactly(calls: seq<WriterCall>)
    ensures (forall c | c in calls :: !c.HeaderCall?) ==> LastStatus(calls) == 200
    ensures forall i | 0 <= i < |calls| && calls[i].HeaderCall? && forall j | i < j < |calls| ::
      !calls[j].HeaderCall? ::
      LastStatus(calls) == calls[i].status
  {
    if calls != [] {
      var n := |calls| - 1;
      LastStatusExactly(calls[..n]);
      if !calls[n].HeaderCall? {
        forall i | 0 <= i < |calls| && calls[i].HeaderCall? && forall j | i < j < |calls| :: !calls[j].HeaderCall?
          ensures LastStatus(calls) == calls[i].status
        {
          assert calls[..n][i] == calls[i];
        }
      }
    }
  }

  /** What is written is every text written, one after another. */
  lemma {:induction false} WrittenExactly(calls: seq<WriterCall>, more: seq<WriterCall>)
    ensures Written(calls + more) == Written(calls) + Written(more)
    ensures forall b :: Written([WriteCall(b)]) == b
    ensures forall status, contentType :: Written([HeaderCall(status, contentType)]) == ""
    decreases |more|
  {
    forall c: WriterCall ensures [c][..0] == [] {
    }
    if more == [] {
      assert calls + more == calls;
    } else {
      var n := |more| - 1;
      assert (calls + more)[..|calls| + n] == calls + more[..n];
      WrittenExactly(calls, more[..n]);
    }
  }

  lemma {:induction false} BeforeStreamOfMore(calls: seq<WriterCall>, call: WriterCall)
    ensures BeforeStream(calls + [call]) ==
      if BeforeStream(calls) == calls && !call.StartsStream() then calls + [call] else BeforeStream(calls)
    decreases |calls|
  {
    hide WriterCall.StartsStream;
    if calls == [] {
      assert [] + [call] == [call] && [call][1..] == [];
    } else {
      assert (calls + [call])[1..] == calls[1..] + [call];
      assert calls == [calls[0]] + calls[1..];
      if !calls[0].StartsStream() {
        var rest := BeforeStream(calls[1..]);
        BeforeStreamOfMore(calls[1..], call);
        assert [calls[0]] + (calls[1..] + [call]) == calls + [call];
        assert ([calls[0]] + rest)[1..] == rest;
      }
    }
  }

  lemma CapturedOne(calls: seq<WriterCall>)
    requires calls != []
    ensures
      var before, call := calls[..|calls| - 1], calls[|calls| - 1];
      && LastStatus(calls) == (if call.HeaderCall? then call.status else LastStatus(before))
      && Written(calls) == Written(before) + (if call.WriteCall? then call.b else "")
  {
  }

  /**
    After any calls the writer holds the status of the last header and, of the body, exactly what was written before
    the first header of an event stream.
   */
  lemma {:induction false} CapturedExactly(calls: seq<WriterCall>)
    ensures Capture(200, false, "").AfterAll(calls) ==
      Capture(LastStatus(calls), BeforeStream(calls) != calls, Written(BeforeStream(calls)))
  {
    if calls != [] {
      hide BeforeStream, Written, LastStatus, WriterCall.StartsStream;
      var before, call := calls[..|calls| - 1], calls[|calls| - 1];
      CapturedExactly(before);
      BeforeStreamOfMore(before, call);
      assert calls == before + [call];
      CapturedOne(calls);
      assert |BeforeStream(before)| <= |before|;
      if BeforeStream(before) != before {
        assert BeforeStream(calls) == BeforeStream(before) != calls;
      } else if call.StartsStream() {
        assert BeforeStream(calls) == before != calls;
      } else {
        assert BeforeStream(calls) == calls;
      }
    }
  }

  /** Keeps the status and a copy of the body unless the response is an event stream. */
  class CaptureWriter {
    var status: int
    var streaming: bool
    var body: string

    ghost function State(): Capture
      reads this
    {
      Capture(status, streaming, body)
    }

    constructor ()
      ensures State() == Capture(200, false, "")
    {
      status, streaming, body := 200, false, "";
    }

    method WriteHeader(status: int, contentType: string)
      modifies this
      ensures State() == old(State()).After(HeaderCall(status, contentType))
    {
      this.status := status;
      if "text/event-stream" <= contentType {
        streaming := true;
      }
    }

    method Write(b: string)
      modifies this
      ensures State() == old(State()).After(WriteCall(b))
    {
      if !streaming {
        body := body + b;
      }
    }
  }

  /** The wrapped handler at work on a fresh writer. */
  method ServeNext(calls: seq<WriterCall>) returns (cw: CaptureWriter)
    ensures fresh(cw)
    ensures cw.status == LastStatus(calls) && cw.body == Written(BeforeStream(calls))
  {
    cw := new CaptureWriter();
    for i := 0 to |calls|
      invariant fresh(cw) && cw.State() == Capture(200, false, "").AfterAll(calls[..i])
    {
      assert calls[..i + 1][..i] == calls[..i];
      match calls[i] {
        case HeaderCall(status, contentType) => cw.WriteHeader(status, contentType);
        case WriteCall(b) => cw.Write(b);
      }
    }
    assert calls[..|calls|] == calls;
    CapturedExactly(calls);
  }

  // ---------- the handler ----------

  /** Which collection names are views, and which of those have an address on chain. */
  datatype ViewRegistry = ViewRegistry(isView: string -> bool, hasAddress: string -> bool)

  /** What the checks outside this model report about one request. None and false are failures;
      pool is None for the zero address. */
  datatype Checks = Checks(extensions: bool, timely: bool, payer: Option<nat>, pool: Option<nat>,
    allowed: Result<bool, ()>)

  datatype Response = Response(status: int, body: Option<map<string, Json>>)

  datatype Record = Record(payer: nat, pool: nat, view: string, rows: nat)

  datatype Outcome = Rejected(status: int) | PassedThrough | Served(record: Option<Record>)

  ghost function Views(names: seq<string>, registry: ViewRegistry): seq<string> {
    if names == [] then []
    else (if registry.isView(names[0]) then [names[0]] else []) + Views(names[1..], registry)
  }

  lemma {:induction false} ViewsAreMembers(names: seq<string>, registry: ViewRegistry)
    ensures forall v :: v in Views(names, registry) <==> v in names && registry.isView(v)
  {
    if names != [] {
      ViewsAreMembers(names[1..], registry);
      assert names == [names[0]] + names[1..];
    }
  }

  lemma ViewsFrom(names: seq<string>, i: nat, registry: ViewRegistry)
    requires i < |names|
    ensures Views(names[i..], registry) ==
      if registry.isView(names[i]) then [names[i]] + Views(names[i + 1..], registry)
        else Views(names[i + 1..], registry)
  {
    assert names[i..][0] == names[i] && names[i..][1..] == names[i + 1..];
    assert [] + Views(names[i + 1..], registry) == Views(names[i + 1..], registry);
  }

  lemma NoViews(registry: ViewRegistry)
    ensures Views([], registry) == []
  {
  }

  /** The views a request touches, or None when one of them has no address. */
  method CollectViewLookups(collections: seq<string>, registry: ViewRegistry) returns (lookups: Option<seq<string>>)
    ensures lookups == None <==> exists v | v in Views(collections, registry) :: !registry.hasAddress(v)
    ensures lookups.Some? ==> lookups.value == Views(collections, registry)
  {
    hide Views;
    var found: seq<string> := [];
    assert collections[0..] == collections;
    for i := 0 to |collections|
      invariant found + Views(collections[i..], registry) == Views(collections, registry)
      invariant forall v | v in found :: registry.hasAddress(v)
    {
      var name := collections[i];
      ViewsFrom(collections, i, registry);
      if !registry.isView(name) {
        continue;
      }
      if !registry.hasAddress(name) {
        assert name in Views(collections, registry);
        return None;
      }
      found := found + [name];
    }
    NoViews(registry);
    assert collections[|collections|..] == [];
    return Some(found);
  }

  /** The collected fields of a request whose body and query parse. */
  ghost function FieldsOf(doc: Document, operationName: string): Collected {
    Deduplicated(ExpandOperations(doc, doc.operations, operationName), {})
  }

  /** The response that is billed: its last status, and the JSON of what it wrote before any event stream. */
  ghost function ResponseOf(calls: seq<WriterCall>, decode: string -> Option<map<string, Json>>): Response {
    Response(LastStatus(calls), decode(Written(BeforeStream(calls))))
  }

  /** The views among the names of the collected fields. */
  ghost function ViewsOf(fields: seq<TopLevelField>, registry: ViewRegistry): seq<string> {
    Views(Distinct(Names(fields)), registry)
  }

  ghost predicate Unaddressed(views: seq<string>, registry: ViewRegistry) {
    exists v | v in views :: !registry.hasAddress(v)
  }

  /** Every view has an address, and there is exactly one. */
  ghost predicate TouchesOneView(fields: seq<TopLevelField>, registry: ViewRegistry, view: string) {
    ViewsOf(fields, registry) == [view] && registry.hasAddress(view)
  }

  method HandleGraphQL(request: Result<string, ()>, parse: string -> Result<Document, ()>, operationName: string,
                       registry: ViewRegistry, c: Checks, calls: seq<WriterCall>,
                       decode: string -> Option<map<string, Json>>,
                       recording: bool)
    returns (outcome: Outcome, ghost fields: Collected)
    ensures request.Ok? && request.value != "" && parse(request.value).Ok? ==>
      fields == FieldsOf(parse(request.value).value, operationName)
    ensures request.Err? || (request.value != "" && parse(request.value).Err?) ==> outcome == Rejected(400)
    ensures request.Ok? && request.value != "" && parse(request.value).Ok? && fields.Err? ==> outcome == Rejected(400)
    ensures request.Ok? && request.value == "" ==> outcome == PassedThrough
    ensures outcome == PassedThrough <==> fields.Ok? && ViewsOf(fields.value, registry) == []
    ensures fields.Ok? && Unaddressed(ViewsOf(fields.value, registry), registry) ==> outcome == Rejected(503)
    ensures
      fields.Ok? && !Unaddressed(ViewsOf(fields.value, registry), registry) && |ViewsOf(fields.value, registry)| > 1 ==>
      outcome == Rejected(400)
    ensures outcome.Served? ==> fields.Ok? && exists view :: TouchesOneView(fields.value, registry, view)
    ensures fields.Ok? && (exists view :: TouchesOneView(fields.value, registry, view)) ==>
      if !c.extensions || !c.timely || c.payer == None || c.pool == None then outcome == Rejected(403)
      else if c.allowed.Err? then outcome == Rejected(503)
      else if !c.allowed.value then outcome == Rejected(402)
      else outcome.Served?
    ensures outcome.Served? ==> forall view | TouchesOneView(fields.value, registry, view) ::
      var keys, response := KeysNamed(fields.value, view), ResponseOf(calls, decode);
      var billed := recording && 200 <= response.status < 300 && response.body.Some? &&
        exists key | key in keys :: key in response.body.value && response.body.value[key].Array?;
      outcome.record ==
        if billed then
          var rows := RowSum(response.body.value, keys) % 0x1_0000_0000_0000_0000;
          Some(Record(c.payer.value, c.pool.value, view, rows))
        else None
  {
    if request.Err? {
      return Rejected(400), Err(SyntaxError);
    }
    var collected := TopLevelFields(request.value, parse, operationName);
    fields := collected;
    if collected.Err? {
      return Rejected(400), fields;
    }
    var names := CollectionNames(collected.value);
    var lookups := CollectViewLookups(names, registry);
    if lookups == None {
      return Rejected(503), fields;
    }
    if |lookups.value| == 0 {
      return PassedThrough, fields;
    }
    if |lookups.value| > 1 {
      return Rejected(400), fields;
    }
    var view := lookups.value[0];
    assert lookups.value == [view];
    assert TouchesOneView(collected.value, registry, view);
    if !c.extensions || !c.timely || c.payer == None || c.pool == None {
      return Rejected(403), fields;
    }
    if c.allowed.Err? {
      return Rejected(503), fields;
    }
    if !c.allowed.value {
      return Rejected(402), fields;
    }
    var keys := ResponseKeys(collected.value, view);
    var cw := ServeNext(calls);
    var rows, served := ViewRows(decode(cw.body), keys);
    if served && cw.status / 100 == 2 && recording {
      return Served(Some(Record(c.payer.value, c.pool.value, view, rows))), fields;
    }
    return Served(None), fields;
  }

  /** What a record bills: every row of the view's arrays in the response, each array once. */
  lemma BilledRowsAreTheViewsRows(all: seq<TopLevelField>, view: string, data: map<string, Json>)
    ensures
      var keys := KeysNamed(FirstPerKey(ResponseKey, all, {}), view);
      RowSum(data, keys) == RowsOf(data, Elements(keys))
  {
    var fields := FirstPerKey(ResponseKey, all, {});
    FirstPerKeyKeys(ResponseKey, all, {});
    KeysNamedDistinct(fields, view);
    RowSumBillsOnce(data, KeysNamed(fields, view));
  }
}
