/** The load-test driver of `test_speed.py`, without its concurrency: the
    result record `make_request` builds, the filter that collects the
    user ids created by the initial load, the abort when there are none,
    and the read/write plan of the mixed workload. The network, the clock
    and the random source are parameters: an `Outcome` per request, a
    `Draw` per mixed operation, a generated `RecordData` per write. */
module LoadTest {
  import opened Wrappers
  import PyStr

  const ApiBaseUrl: string := "http://localhost:3000/records"
  const WritePercentage: real := 0.10

  const InitialWrite: string := "initial_write"
  const MixedRead: string := "mixed_read"
  const MixedWrite: string := "mixed_write"

  /** The `status` of a result: the HTTP status of the response, or the
      tag recorded when the request raised `aiohttp.ClientError` or any
      other exception. */
  datatype Status = Http(code: int) | ClientError | Exception

  /** The JSON body of a write, as `generate_record_data` builds it. */
  datatype RecordData = RecordData(userId: string, timestamp: int, heartRate: int,
                                   bloodPressure: string, notes: string)

  datatype Verb = Get | Post

  /** One request as `make_request` is called with it. */
  datatype Request = Request(verb: Verb, url: string, body: Option<RecordData>, opType: string)

  /** What the network and the clock did with one request: a response with
      its status, or one of the two exception kinds; each with the measured
      latency in milliseconds. */
  datatype Outcome =
    | Responded(status: int, latency: int)
    | RaisedClientError(latency: int)
    | RaisedException(latency: int)

  /** The fields of the result dictionary that the rest of the script reads. */
  datatype RequestResult = RequestResult(opType: string, status: Status, latency: int,
                                         userId: Option<string>)

  /** The result `make_request` returns. The `user_id` of a response is the
      body's, or for a bodiless GET the last `/`-segment of the URL; an
      exception result takes the body's and never looks at the URL. */
  function MakeResult(req: Request, outcome: Outcome): (r: RequestResult)
    ensures r.opType == req.opType && r.latency == outcome.latency
    ensures r.status == match outcome
                        case Responded(code, _) => Http(code)
                        case RaisedClientError(_) => ClientError
                        case RaisedException(_) => Exception
    ensures req.body.Some? ==> r.userId == Some(req.body.value.userId)
    ensures req.body.None? ==>
              r.userId == (if req.verb == Get && outcome.Responded?
                           then Some(PyStr.LastField(req.url, '/')) else None)
  {
    match outcome
    case Responded(code, latency) =>
      RequestResult(req.opType, Http(code), latency,
                    if req.body.Some? then Some(req.body.value.userId)
                    else if req.verb == Get then Some(PyStr.LastField(req.url, '/'))
                    else None)
    case RaisedClientError(latency) =>
      RequestResult(req.opType, ClientError, latency,
                    if req.body.Some? then Some(req.body.value.userId) else None)
    case RaisedException(latency) =>
      RequestResult(req.opType, Exception, latency,
                    if req.body.Some? then Some(req.body.value.userId) else None)
  }

  /** The URL of a read of `userId`. */
  function ReadUrl(userId: string): string {
    ApiBaseUrl + "/" + userId
  }

  /** A read that gets a response reports exactly the user id it asked for,
      as long as the id has no `/` in it (generated ids are hex strings). */
  lemma ReadResultUserId(userId: string, opType: string, outcome: Outcome)
    requires '/' !in userId && outcome.Responded?
    ensures MakeResult(Request(Get, ReadUrl(userId), None, opType), outcome).userId == Some(userId)
  {
    assert ReadUrl(userId) == ApiBaseUrl + ['/'] + userId;
    PyStr.LastFieldAfter(ApiBaseUrl, '/', userId);
  }

  /** `gather` over the tasks: one result per request, in request order. */
  function Execute(reqs: seq<Request>, outcomes: seq<Outcome>): (rs: seq<RequestResult>)
    requires |outcomes| == |reqs|
    ensures |rs| == |reqs|
    ensures forall i :: 0 <= i < |rs| ==> rs[i] == MakeResult(reqs[i], outcomes[i])
  {
    seq(|reqs|, i requires 0 <= i < |reqs| => MakeResult(reqs[i], outcomes[i]))
  }

  /** A result that `run_test_scenario` keeps as a created user: status 201
      and a truthy (present, non-empty) `user_id`. */
  predicate Created(r: RequestResult) {
    r.status == Http(201) && r.userId.Some? && r.userId.value != ""
  }

  /** `created_user_ids` after the filter loop over `rs`. */
  function CreatedIds(rs: seq<RequestResult>): seq<string> {
    if rs == [] then []
    else
      var last := rs[|rs| - 1];
      CreatedIds(rs[..|rs| - 1]) + (if Created(last) then [last.userId.value] else [])
  }

  /** The filter distributes over concatenation: the ids come out in the
      order of the results they were taken from. */
  lemma {:induction false} CreatedIdsAppend(a: seq<RequestResult>, b: seq<RequestResult>)
    ensures CreatedIds(a + b) == CreatedIds(a) + CreatedIds(b)
    decreases |b|
  {
    if b == [] {
      assert a + b == a;
    } else {
      assert (a + b)[..|a + b| - 1] == a + b[..|b| - 1];
      CreatedIdsAppend(a, b[..|b| - 1]);
    }
  }

  /** An id is collected exactly when some result created it. */
  lemma {:induction false} CreatedIdsMembers(rs: seq<RequestResult>, id: string)
    ensures id in CreatedIds(rs) <==>
            exists i :: 0 <= i < |rs| && Created(rs[i]) && rs[i].userId.value == id
  {
    if rs != [] {
      var init := rs[..|rs| - 1];
      CreatedIdsMembers(init, id);
      if id in CreatedIds(init) {
        var i :| 0 <= i < |init| && Created(init[i]) && init[i].userId.value == id;
        assert rs[i] == init[i];
      }
      if exists i :: 0 <= i < |rs| && Created(rs[i]) && rs[i].userId.value == id {
        var i :| 0 <= i < |rs| && Created(rs[i]) && rs[i].userId.value == id;
        if i < |init| { assert init[i] == rs[i]; }
      }
    }
  }

  /** No collected id is empty. */
  lemma {:induction false} CreatedIdsNonEmpty(rs: seq<RequestResult>)
    ensures forall k :: 0 <= k < |CreatedIds(rs)| ==> CreatedIds(rs)[k] != ""
  {
    if rs != [] {
      CreatedIdsNonEmpty(rs[..|rs| - 1]);
    }
  }

  /** Lines 112-116: every initial result is kept for the statistics, and
      the created ids are collected in result order. */
  method CollectInitial(initialResults: seq<RequestResult>)
    returns (latencies: seq<RequestResult>, createdUserIds: seq<string>)
    ensures latencies == initialResults
    ensures createdUserIds == CreatedIds(initialResults)
  {
    latencies, createdUserIds := [], [];
    for i := 0 to |initialResults|
      invariant latencies == initialResults[..i]
      invariant createdUserIds == CreatedIds(initialResults[..i])
    {
      var res := initialResults[i];
      assert initialResults[..i + 1][..i] == initialResults[..i];
      latencies := latencies + [res];
      if res.status == Http(201) && res.userId.Some? && res.userId.value != "" {
        createdUserIds := createdUserIds + [res.userId.value];
      }
    }
    assert initialResults[..|initialResults|] == initialResults;
  }

  /** The random draws of one mixed operation: `random.random()` for the
      read/write choice and the index `random.choice` takes (any natural
      number; it is reduced modulo the number of created ids). */
  datatype Draw = Draw(roll: real, pick: nat)

  /** Lines 129-134: the request of one mixed operation. */
  function MixedRequest(createdUserIds: seq<string>, d: Draw, rec: RecordData): (req: Request)
    requires createdUserIds != []
    ensures d.roll < WritePercentage ==> req == Request(Post, ApiBaseUrl, Some(rec), MixedWrite)
    ensures d.roll >= WritePercentage ==>
              exists k :: 0 <= k < |createdUserIds| && req == Request(Get, ReadUrl(createdUserIds[k]), None, MixedRead)
  {
    if d.roll < WritePercentage then Request(Post, ApiBaseUrl, Some(rec), MixedWrite)
    else
      var k := d.pick % |createdUserIds|;
      Request(Get, ReadUrl(createdUserIds[k]), None, MixedRead)
  }

  /** A mixed read that gets a response is recorded under an id that the
      initial load created. */
  lemma MixedReadTargetsCreated(createdUserIds: seq<string>, d: Draw, rec: RecordData, outcome: Outcome)
    requires createdUserIds != []
    requires forall k :: 0 <= k < |createdUserIds| ==> '/' !in createdUserIds[k]
    requires d.roll >= WritePercentage && outcome.Responded?
    ensures var r := MakeResult(MixedRequest(createdUserIds, d, rec), outcome);
            r.opType == MixedRead && r.userId.Some? && r.userId.value in createdUserIds
  {
    var k :| 0 <= k < |createdUserIds|
             && MixedRequest(createdUserIds, d, rec) == Request(Get, ReadUrl(createdUserIds[k]), None, MixedRead);
    ReadResultUserId(createdUserIds[k], MixedRead, outcome);
  }

  /** The initial-load requests: one POST per generated record. */
  function InitialRequests(records: seq<RecordData>): (reqs: seq<Request>)
    ensures |reqs| == |records|
    ensures forall i :: 0 <= i < |reqs| ==> reqs[i] == Request(Post, ApiBaseUrl, Some(records[i]), InitialWrite)
  {
    seq(|records|, i requires 0 <= i < |records| => Request(Post, ApiBaseUrl, Some(records[i]), InitialWrite))
  }

  /** The initial load collects a generated record's id exactly when its
      POST was answered 201 and the id is non-empty. */
  lemma InitialCreatedIds(records: seq<RecordData>, outcomes: seq<Outcome>, id: string)
    requires |outcomes| == |records|
    ensures id in CreatedIds(Execute(InitialRequests(records), outcomes)) <==>
            id != "" && exists i :: 0 <= i < |records| && records[i].userId == id
                                    && outcomes[i].Responded? && outcomes[i].status == 201
  {
    var rs := Execute(InitialRequests(records), outcomes);
    CreatedIdsMembers(rs, id);
    if id in CreatedIds(rs) {
      var i :| 0 <= i < |rs| && Created(rs[i]) && rs[i].userId.value == id;
      assert records[i].userId == id && outcomes[i].Responded? && outcomes[i].status == 201;
    }
    if id != "" && exists i :: 0 <= i < |records| && records[i].userId == id
                               && outcomes[i].Responded? && outcomes[i].status == 201 {
      var i :| 0 <= i < |records| && records[i].userId == id
               && outcomes[i].Responded? && outcomes[i].status == 201;
      assert Created(rs[i]) && rs[i].userId.value == id;
    }
  }

  /** `run_test_scenario` without its concurrency: issue the initial load,
      collect the created ids, abort when there are none, otherwise issue
      one mixed operation per draw. The returned results are the initial
      results followed by the mixed ones, one per issued request. */
  method RunScenario(initialRecords: seq<RecordData>, initialOutcomes: seq<Outcome>,
                     draws: seq<Draw>, mixedRecords: seq<RecordData>, mixedOutcomes: seq<Outcome>)
    returns (results: seq<RequestResult>, issued: seq<Request>)
    requires |initialOutcomes| == |initialRecords|
    requires |mixedRecords| == |draws| && |mixedOutcomes| == |draws|
    ensures var initial := Execute(InitialRequests(initialRecords), initialOutcomes);
            var created := CreatedIds(initial);
            && (created == [] ==> issued == [] && results == initial)
            && (created != [] ==>
                  && |issued| == |draws|
                  && (forall i :: 0 <= i < |draws| ==> issued[i] == MixedRequest(created, draws[i], mixedRecords[i]))
                  && results == initial + Execute(issued, mixedOutcomes))
    ensures |results| == |initialRecords| + |issued|
  {
    var initialResults := Execute(InitialRequests(initialRecords), initialOutcomes);
    var latencies, createdUserIds := CollectInitial(initialResults);
    if createdUserIds == [] {
      return latencies, [];
    }
    issued := [];
    for i := 0 to |draws|
      invariant |issued| == i
      invariant forall j :: 0 <= j < i ==> issued[j] == MixedRequest(createdUserIds, draws[j], mixedRecords[j])
    {
      var req;
      if draws[i].roll < WritePercentage {
        req := Request(Post, ApiBaseUrl, Some(mixedRecords[i]), MixedWrite);
      } else {
        var randomUserId := createdUserIds[draws[i].pick % |createdUserIds|];
        req := Request(Get, ReadUrl(randomUserId), None, MixedRead);
      }
      issued := issued + [req];
    }
    results := latencies + Execute(issued, mixedOutcomes);
  }

  /** Every result with status 201 on the initial load contributes one id,
      so with no such result the mixed phase is skipped. */
  lemma {:induction false} NoCreatedWithout201(rs: seq<RequestResult>)
    requires forall i :: 0 <= i < |rs| ==> rs[i].status != Http(201)
    ensures CreatedIds(rs) == []
  {
    if rs != [] {
      NoCreatedWithout201(rs[..|rs| - 1]);
    }
  }
}
