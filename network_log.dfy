/** The network observers of one measurement: every `response` whose URL
    contains "/api/" adds an API-call record, every `response` with an HTTP
    error status and every `requestfailed` adds a failed-request record. The
    two lists start empty for each target URL and are only appended to. */
module NetworkLog {
  import opened Wrappers
  import opened Strings
  import opened PerfTypes

  const API_PATH: string := "/api/"

  /** What the browser reports with a `response` event. */
  datatype Response = Response(
    url: string,
    status: int,
    requestMethod: string,
    resourceType: string,
    requestStart: int,
    responseEnd: int)

  /** What the browser reports with a `requestfailed` event. */
  datatype Request = Request(
    url: string,
    requestMethod: string,
    errorText: Option<string>,
    resourceType: string)

  datatype NetworkEvent = ResponseReceived(response: Response) | RequestFailed(request: Request)

  predicate IsApiResponse(e: NetworkEvent)
  {
    e.ResponseReceived? && Contains(e.response.url, API_PATH)
  }

  predicate IsFailure(e: NetworkEvent)
  {
    e.RequestFailed? || e.response.status >= 400
  }

  /** The `apiCalls` records one event adds. */
  function ApiCallsOf(e: NetworkEvent): seq<ApiCall>
  {
    match e
    case ResponseReceived(r) =>
      if Contains(r.url, API_PATH) then [ApiCall(r.url, r.responseEnd - r.requestStart)] else []
    case RequestFailed(_) => []
  }

  /** The `failedRequests` records one event adds. */
  function FailuresOf(e: NetworkEvent): seq<FailedRequest>
  {
    match e
    case ResponseReceived(r) =>
      if r.status >= 400 then [FailedRequest(r.url, r.requestMethod, Some(r.status), None, r.resourceType)]
      else []
    case RequestFailed(q) => [FailedRequest(q.url, q.requestMethod, None, q.errorText, q.resourceType)]
  }

  /** A list that starts empty and receives `f(e)` for each event `e` in turn. */
  function Collect<T>(events: seq<NetworkEvent>, f: NetworkEvent -> seq<T>): seq<T>
  {
    if events == [] then []
    else Collect(events[..|events| - 1], f) + f(events[|events| - 1])
  }

  /** `apiCalls` after the given events. */
  function ApiCalls(events: seq<NetworkEvent>): seq<ApiCall>
  {
    Collect(events, ApiCallsOf)
  }

  /** `failedRequests` after the given events. */
  function FailedRequests(events: seq<NetworkEvent>): seq<FailedRequest>
  {
    Collect(events, FailuresOf)
  }

  /** The positions of the events satisfying `p`, in increasing order. */
  function Positions(events: seq<NetworkEvent>, p: NetworkEvent -> bool): (idx: seq<nat>)
    ensures forall k :: 0 <= k < |idx| ==> idx[k] < |events| && p(events[idx[k]])
  {
    if events == [] then []
    else
      var n := |events| - 1;
      var prefix := events[..n];
      var init := Positions(prefix, p);
      assert forall k :: 0 <= k < |init| ==> prefix[init[k]] == events[init[k]];
      if p(events[n]) then init + [n] else init
  }

  predicate Increasing(idx: seq<nat>)
  {
    forall k, l :: 0 <= k < l < |idx| ==> idx[k] < idx[l]
  }

  /** The positions are strictly increasing and miss no event satisfying `p`. */
  lemma {:induction false} PositionsOrderedAndComplete(events: seq<NetworkEvent>, p: NetworkEvent -> bool)
    ensures Increasing(Positions(events, p))
    ensures forall i :: 0 <= i < |events| && p(events[i]) ==> i in Positions(events, p)
    decreases |events|
  {
    if events != [] {
      var n := |events| - 1;
      var prefix := events[..n];
      PositionsOrderedAndComplete(prefix, p);
      var init := Positions(prefix, p);
      var idx := Positions(events, p);
      assert idx == if p(events[n]) then init + [n] else init;
      forall k, l | 0 <= k < l < |idx| ensures idx[k] < idx[l] {
        assert idx[k] == init[k];
        if l == |init| {
          assert init[k] < |prefix|;
        } else {
          assert idx[l] == init[l];
          assert init[k] < init[l];
        }
      }
      forall i | 0 <= i < |events| && p(events[i]) ensures i in idx {
        if i < n {
          assert prefix[i] == events[i];
          assert i in init;
        } else {
          assert idx[|idx| - 1] == n;
        }
      }
    }
  }

  /** Appending events appends their records. */
  lemma {:induction false} CollectAppend<T>(a: seq<NetworkEvent>, b: seq<NetworkEvent>, f: NetworkEvent -> seq<T>)
    ensures Collect(a + b, f) == Collect(a, f) + Collect(b, f)
    decreases |b|
  {
    if b == [] {
      assert a + b == a;
    } else {
      var n := |b| - 1;
      assert (a + b)[..|a + b| - 1] == a + b[..n];
      assert (a + b)[|a + b| - 1] == b[n];
      CollectAppend(a, b[..n], f);
    }
  }

  /** When each event adds one record if it satisfies `p` and none otherwise,
      the list holds one record per such event, in event order. */
  lemma {:induction false} CollectAtPositions<T>(events: seq<NetworkEvent>, f: NetworkEvent -> seq<T>, p: NetworkEvent -> bool)
    requires forall e :: |f(e)| == (if p(e) then 1 else 0)
    ensures |Collect(events, f)| == |Positions(events, p)|
    ensures forall k :: 0 <= k < |Positions(events, p)| ==>
      Collect(events, f)[k] == f(events[Positions(events, p)[k]])[0]
    decreases |events|
  {
    if events != [] {
      var n := |events| - 1;
      var prefix := events[..n];
      CollectAtPositions(prefix, f, p);
      var before := Collect(prefix, f);
      var init := Positions(prefix, p);
      assert Collect(events, f) == before + f(events[n]);
      assert Positions(events, p) == if p(events[n]) then init + [n] else init;
      forall k | 0 <= k < |init|
        ensures Collect(events, f)[k] == f(events[init[k]])[0]
      {
        assert prefix[init[k]] == events[init[k]];
      }
    }
  }

  /** `apiCalls` holds one record per response whose URL contains "/api/", in
      event order, with that response's URL and its responseEnd - requestStart. */
  lemma ApiCallsInEventOrder(events: seq<NetworkEvent>)
    ensures |ApiCalls(events)| == |Positions(events, IsApiResponse)|
    ensures forall k :: 0 <= k < |ApiCalls(events)| ==>
      var r := events[Positions(events, IsApiResponse)[k]].response;
      ApiCalls(events)[k] == ApiCall(r.url, r.responseEnd - r.requestStart)
  {
    CollectAtPositions(events, ApiCallsOf, IsApiResponse);
  }

  /** `failedRequests` holds one record per response with status 400 or more
      (status set, no failure text) and per failed request (failure text as
      reported, no status), in event order. */
  lemma FailedRequestsInEventOrder(events: seq<NetworkEvent>)
    ensures |FailedRequests(events)| == |Positions(events, IsFailure)|
    ensures forall k :: 0 <= k < |FailedRequests(events)| ==>
      var e := events[Positions(events, IsFailure)[k]];
      FailedRequests(events)[k] ==
        match e
        case ResponseReceived(r) => FailedRequest(r.url, r.requestMethod, Some(r.status), None, r.resourceType)
        case RequestFailed(q) => FailedRequest(q.url, q.requestMethod, None, q.errorText, q.resourceType)
  {
    CollectAtPositions(events, FailuresOf, IsFailure);
  }

  /** The lists only grow: what an earlier moment saw is a prefix of what a
      later moment sees. */
  lemma ListsOnlyGrow(events: seq<NetworkEvent>, i: nat)
    requires i <= |events|
    ensures ApiCalls(events[..i]) <= ApiCalls(events)
    ensures FailedRequests(events[..i]) <= FailedRequests(events)
  {
    assert events == events[..i] + events[i..];
    CollectAppend(events[..i], events[i..], ApiCallsOf);
    CollectAppend(events[..i], events[i..], FailuresOf);
  }

  /** A response adds one API-call record exactly when its URL contains
      "/api/" and, independently, one failed-request record exactly when its
      status is 400 or more: an error response from an API URL adds to both. */
  lemma ResponseStep(events: seq<NetworkEvent>, r: Response)
    ensures ApiCalls(events + [ResponseReceived(r)]) == ApiCalls(events) +
      if Contains(r.url, API_PATH) then [ApiCall(r.url, r.responseEnd - r.requestStart)] else []
    ensures FailedRequests(events + [ResponseReceived(r)]) == FailedRequests(events) +
      if r.status >= 400 then [FailedRequest(r.url, r.requestMethod, Some(r.status), None, r.resourceType)] else []
  {
    assert (events + [ResponseReceived(r)])[..|events|] == events;
  }

  /** A failed request adds exactly one failed-request record, carrying the
      error text and no status, and leaves the API calls alone. */
  lemma RequestFailedStep(events: seq<NetworkEvent>, q: Request)
    ensures ApiCalls(events + [RequestFailed(q)]) == ApiCalls(events)
    ensures FailedRequests(events + [RequestFailed(q)]) ==
      FailedRequests(events) + [FailedRequest(q.url, q.requestMethod, None, q.errorText, q.resourceType)]
  {
    assert (events + [RequestFailed(q)])[..|events|] == events;
  }

  /** The accumulators of one test: two lists the handlers append to. The ghost
      `observed` is the sequence of events delivered so far. */
  class RequestLog {
    var apiCalls: seq<ApiCall>
    var failedRequests: seq<FailedRequest>
    ghost var observed: seq<NetworkEvent>

    ghost predicate Valid()
      reads this
    {
      apiCalls == ApiCalls(observed) && failedRequests == FailedRequests(observed)
    }

    constructor ()
      ensures Valid() && observed == []
      ensures apiCalls == [] && failedRequests == []
    {
      apiCalls := [];
      failedRequests := [];
      observed := [];
    }

    /** The `response` handler. */
    method OnResponse(response: Response)
      requires Valid()
      modifies this
      ensures Valid() && observed == old(observed) + [ResponseReceived(response)]
      ensures apiCalls == old(apiCalls) +
        if Contains(response.url, API_PATH)
        then [ApiCall(response.url, response.responseEnd - response.requestStart)]
        else []
      ensures failedRequests == old(failedRequests) +
        if response.status >= 400
        then [FailedRequest(response.url, response.requestMethod, Some(response.status), None, response.resourceType)]
        else []
    {
      if Contains(response.url, API_PATH) {
        apiCalls := apiCalls + [ApiCall(response.url, response.responseEnd - response.requestStart)];
      }
      if response.status >= 400 {
        failedRequests := failedRequests +
          [FailedRequest(response.url, response.requestMethod, Some(response.status), None, response.resourceType)];
      }
      observed := observed + [ResponseReceived(response)];
      assert observed[..|observed| - 1] == old(observed);
    }

    /** The `requestfailed` handler: never touches `apiCalls`. */
    method OnRequestFailed(request: Request)
      requires Valid()
      modifies this
      ensures Valid() && observed == old(observed) + [RequestFailed(request)]
      ensures apiCalls == old(apiCalls)
      ensures failedRequests == old(failedRequests) +
        [FailedRequest(request.url, request.requestMethod, None, request.errorText, request.resourceType)]
    {
      failedRequests := failedRequests +
        [FailedRequest(request.url, request.requestMethod, None, request.errorText, request.resourceType)];
      observed := observed + [RequestFailed(request)];
      assert observed[..|observed| - 1] == old(observed);
    }
  }

  /** One target URL's test: fresh lists, then the handlers run for each event
      the page delivers, in order. */
  method RecordNavigation(events: seq<NetworkEvent>) returns (apiCalls: seq<ApiCall>, failedRequests: seq<FailedRequest>)
    ensures apiCalls == ApiCalls(events)
    ensures failedRequests == FailedRequests(events)
  {
    var log := new RequestLog();
    for i := 0 to |events|
      invariant log.Valid()
      invariant log.observed == events[..i]
    {
      assert events[..i + 1] == events[..i] + [events[i]];
      match events[i]
      case ResponseReceived(r) => log.OnResponse(r);
      case RequestFailed(q) => log.OnRequestFailed(q);
    }
    assert events[..|events|] == events;
    apiCalls, failedRequests := log.apiCalls, log.failedRequests;
  }
}
