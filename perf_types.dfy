/** The record shapes of the performance results: one API call, one failed
    request, and the snapshot written once per target URL. Timings are whole
    milliseconds. */
module PerfTypes {
  import opened Wrappers

  /** A response whose URL contains "/api/", with its duration. */
  datatype ApiCall = ApiCall(url: string, responseTime: int)

  /** A response with an HTTP error status (`status` present, `failure`
      absent) or a request that failed at the network level (`status`
      absent, `failure` the browser's error text when it gave one). */
  datatype FailedRequest = FailedRequest(
    url: string,
    requestMethod: string,
    status: Option<int>,
    failure: Option<string>,
    resourceType: string)

  /** The JSON object written for one target URL. */
  datatype Snapshot = Snapshot(
    url: string,
    timestamp: string,
    domContentLoaded: int,
    loadEvent: int,
    avgFps: int,
    minFps: int,
    fpsSampleDurationMs: int,
    apiCalls: seq<ApiCall>,
    failedRequests: seq<FailedRequest>)
}
