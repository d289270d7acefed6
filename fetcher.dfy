/** The threat-intelligence fetch with its network call abstracted to an
    outcome. Every branch of the decision cascade returns the same value, the
    static catalog cut to MAX_ASNS; the live feed only feeds a diagnostic report. */
module Fetcher {
  import opened Common
  import opened Catalog
  import opened CountryStats

  /** The parsed JSON body of a blacklist response; `data` is absent when the
      body has no "data" key. */
  datatype BlacklistBody = BlacklistBody(data: Option<seq<Entry>>)

  /** What the single GET to the blacklist endpoint produced. A response whose
      body is not JSON carries `body == None`. */
  datatype FetchOutcome =
    | Response(status: int, body: Option<BlacklistBody>)
    | NetworkFailure     // a requests.exceptions.RequestException from the call
    | UnexpectedFailure  // any other exception raised while handling the call

  /** Which branch the fetch took, with what it logged about the live data. */
  datatype FetchReport =
    | NoApiKey
    | LiveIntel(received: nat, top: seq<CountryCount>, highRisk: bool)
    | EmptyData
    | RateLimited
    | AuthFailed
    | ApiError(status: int)
    | NetworkError
    | UnexpectedError

  /** A 200 response whose body holds a non-empty "data" list. */
  predicate HasLiveData(outcome: FetchOutcome) {
    && outcome.Response? && outcome.status == 200
    && outcome.body.Some? && outcome.body.value.data.Some?
    && |outcome.body.value.data.value| > 0
  }

  /** A 200 response whose JSON body has no "data" key or an empty one. */
  predicate HasEmptyData(outcome: FetchOutcome) {
    && outcome.Response? && outcome.status == 200
    && outcome.body.Some? && !HasLiveData(outcome)
  }

  /** `fetch_abuseipdb_asns`. `keyPresent` stands for a non-empty API key in the
      environment. A JSON decoding failure of a 200 body is a RequestException
      in the requests library and so takes the network-error branch. */
  method FetchAbuseIpdbAsns(keyPresent: bool, outcome: FetchOutcome) returns (asns: seq<nat>, report: FetchReport)
    ensures asns == FallbackAsns()
    ensures |asns| <= MAX_ASNS && asns <= KnownBadAsns()
    ensures report.NoApiKey? <==> !keyPresent
    ensures report.LiveIntel? <==> keyPresent && HasLiveData(outcome)
    ensures report.EmptyData? <==> keyPresent && HasEmptyData(outcome)
    ensures report.RateLimited? <==> keyPresent && outcome.Response? && outcome.status == 429
    ensures report.AuthFailed? <==> keyPresent && outcome.Response? && outcome.status == 401
    ensures report.ApiError? <==> keyPresent && outcome.Response? && outcome.status !in {200, 429, 401}
    ensures report.ApiError? ==> report.status == outcome.status
    ensures report.NetworkError? <==>
              keyPresent && (outcome.NetworkFailure? || (outcome.Response? && outcome.status == 200 && outcome.body.None?))
    ensures report.UnexpectedError? <==> keyPresent && outcome.UnexpectedFailure?
    ensures report.LiveIntel? ==>
              var entries := outcome.body.value.data.value;
              && report.received == |entries|
              && report.top == TopCountries(CountryTable(entries))
              && report.highRisk == HighRiskDetected(report.top)
  {
    if !keyPresent {
      return FallbackAsns(), NoApiKey;
    }
    match outcome {
      case NetworkFailure =>
        asns, report := FallbackAsns(), NetworkError;
      case UnexpectedFailure =>
        asns, report := FallbackAsns(), UnexpectedError;
      case Response(status, body) =>
        if status == 200 {
          if body.None? {
            // response.json() raised a JSON decoding error
            asns, report := FallbackAsns(), NetworkError;
          } else if body.value.data.Some? && |body.value.data.value| > 0 {
            var entries := body.value.data.value;
            var order, counts := CountCountries(entries);
            var top := TopCountries(Items(order, counts));
            var highRisk := HighRiskDetected(top);
            var staticAsns := KnownBadAsns();
            asns := Take(staticAsns, MAX_ASNS);
            report := LiveIntel(|entries|, top, highRisk);
          } else {
            asns, report := FallbackAsns(), EmptyData;
          }
        } else if status == 429 {
          asns, report := FallbackAsns(), RateLimited;
        } else if status == 401 {
          asns, report := FallbackAsns(), AuthFailed;
        } else {
          asns, report := FallbackAsns(), ApiError(status);
        }
    }
  }
}
