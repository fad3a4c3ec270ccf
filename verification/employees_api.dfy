/** The `GET /api/v1/employees/search` route of `app/api/v1/employees.py`
    together with the 429 handler of `app/main.py`, as one function from the
    limiter state and the request to the response and the next limiter
    state.

    Request handling order: the rate-limit dependency needs `org_id`, so a
    request without it is rejected as a validation error before the limiter
    is consulted; otherwise the limiter is consulted first (and a denial
    raises 429), and only then are `limit`/`offset` validated and the search
    run. */
module EmployeesApi {
  import opened Wrappers
  import opened Schemas
  import opened RateLimit
  import EmployeeSearch
  import EmployeeModel

  /** The body of the 429 response. */
  const RateLimitDetail: string := "Rate limit exceeded. Try again later."

  datatype ApiResponse =
    | Ok(body: EmployeeSearchResponse)
    | TooManyRequests(detail: string, retryAfter: string)
    | UnprocessableEntity(error: ValidationError)

  /** The response and the limiter state after the request. */
  datatype Exchange = Exchange(response: ApiResponse, limiter: Limiter)

  /** `search_employees` with its `verify_rate_limit` dependency, over the
      table contents `rows`, at time `now`. */
  function SearchEmployees(rows: seq<EmployeeModel.Employee>, l: Limiter, client: ClientRequest,
                           q: RawSearchQuery, now: int): (x: Exchange)
    ensures q.orgId.None? ==> x.response.UnprocessableEntity? && x.limiter == l
    ensures q.orgId.Some? ==>
      var d := IsAllowed(l, GetClientKey(client, q.orgId), now);
      && x.limiter == d.next
      && (x.response.TooManyRequests? <==> !d.allowed)
      && (x.response.UnprocessableEntity? <==> d.allowed && ValidateRequest(q).Failure?)
    ensures x.response.TooManyRequests? ==> x.response.detail == RateLimitDetail && x.response.retryAfter == RetryAfter
    ensures x.response.UnprocessableEntity? ==> ValidateRequest(q) == Failure(x.response.error)
    ensures x.response.Ok? ==>
      && ValidateRequest(q).Success?
      && x.response.body == EmployeeSearch.Search(rows, ValidateRequest(q).value)
  {
    if q.orgId.None? then
      Exchange(UnprocessableEntity(ValidateRequest(q).error), l)
    else
      var check := CheckRateLimit(l, client, q.orgId.value, now);
      if check.RateLimitExceeded? then
        Exchange(TooManyRequests(RateLimitDetail, RetryAfter), check.next)
      else
        match ValidateRequest(q)
        case Failure(err) => Exchange(UnprocessableEntity(err), check.next)
        case Success(req) => Exchange(Ok(EmployeeSearch.Search(rows, req)), check.next)
  }

  /** A search is only ever answered when the limiter admitted it, and an
      answered search has the organisation's columns and page bounds. */
  lemma AnsweredOnlyWhenAdmitted(rows: seq<EmployeeModel.Employee>, l: Limiter, client: ClientRequest,
                                 q: RawSearchQuery, now: int)
    ensures var x := SearchEmployees(rows, l, client, q, now);
      x.response.Ok? ==>
        && q.orgId.Some?
        && IsAllowed(l, GetClientKey(client, q.orgId), now).allowed
        && History(x.limiter, GetClientKey(client, q.orgId)) != []
        && |x.response.body.items| <= x.response.body.limit <= MaxLimit
  {
    var x := SearchEmployees(rows, l, client, q, now);
    if x.response.Ok? {
      IsAllowedSpec(l, GetClientKey(client, q.orgId), now);
    }
  }

  /** Serving a request keeps the limiter's invariant: every history within
      capacity, ascending, and not in the future. */
  lemma SearchEmployeesPreservesValid(rows: seq<EmployeeModel.Employee>, l: Limiter, client: ClientRequest,
                                      q: RawSearchQuery, clock: int, now: int)
    requires Valid(l, clock)
    requires clock <= now
    ensures Valid(SearchEmployees(rows, l, client, q, now).limiter, now)
  {
    if q.orgId.Some? {
      IsAllowedPreservesValid(l, GetClientKey(client, q.orgId), clock, now);
    } else {
      ValidLater(l, clock, now);
    }
  }

  lemma ValidLater(l: Limiter, clock: int, now: int)
    requires Valid(l, clock)
    requires clock <= now
    ensures Valid(l, now)
  {
  }

  /** Requests for one organisation never consume another organisation's
      budget: the other organisation's history is untouched. */
  lemma OrganisationsIsolated(rows: seq<EmployeeModel.Employee>, l: Limiter, client: ClientRequest,
                              q: RawSearchQuery, other: string, now: int)
    requires q.orgId.Some? && |q.orgId.value| > 0
    requires other != q.orgId.value
    ensures History(SearchEmployees(rows, l, client, q, now).limiter, "org:" + other) == History(l, "org:" + other)
  {
    var a, b := "org:" + q.orgId.value, "org:" + other;
    assert a != b by {
      assert a[4..] == q.orgId.value && b[4..] == other;
    }
  }

  /** A query naming only the organisation. */
  function OrgOnly(orgId: string): RawSearchQuery {
    RawSearchQuery(Some(orgId), None, None, None, None, None, None)
  }

  /** An organisation-only search is served exactly when the limiter admits
      the organisation's key, and the limiter moves on in either case. */
  lemma OrgOnlySearch(rows: seq<EmployeeModel.Employee>, l: Limiter, client: ClientRequest,
                      orgId: string, now: int)
    requires |orgId| > 0
    ensures var x := SearchEmployees(rows, l, client, OrgOnly(orgId), now);
      var d := IsAllowed(l, "org:" + orgId, now);
      && x.limiter == d.next
      && (d.allowed ==> x.response.Ok?)
      && (!d.allowed ==> x.response == TooManyRequests(RateLimitDetail, "60"))
  {
    OrgOnlyQueryDefaults(orgId);
  }

  /** With two requests per sixty seconds, the third search for an
      organisation within one window is refused with 429 and `Retry-After:
      60`, while another organisation is still served. Each search starts
      from the limiter state the previous one left (`OrgOnlySearch`). */
  lemma ThirdSearchInWindowRefused(rows: seq<EmployeeModel.Employee>, client: ClientRequest,
                                   t0: int, t1: int, t2: int, t3: int)
    requires t0 <= t1 <= t2 <= t3 <= t0 + 60
    ensures
      var l0 := NewLimiter(ConfiguredMaxRequests, ConfiguredWindowSeconds);
      var l1 := IsAllowed(l0, "org:org_limit_a", t0).next;
      var l2 := IsAllowed(l1, "org:org_limit_a", t1).next;
      var l3 := IsAllowed(l2, "org:org_limit_a", t2).next;
      && SearchEmployees(rows, l0, client, OrgOnly("org_limit_a"), t0).response.Ok?
      && SearchEmployees(rows, l1, client, OrgOnly("org_limit_a"), t1).response.Ok?
      && SearchEmployees(rows, l2, client, OrgOnly("org_limit_a"), t2).response == TooManyRequests(RateLimitDetail, "60")
      && SearchEmployees(rows, l3, client, OrgOnly("org_limit_b"), t3).response.Ok?
  {
    TwoPerWindowScenario(t0, t1, t2, t3);
    var l0 := NewLimiter(ConfiguredMaxRequests, ConfiguredWindowSeconds);
    var l1 := IsAllowed(l0, "org:org_limit_a", t0).next;
    var l2 := IsAllowed(l1, "org:org_limit_a", t1).next;
    var l3 := IsAllowed(l2, "org:org_limit_a", t2).next;
    ScenarioKeys();
    OrgOnlySearch(rows, l0, client, "org_limit_a", t0);
    OrgOnlySearch(rows, l1, client, "org_limit_a", t1);
    OrgOnlySearch(rows, l2, client, "org_limit_a", t2);
    OrgOnlySearch(rows, l3, client, "org_limit_b", t3);
  }

  lemma ScenarioKeys()
    ensures "org:" + "org_limit_a" == "org:org_limit_a"
    ensures "org:" + "org_limit_b" == "org:org_limit_b"
  {
  }
}
