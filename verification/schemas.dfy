/** Request and response shapes of `app/schemas/employee.py`: the search
    request with its field constraints and defaults, the response, and the
    insertion-ordered dictionary each response item is. */
module Schemas {
  import opened Wrappers
  import opened Seqs

  /** One key/value pair of an item. */
  datatype Entry = Entry(key: string, value: string)

  /** `EmployeeItem`: a Python dict, whose keys keep insertion order. */
  type Item = seq<Entry>

  function Keys(item: Item): (ks: seq<string>)
    ensures |ks| == |item|
    ensures forall i :: 0 <= i < |item| ==> ks[i] == item[i].key
    decreases |item|
  {
    if |item| == 0 then [] else [item[0].key] + Keys(item[1..])
  }

  /** `item[k]`, or nothing when `k` is absent. */
  function Lookup(item: Item, k: string): (v: Option<string>)
    ensures v.Some? <==> k in Keys(item)
    decreases |item|
  {
    if |item| == 0 then None
    else if item[0].key == k then Some(item[0].value)
    else
      assert Keys(item) == [item[0].key] + Keys(item[1..]);
      Lookup(item[1..], k)
  }

  /** `item[k] = v`: an existing key keeps its position and takes the new
      value; a new key is appended. */
  function Put(item: Item, k: string, v: string): (r: Item)
    ensures IsPut(item, k, v, r)
    decreases |item|
  {
    if |item| == 0 then [Entry(k, v)]
    else
      var rest := item[1..];
      assert item == [item[0]] + rest;
      if item[0].key == k then
        PutAtHead(item[0], rest, v);
        [Entry(k, v)] + rest
      else
        var r := Put(rest, k, v);
        PutBehindHead(item[0], rest, k, v, r);
        [item[0]] + r
  }

  /** `r` is `item` after `item[k] = v`: same keys in the same order, `k`
      appended when new; `k` now holds `v`; every other key unchanged. */
  ghost predicate IsPut(item: Item, k: string, v: string, r: Item) {
    && Keys(r) == (if k in Keys(item) then Keys(item) else Keys(item) + [k])
    && Lookup(r, k) == Some(v)
    && forall k' :: k' != k ==> Lookup(r, k') == Lookup(item, k')
  }

  /** Keys and lookups of an item with one more entry in front. */
  lemma ConsFacts(e: Entry, item: Item)
    ensures Keys([e] + item) == [e.key] + Keys(item)
    ensures forall k :: Lookup([e] + item, k) == if e.key == k then Some(e.value) else Lookup(item, k)
  {
    assert ([e] + item)[1..] == item;
  }

  lemma PutAtHead(e: Entry, rest: Item, v: string)
    ensures IsPut([e] + rest, e.key, v, [Entry(e.key, v)] + rest)
  {
    ConsFacts(e, rest);
    ConsFacts(Entry(e.key, v), rest);
  }

  lemma PutBehindHead(e: Entry, rest: Item, k: string, v: string, r: Item)
    requires e.key != k
    requires IsPut(rest, k, v, r)
    ensures IsPut([e] + rest, k, v, [e] + r)
  {
    KeysBehindHead(e, rest, k, r);
    LookupsBehindHead(e, rest, k, v, r);
  }

  lemma KeysBehindHead(e: Entry, rest: Item, k: string, r: Item)
    requires e.key != k
    requires Keys(r) == (if k in Keys(rest) then Keys(rest) else Keys(rest) + [k])
    ensures Keys([e] + r) == (if k in Keys([e] + rest) then Keys([e] + rest) else Keys([e] + rest) + [k])
  {
    ConsFacts(e, rest);
    ConsFacts(e, r);
    assert k in Keys([e] + rest) <==> k in Keys(rest);
    if k !in Keys(rest) {
      assert [e.key] + (Keys(rest) + [k]) == ([e.key] + Keys(rest)) + [k];
    }
  }

  lemma LookupsBehindHead(e: Entry, rest: Item, k: string, v: string, r: Item)
    requires e.key != k
    requires Lookup(r, k) == Some(v)
    requires forall k' :: k' != k ==> Lookup(r, k') == Lookup(rest, k')
    ensures Lookup([e] + r, k) == Some(v)
    ensures forall k' :: k' != k ==> Lookup([e] + r, k') == Lookup([e] + rest, k')
  {
    ConsFacts(e, rest);
    ConsFacts(e, r);
  }

  /** With distinct keys, looking up the key at a position finds that
      position's value. */
  lemma {:induction false} LookupAt(item: Item, i: int)
    requires NoDuplicates(Keys(item))
    requires 0 <= i < |item|
    ensures Lookup(item, item[i].key) == Some(item[i].value)
    decreases |item|
  {
    if i > 0 {
      var tail := item[1..];
      assert Keys(item) == [item[0].key] + Keys(tail);
      assert item[i].key != item[0].key by {
        assert Keys(item)[i] == item[i].key && Keys(item)[0] == item[0].key;
      }
      assert NoDuplicates(Keys(tail)) by {
        forall a, b | 0 <= a < b < |tail|
          ensures Keys(tail)[a] != Keys(tail)[b]
        {
          assert Keys(tail)[a] == Keys(item)[a + 1] && Keys(tail)[b] == Keys(item)[b + 1];
        }
      }
      LookupAt(tail, i - 1);
      assert tail[i - 1] == item[i];
    }
  }

  /** Bounds and defaults of the request's pagination fields. */
  const MinLimit: int := 1
  const MaxLimit: int := 100
  const DefaultLimit: int := 20
  const DefaultOffset: int := 0

  /** `EmployeeSearchRequest`. */
  datatype EmployeeSearchRequest = EmployeeSearchRequest(
    orgId: string,
    name: Option<string>,
    department: Option<string>,
    location: Option<string>,
    position: Option<string>,
    limit: int,
    offset: int
  )

  /** The field constraints every constructed request satisfies. */
  predicate ValidRequest(req: EmployeeSearchRequest) {
    MinLimit <= req.limit <= MaxLimit && req.offset >= 0
  }

  /** `EmployeeSearchResponse`. */
  datatype EmployeeSearchResponse = EmployeeSearchResponse(
    items: seq<Item>,
    total: int,
    limit: int,
    offset: int
  )

  /** The query parameters as received: any of them may be absent. */
  datatype RawSearchQuery = RawSearchQuery(
    orgId: Option<string>,
    name: Option<string>,
    department: Option<string>,
    location: Option<string>,
    position: Option<string>,
    limit: Option<int>,
    offset: Option<int>
  )

  /** A validation failure, naming every parameter that failed. */
  datatype ValidationError = ValidationError(fields: set<string>)

  predicate LimitOk(limit: Option<int>) {
    limit.None? || MinLimit <= limit.value <= MaxLimit
  }

  predicate OffsetOk(offset: Option<int>) {
    offset.None? || offset.value >= 0
  }

  /** Building a request from query parameters: `org_id` is required, `limit`
      defaults to 20 and must lie in 1..100, `offset` defaults to 0 and must
      not be negative; all violations are reported together. */
  function ValidateRequest(q: RawSearchQuery): (r: Result<EmployeeSearchRequest, ValidationError>)
    ensures r.Success? <==> q.orgId.Some? && LimitOk(q.limit) && OffsetOk(q.offset)
    ensures r.Success? ==> ValidRequest(r.value)
    ensures r.Success? ==>
      && r.value.orgId == q.orgId.value && r.value.name == q.name
      && r.value.department == q.department && r.value.location == q.location
      && r.value.position == q.position
    ensures r.Success? ==> r.value.limit == (if q.limit.Some? then q.limit.value else 20)
    ensures r.Success? ==> r.value.offset == (if q.offset.Some? then q.offset.value else 0)
    ensures r.Failure? ==> && ("org_id" in r.error.fields <==> q.orgId.None?)
                           && ("limit" in r.error.fields <==> !LimitOk(q.limit))
                           && ("offset" in r.error.fields <==> !OffsetOk(q.offset))
  {
    var errors := (if q.orgId.None? then {"org_id"} else {})
      + (if LimitOk(q.limit) then {} else {"limit"})
      + (if OffsetOk(q.offset) then {} else {"offset"});
    if errors != {} then Failure(ValidationError(errors))
    else
      Success(EmployeeSearchRequest(
        q.orgId.value, q.name, q.department, q.location, q.position,
        if q.limit.Some? then q.limit.value else DefaultLimit,
        if q.offset.Some? then q.offset.value else DefaultOffset))
  }

  /** The query string that spells out every field of a request. */
  function ToQuery(req: EmployeeSearchRequest): RawSearchQuery {
    RawSearchQuery(Some(req.orgId), req.name, req.department, req.location, req.position,
                   Some(req.limit), Some(req.offset))
  }

  /** Every valid request survives being written out and validated again,
      and nothing else does. */
  lemma ValidateToQuery(req: EmployeeSearchRequest)
    ensures ValidRequest(req) ==> ValidateRequest(ToQuery(req)) == Success(req)
    ensures ValidateRequest(ToQuery(req)).Success? <==> ValidRequest(req)
  {
  }

  /** A query naming only the organisation yields the defaults. */
  lemma OrgOnlyQueryDefaults(orgId: string)
    ensures ValidateRequest(RawSearchQuery(Some(orgId), None, None, None, None, None, None))
      == Success(EmployeeSearchRequest(orgId, None, None, None, None, 20, 0))
  {
  }

  /** A query without `org_id` is a validation error, whatever else it carries. */
  lemma MissingOrgIdRejected(q: RawSearchQuery)
    requires q.orgId.None?
    ensures ValidateRequest(q).Failure? && "org_id" in ValidateRequest(q).error.fields
  {
  }
}
