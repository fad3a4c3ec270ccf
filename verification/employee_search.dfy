/** `EmployeeSearchService.search` and `_project_employee` of
    `app/services/employee_search.py`: the store query, the organisation's
    column list, and the projection of each record onto it. The store is
    the table contents passed in, not a process-wide singleton. */
module EmployeeSearch {
  import opened Wrappers
  import opened Seqs
  import opened ColumnConfig
  import opened EmployeeModel
  import opened Schemas
  import SqliteStore

  /** The body of `_project_employee` after the loop has visited `columns`:
      each visited column present in `d` has been assigned `d[col]`. */
  function ProjectColumns(d: map<string, string>, columns: seq<string>): (item: Item)
    ensures forall k :: Lookup(item, k) == (if k in columns && k in d then Some(d[k]) else None)
    ensures NoDuplicates(Keys(item))
    decreases |columns|
  {
    if |columns| == 0 then []
    else
      var prefix, c := columns[..|columns| - 1], columns[|columns| - 1];
      var acc := ProjectColumns(d, prefix);
      assert columns == prefix + [c];
      if c in d then
        AppendKeepsDistinct(acc, c, d[c]);
        Put(acc, c, d[c])
      else acc
  }

  lemma AppendKeepsDistinct(item: Item, k: string, v: string)
    requires NoDuplicates(Keys(item))
    ensures NoDuplicates(Keys(Put(item, k, v)))
  {
    var ks := Keys(item);
    if k !in ks {
      var r := ks + [k];
      forall i, j | 0 <= i < j < |r|
        ensures r[i] != r[j]
      {
        if j == |ks| {
          assert r[i] == ks[i];
        }
      }
    }
  }

  /** `_project_employee(employee, columns)`. */
  function ProjectEmployee(e: Employee, columns: seq<string>): (item: Item)
    ensures forall k :: Lookup(item, k) == if k in columns && IsFieldName(k) then Some(ToDict(e)[k]) else None
    ensures NoDuplicates(Keys(item))
  {
    ProjectColumns(ToDict(e), columns)
  }

  /** Whether a column is a key of the dictionary. */
  function InDict(d: map<string, string>): string -> bool {
    c => c in d
  }

  /** With distinct columns, the item's keys are the columns present in the
      dictionary, in column order. */
  lemma {:induction false} ProjectKeysInColumnOrder(d: map<string, string>, columns: seq<string>)
    requires NoDuplicates(columns)
    ensures Keys(ProjectColumns(d, columns)) == Filter(columns, InDict(d))
    decreases |columns|
  {
    if |columns| > 0 {
      var prefix, c := columns[..|columns| - 1], columns[|columns| - 1];
      assert columns == prefix + [c];
      LastDistinct(columns);
      ProjectKeysInColumnOrder(d, prefix);
      FilterAppend(prefix, c, InDict(d));
      var acc := ProjectColumns(d, prefix);
      if c in d {
        assert Lookup(acc, c).None?;
        assert Keys(Put(acc, c, d[c])) == Keys(acc) + [c];
      }
    }
  }

  /** Dropping the last column keeps the rest distinct, and the last column
      is not among them. */
  lemma LastDistinct(columns: seq<string>)
    requires NoDuplicates(columns) && |columns| > 0
    ensures NoDuplicates(columns[..|columns| - 1])
    ensures columns[|columns| - 1] !in columns[..|columns| - 1]
  {
    var prefix := columns[..|columns| - 1];
    forall i, j | 0 <= i < j < |prefix|
      ensures prefix[i] != prefix[j]
    {
      assert prefix[i] == columns[i] && prefix[j] == columns[j];
    }
    forall i | 0 <= i < |prefix|
      ensures prefix[i] != columns[|columns| - 1]
    {
      assert prefix[i] == columns[i];
    }
  }

  /** Projecting onto an organisation's columns yields exactly those
      columns, in configured order, each holding the record's field; in
      particular `org_id` never appears. */
  lemma ProjectOntoOrgColumns(e: Employee, orgId: string)
    ensures Keys(ProjectEmployee(e, GetOrgColumns(orgId))) == GetOrgColumns(orgId)
    ensures "org_id" !in Keys(ProjectEmployee(e, GetOrgColumns(orgId)))
    ensures forall i :: 0 <= i < |GetOrgColumns(orgId)| ==>
      ProjectEmployee(e, GetOrgColumns(orgId))[i] == Entry(GetOrgColumns(orgId)[i], ToDict(e)[GetOrgColumns(orgId)[i]])
  {
    var cols := GetOrgColumns(orgId);
    var d := ToDict(e);
    ProjectKeysInColumnOrder(d, cols);
    ToDictCoversAllowedColumns(e);
    forall i | 0 <= i < |cols|
      ensures InDict(d)(cols[i])
    {
      assert cols[i] in AllowedColumns;
    }
    FilterAllPass(cols, InDict(d));
    var item := ProjectEmployee(e, cols);
    forall i | 0 <= i < |cols|
      ensures item[i] == Entry(cols[i], d[cols[i]])
    {
      assert item[i].key == Keys(item)[i] == cols[i];
      LookupAt(item, i);
      assert cols[i] in AllowedColumns;
    }
  }

  /** The store filters built from a request: the request's own fields, so
      the same organisation scopes the query and the column lookup. */
  function FiltersFor(req: EmployeeSearchRequest): (f: SqliteStore.SearchFilters)
    ensures f.orgId == req.orgId && f.limit == req.limit && f.offset == req.offset
    ensures f.name == req.name && f.department == req.department
    ensures f.location == req.location && f.position == req.position
  {
    SqliteStore.SearchFilters(req.orgId, req.name, req.department, req.location,
                              req.position, req.limit, req.offset)
  }

  /** The records the store returns for a request. */
  function Page(rows: seq<Employee>, req: EmployeeSearchRequest): seq<Employee> {
    SqliteStore.Search(rows, FiltersFor(req)).employees
  }

  /** Projects each record of a page onto `columns`, in page order. */
  function ProjectAll(page: seq<Employee>, columns: seq<string>): (items: seq<Item>)
    ensures |items| == |page|
    ensures forall i :: 0 <= i < |items| ==> items[i] == ProjectEmployee(page[i], columns)
  {
    seq(|page|, i requires 0 <= i < |page| => ProjectEmployee(page[i], columns))
  }

  /** `EmployeeSearchService.search` over the table contents `rows`. */
  function Search(rows: seq<Employee>, req: EmployeeSearchRequest): (resp: EmployeeSearchResponse)
    requires ValidRequest(req)
    ensures resp.limit == req.limit && resp.offset == req.offset
    ensures resp.total == |SqliteStore.Matching(rows, SqliteStore.WhereOf(FiltersFor(req)))|
    ensures |resp.items| <= req.limit && |resp.items| <= resp.total
    ensures req.offset >= resp.total ==> resp.items == []
    ensures |resp.items| == |Page(rows, req)|
    ensures forall i :: 0 <= i < |resp.items| ==>
      && Page(rows, req)[i] in rows
      && Page(rows, req)[i].orgId == req.orgId
      && resp.items[i] == ProjectEmployee(Page(rows, req)[i], GetOrgColumns(req.orgId))
  {
    var r := SqliteStore.Search(rows, FiltersFor(req));
    EmployeeSearchResponse(ProjectAll(r.employees, GetOrgColumns(req.orgId)), r.total, req.limit, req.offset)
  }

  /** Every item of a response has exactly the organisation's columns, in
      order, and never `org_id`; each value is the field of a record of that
      organisation. */
  lemma SearchItemsShape(rows: seq<Employee>, req: EmployeeSearchRequest, i: int)
    requires ValidRequest(req)
    requires 0 <= i < |Search(rows, req).items|
    ensures Keys(Search(rows, req).items[i]) == GetOrgColumns(req.orgId)
    ensures "org_id" !in Keys(Search(rows, req).items[i])
    ensures exists e :: (e in rows && e.orgId == req.orgId &&
      forall k :: k in GetOrgColumns(req.orgId) ==> Lookup(Search(rows, req).items[i], k) == Some(ToDict(e)[k]))
  {
    var e := Page(rows, req)[i];
    ProjectOntoOrgColumns(e, req.orgId);
    ToDictCoversAllowedColumns(e);
    var cols := GetOrgColumns(req.orgId);
    forall k | k in cols
      ensures Lookup(Search(rows, req).items[i], k) == Some(ToDict(e)[k])
    {
      var j :| 0 <= j < |cols| && cols[j] == k;
      assert cols[j] in AllowedColumns;
    }
  }

  /** Tenant isolation end to end: the response for an organisation is the
      same whatever rows other organisations hold. */
  lemma SearchIgnoresOtherOrganisations(rows: seq<Employee>, req: EmployeeSearchRequest)
    requires ValidRequest(req)
    ensures Search(SqliteStore.OrgRows(rows, req.orgId), req) == Search(rows, req)
  {
    SqliteStore.SearchIgnoresOtherOrganisations(rows, FiltersFor(req));
  }
}
