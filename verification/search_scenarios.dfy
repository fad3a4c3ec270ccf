/** What `EmployeeSearchService.search` returns on the seed rows for the
    requests the repository's tests make. */
module SearchScenarios {
  import opened Wrappers
  import opened Schemas
  import opened ColumnConfig
  import opened EmployeeModel
  import opened SeedData
  import SqliteStore
  import EmployeeSearch

  /** The item a record projects to under `org_a`'s columns. */
  function OrgAItem(e: Employee): Item {
    [Entry("name", e.name), Entry("email", e.email), Entry("department", e.department),
     Entry("location", e.location)]
  }

  lemma OrgAProjection(e: Employee)
    ensures EmployeeSearch.ProjectEmployee(e, GetOrgColumns("org_a")) == OrgAItem(e)
  {
    var cols := GetOrgColumns("org_a");
    KnownOrganisationColumns();
    EmployeeSearch.ProjectOntoOrgColumns(e, "org_a");
    var item := EmployeeSearch.ProjectEmployee(e, cols);
    var d := ToDict(e);
    assert |item| == |Keys(item)| == 4;
    assert item[0] == Entry("name", d["name"]);
    assert item[1] == Entry("email", d["email"]);
    assert item[2] == Entry("department", d["department"]);
    assert item[3] == Entry("location", d["location"]);
    FourElements(item);
  }

  lemma FourElements<T>(s: seq<T>)
    requires |s| == 4
    ensures s == [s[0], s[1], s[2], s[3]]
  {
  }

  /** The store's answer to `org_a` searching for `john`. */
  lemma OrgAJohnPage(req: EmployeeSearchRequest)
    requires req == EmployeeSearchRequest("org_a", Some("john"), None, None, None, 20, 0)
    ensures EmployeeSearch.Page(SeedRows, req) == [E1, E3]
    ensures SqliteStore.Search(SeedRows, EmployeeSearch.FiltersFor(req)).total == 2
  {
    assert EmployeeSearch.FiltersFor(req) == SqliteStore.SearchFilters("org_a", Some("john"), None, None, None, 20, 0);
    OrgANameJohn();
  }

  /** `org_a` searching for `john`: John Doe and Bob Johnson, each with
      exactly name, email, department and location, in that order. */
  lemma OrgAJohnResponse()
    ensures var resp := EmployeeSearch.Search(SeedRows,
      EmployeeSearchRequest("org_a", Some("john"), None, None, None, 20, 0));
      && resp.total == 2 && resp.limit == 20 && resp.offset == 0
      && resp.items == [OrgAItem(E1), OrgAItem(E3)]
  {
    var req := EmployeeSearchRequest("org_a", Some("john"), None, None, None, 20, 0);
    OrgAJohnPage(req);
    var resp := EmployeeSearch.Search(SeedRows, req);
    OrgAProjection(E1);
    OrgAProjection(E3);
    assert resp.items[0] == OrgAItem(E1);
    assert resp.items[1] == OrgAItem(E3);
    TwoElements(resp.items);
  }

  lemma TwoElements<T>(s: seq<T>)
    requires |s| == 2
    ensures s == [s[0], s[1]]
  {
  }
}
