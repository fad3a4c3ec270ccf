/** The seed rows of `app/db/sqlite_store.py` and what the store returns for
    them on the queries the repository's tests exercise. Each concrete
    string fact is proved on its own, then the facts are combined. */
module SeedData {
  import opened Wrappers
  import opened Seqs
  import Text
  import opened EmployeeModel
  import opened SqliteStore

  /** The rows inserted when the table is first created. */
  const E1 := Employee("e1", "org_a", "John Doe", "john@org-a.com", "Engineering", "HN", "SE")
  const E2 := Employee("e2", "org_a", "Jane Smith", "jane@org-a.com", "HR", "HCM", "Manager")
  const E3 := Employee("e3", "org_a", "Bob Johnson", "bob@org-a.com", "Engineering", "HN", "Lead")
  const E4 := Employee("e4", "org_a", "Alice Brown", "alice@org-a.com", "Finance", "DN", "Analyst")
  const E5 := Employee("e5", "org_b", "Charlie Wilson", "charlie@org-b.com", "Engineering", "HN", "Architect")
  const E6 := Employee("e6", "org_b", "Diana Prince", "diana@org-b.com", "Product", "HCM", "PM")
  const E7 := Employee("e7", "org_b", "John Smith", "john.s@org-b.com", "Engineering", "HN", "SE")
  const SeedRows: seq<Employee> := [E1, E2, E3, E4, E5, E6, E7]

  /** On a seed name, the pattern for `john` is a substring test for `john`
      in the lower-cased name. */
  lemma JohnPatternIsSubstring(name: string)
    ensures Text.LikeMatch(Text.LowerAscii(name), NamePattern("john"))
        <==> Text.Contains(Text.LowerAscii(name), "john")
  {
    assert Text.LowerAscii("john") == "john";
    assert NamePattern("john") == "%" + "john" + "%";
    Text.LikeContains(Text.LowerAscii(name), "john");
    Text.LowerAsciiIdempotent(name);
  }

  /** A name matches when `john` occurs in its lower-cased form at `at`. */
  lemma JohnAt(name: string, lowered: string, at: nat)
    requires Text.LowerAscii(name) == lowered
    requires at + 4 <= |lowered| && lowered[at..at + 4] == "john"
    ensures Text.LikeMatch(Text.LowerAscii(name), NamePattern("john"))
  {
    JohnPatternIsSubstring(name);
    assert "john" <= lowered[at..];
  }

  /** A name does not match when a letter of `john` is missing from its
      lower-cased form. */
  lemma NoJohn(name: string, lowered: string, k: nat)
    requires Text.LowerAscii(name) == lowered
    requires k < 4 && "john"[k] !in lowered
    ensures !Text.LikeMatch(Text.LowerAscii(name), NamePattern("john"))
  {
    JohnPatternIsSubstring(name);
    Text.MissingCharNotContained(lowered, "john", k);
  }

  /** The seed names in lower case, each with a letter of `john` it lacks
      where it does not contain it. */
  lemma JohnDoeLowered()
    ensures Text.LowerAscii("John Doe") == "john doe"
  {
  }

  lemma JaneSmithLowered()
    ensures Text.LowerAscii("Jane Smith") == "jane smith" && 'o' !in "jane smith"
  {
  }

  lemma BobJohnsonLowered()
    ensures Text.LowerAscii("Bob Johnson") == "bob johnson"
  {
  }

  lemma AliceBrownLowered()
    ensures Text.LowerAscii("Alice Brown") == "alice brown" && 'j' !in "alice brown"
  {
  }

  /** The filter `org_a` + name `john`, row by row. */
  const OrgAJohn := WhereClause("org_a", Some("john"), None, None, None)

  lemma JohnDoeMatchesJohn()
    ensures Matches(OrgAJohn, E1)
  {
    JohnDoeLowered();
    JohnAt(E1.name, "john doe", 0);
  }

  lemma JaneSmithMissesJohn()
    ensures !Matches(OrgAJohn, E2)
  {
    JaneSmithLowered();
    NoJohn(E2.name, "jane smith", 1);
  }

  lemma BobJohnsonMatchesJohn()
    ensures Matches(OrgAJohn, E3)
  {
    BobJohnsonLowered();
    JohnAt(E3.name, "bob johnson", 4);
  }

  lemma AliceBrownMissesJohn()
    ensures !Matches(OrgAJohn, E4)
  {
    AliceBrownLowered();
    NoJohn(E4.name, "alice brown", 0);
  }

  /** No `org_b` row passes a filter scoped to `org_a`. */
  lemma OrgBRowsOutsideOrgA(w: WhereClause)
    requires w.orgId == "org_a"
    ensures !Matches(w, E5) && !Matches(w, E6) && !Matches(w, E7)
  {
    assert E5.orgId[4] != w.orgId[4];
    assert E6.orgId[4] != w.orgId[4];
    assert E7.orgId[4] != w.orgId[4];
  }

  /** Whether each seed row, in table order, satisfies the clause. */
  function SeedFlags(w: WhereClause): (keep: seq<bool>)
    ensures |keep| == |SeedRows|
  {
    [Matches(w, E1), Matches(w, E2), Matches(w, E3), Matches(w, E4),
     Matches(w, E5), Matches(w, E6), Matches(w, E7)]
  }

  /** The matching seed rows are those whose flag says they satisfy the clause. */
  lemma SeedMatching(w: WhereClause)
    ensures Matching(SeedRows, w) == Select(SeedRows, SeedFlags(w))
  {
    MatchingOfSeven(w, E1, E2, E3, E4, E5, E6, E7, SeedFlags(w));
  }

  lemma MatchingOfSeven(w: WhereClause, a: Employee, b: Employee, c: Employee, d: Employee,
                        e: Employee, f: Employee, g: Employee, keep: seq<bool>)
    requires |keep| == 7
    requires Matches(w, a) == keep[0] && Matches(w, b) == keep[1]
    requires Matches(w, c) == keep[2] && Matches(w, d) == keep[3]
    requires Matches(w, e) == keep[4] && Matches(w, f) == keep[5]
    requires Matches(w, g) == keep[6]
    ensures Matching([a, b, c, d, e, f, g], w) == Select([a, b, c, d, e, f, g], keep)
  {
    FilterOfSeven(MatchesFilter(w), a, b, c, d, e, f, g, keep);
  }

  lemma FilterOfSeven<T>(p: T -> bool, a: T, b: T, c: T, d: T, e: T, f: T, g: T, keep: seq<bool>)
    requires |keep| == 7
    requires p(a) == keep[0] && p(b) == keep[1] && p(c) == keep[2] && p(d) == keep[3]
    requires p(e) == keep[4] && p(f) == keep[5] && p(g) == keep[6]
    ensures Filter([a, b, c, d, e, f, g], p) == Select([a, b, c, d, e, f, g], keep)
  {
    var xs := [a, b, c, d, e, f, g];
    forall i | 0 <= i < |xs|
      ensures p(xs[i]) == keep[i]
    {
    }
    FilterBySelection(xs, p, keep);
  }

  lemma OrgAJohnFlags()
    ensures SeedFlags(OrgAJohn) == [true, false, true, false, false, false, false]
  {
    JohnDoeMatchesJohn();
    JaneSmithMissesJohn();
    BobJohnsonMatchesJohn();
    AliceBrownMissesJohn();
    OrgBRowsOutsideOrgA(OrgAJohn);
  }

  lemma OrgAJohnMatching()
    ensures Matching(SeedRows, OrgAJohn) == [E1, E3]
  {
    SeedMatching(OrgAJohn);
    OrgAJohnFlags();
    SelectFirstAndThird(E1, E2, E3, E4, E5, E6, E7);
  }

  lemma SelectCons<T>(x: T, xs: seq<T>, k: bool, ks: seq<bool>)
    requires |ks| == |xs|
    ensures Select([x] + xs, [k] + ks) == (if k then [x] else []) + Select(xs, ks)
  {
    assert ([x] + xs)[1..] == xs && ([k] + ks)[1..] == ks;
  }

  lemma SelectFirstAndThird<T>(a: T, b: T, c: T, d: T, e: T, f: T, g: T)
    ensures Select([a, b, c, d, e, f, g], [true, false, true, false, false, false, false]) == [a, c]
  {
    SelectCons(g, [], false, []);
    SelectCons(f, [g], false, [false]);
    SelectCons(e, [f, g], false, [false, false]);
    SelectCons(d, [e, f, g], false, [false, false, false]);
    SelectCons(c, [d, e, f, g], true, [false, false, false, false]);
    SelectCons(b, [c, d, e, f, g], false, [true, false, false, false, false]);
    SelectCons(a, [b, c, d, e, f, g], true, [false, true, false, false, false, false]);
  }

  /** In `org_a` the name filter `john` matches both John Doe and Bob
      Johnson (`LIKE '%john%'` is a substring test), in id order. */
  lemma OrgANameJohn()
    ensures var r := Search(SeedRows, SearchFilters("org_a", Some("john"), None, None, None, 20, 0));
      r.total == 2 && r.employees == [E1, E3]
  {
    OrgAJohnMatching();
    assert SortById([E1, E3]) == [E1, E3] by {
      assert !Text.LexLess(E3.id, E1.id);
    }
  }

  /** The filter `org_b` + department `Engineering`. */
  const OrgBEngineering := WhereClause("org_b", None, Some("Engineering"), None, None)

  /** No `org_a` row passes a filter scoped to `org_b`. */
  lemma OrgARowsOutsideOrgB(w: WhereClause)
    requires w.orgId == "org_b"
    ensures !Matches(w, E1) && !Matches(w, E2) && !Matches(w, E3) && !Matches(w, E4)
  {
    assert E1.orgId[4] != w.orgId[4];
    assert E2.orgId[4] != w.orgId[4];
    assert E3.orgId[4] != w.orgId[4];
    assert E4.orgId[4] != w.orgId[4];
  }

  lemma OrgBEngineeringFlags()
    ensures SeedFlags(OrgBEngineering) == [false, false, false, false, true, false, true]
  {
    OrgARowsOutsideOrgB(OrgBEngineering);
    assert E6.department[0] != OrgBEngineering.department.value[0];
  }

  lemma SelectFifthAndSeventh<T>(a: T, b: T, c: T, d: T, e: T, f: T, g: T)
    ensures Select([a, b, c, d, e, f, g], [false, false, false, false, true, false, true]) == [e, g]
  {
    SelectCons(g, [], true, []);
    SelectCons(f, [g], false, [true]);
    SelectCons(e, [f, g], true, [false, true]);
    SelectCons(d, [e, f, g], false, [true, false, true]);
    SelectCons(c, [d, e, f, g], false, [false, true, false, true]);
    SelectCons(b, [c, d, e, f, g], false, [false, false, true, false, true]);
    SelectCons(a, [b, c, d, e, f, g], false, [false, false, false, true, false, true]);
  }

  lemma OrgBEngineeringMatching()
    ensures Matching(SeedRows, OrgBEngineering) == [E5, E7]
  {
    SeedMatching(OrgBEngineering);
    OrgBEngineeringFlags();
    SelectFifthAndSeventh(E1, E2, E3, E4, E5, E6, E7);
  }

  /** In `org_b` the department filter `Engineering` gives Charlie Wilson and
      John Smith, in id order; Diana Prince (Product) and every `org_a` row
      are left out. */
  lemma OrgBDepartmentEngineering()
    ensures var r := Search(SeedRows, SearchFilters("org_b", None, Some("Engineering"), None, None, 20, 0));
      r.total == 2 && r.employees == [E5, E7]
  {
    OrgBEngineeringMatching();
    assert SortById([E5, E7]) == [E5, E7] by {
      assert !Text.LexLess(E7.id, E5.id);
    }
  }

  /** An organisation with no rows sees nothing, whatever else is asked. */
  lemma UnknownOrgSeesNothing(f: SearchFilters)
    requires f.orgId == "unknown_org"
    ensures var r := Search(SeedRows, f); r.total == 0 && r.employees == []
  {
    var w := WhereOf(f);
    assert SeedFlags(w) == [false, false, false, false, false, false, false] by {
      assert E1.orgId[1] != w.orgId[1];
      assert E5.orgId[1] != w.orgId[1];
    }
    SeedMatching(w);
    SelectNoneOfSeven(E1, E2, E3, E4, E5, E6, E7);
  }

  lemma SelectNoneOfSeven<T>(a: T, b: T, c: T, d: T, e: T, f: T, g: T)
    ensures Select([a, b, c, d, e, f, g], [false, false, false, false, false, false, false]) == []
  {
    SelectCons(g, [], false, []);
    SelectCons(f, [g], false, [false]);
    SelectCons(e, [f, g], false, [false, false]);
    SelectCons(d, [e, f, g], false, [false, false, false]);
    SelectCons(c, [d, e, f, g], false, [false, false, false, false]);
    SelectCons(b, [c, d, e, f, g], false, [false, false, false, false, false]);
    SelectCons(a, [b, c, d, e, f, g], false, [false, false, false, false, false, false]);
  }
}
