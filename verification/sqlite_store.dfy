/** The query semantics of `SQLiteEmployeeStore.search` in
    `app/db/sqlite_store.py`, over the table's rows as a sequence.

    The `WHERE` clause always scopes to one organisation and adds a
    condition per truthy filter; `total` is `COUNT(*)` over it; the page is
    `ORDER BY id LIMIT ? OFFSET ?`. Connections, schema creation and the
    seed-once check are not modelled; the seed rows are kept as data. */
module SqliteStore {
  import opened Wrappers
  import opened Seqs
  import Text
  import opened EmployeeModel

  /** `SearchFilters`, with its defaults as in the source. */
  datatype SearchFilters = SearchFilters(
    orgId: string,
    name: Option<string>,
    department: Option<string>,
    location: Option<string>,
    position: Option<string>,
    limit: int,
    offset: int
  )

  function DefaultFilters(orgId: string): (f: SearchFilters)
    ensures f.orgId == orgId && f.limit == 20 && f.offset == 0
    ensures f.name.None? && f.department.None? && f.location.None? && f.position.None?
  {
    SearchFilters(orgId, None, None, None, None, 20, 0)
  }

  /** The `LIKE` pattern built from the name filter: `%` + lower-cased name + `%`. */
  function NamePattern(name: string): string {
    "%" + Text.LowerAscii(name) + "%"
  }

  /** The conditions of the `WHERE` clause, which both the count and the page
      query share; paging is not part of it. */
  datatype WhereClause = WhereClause(
    orgId: string,
    name: Option<string>,
    department: Option<string>,
    location: Option<string>,
    position: Option<string>
  )

  function WhereOf(f: SearchFilters): (w: WhereClause)
    ensures w.orgId == f.orgId
  {
    WhereClause(f.orgId, f.name, f.department, f.location, f.position)
  }

  /** A row satisfies the clause: same organisation, and each truthy filter
      satisfied (`LOWER(name) LIKE ?` for the name, equality for the others). */
  predicate Matches(w: WhereClause, e: Employee) {
    && e.orgId == w.orgId
    && (IsTruthy(w.name) ==> Text.LikeMatch(Text.LowerAscii(e.name), NamePattern(w.name.value)))
    && (IsTruthy(w.department) ==> e.department == w.department.value)
    && (IsTruthy(w.location) ==> e.location == w.location.value)
    && (IsTruthy(w.position) ==> e.position == w.position.value)
  }

  function MatchesFilter(w: WhereClause): Employee -> bool {
    e => Matches(w, e)
  }

  /** The rows satisfying the `WHERE` clause, in storage order. */
  function Matching(rows: seq<Employee>, w: WhereClause): (ms: seq<Employee>)
    ensures forall i :: 0 <= i < |ms| ==> ms[i] in rows && Matches(w, ms[i])
    ensures forall i :: 0 <= i < |rows| && Matches(w, rows[i]) ==> rows[i] in ms
  {
    Filter(rows, MatchesFilter(w))
  }

  /** A name filter without `LIKE` wildcards is a case-insensitive substring
      test; absent or empty filters impose nothing; the others are exact. */
  lemma MatchesAsSubstring(f: WhereClause, e: Employee)
    requires IsTruthy(f.name) ==> Text.NoWildcards(f.name.value)
    ensures Matches(f, e) <==>
      && e.orgId == f.orgId
      && (IsTruthy(f.name) ==> Text.Contains(Text.LowerAscii(e.name), Text.LowerAscii(f.name.value)))
      && (IsTruthy(f.department) ==> e.department == f.department.value)
      && (IsTruthy(f.location) ==> e.location == f.location.value)
      && (IsTruthy(f.position) ==> e.position == f.position.value)
  {
    if IsTruthy(f.name) {
      var q := Text.LowerAscii(f.name.value);
      Text.LikeContains(Text.LowerAscii(e.name), q);
      Text.LowerAsciiIdempotent(e.name);
      Text.LowerAsciiIdempotent(f.name.value);
    }
  }

  /** `id` is the primary key: no two rows share one. */
  predicate UniqueIds(xs: seq<Employee>) {
    forall i, j :: 0 <= i < j < |xs| ==> xs[i].id != xs[j].id
  }

  /** Strictly ascending by id. */
  predicate SortedById(xs: seq<Employee>) {
    forall i, j :: 0 <= i < j < |xs| ==> Text.LexLess(xs[i].id, xs[j].id)
  }

  lemma {:induction false} FilterKeepsUniqueIds(xs: seq<Employee>, p: Employee -> bool)
    requires UniqueIds(xs)
    ensures UniqueIds(Filter(xs, p))
    decreases |xs|
  {
    if |xs| > 0 {
      var tail := xs[1..];
      assert UniqueIds(tail) by {
        forall i, j | 0 <= i < j < |tail|
          ensures tail[i].id != tail[j].id
        {
          assert tail[i] == xs[i + 1] && tail[j] == xs[j + 1];
        }
      }
      FilterKeepsUniqueIds(tail, p);
      if p(xs[0]) {
        var rest := Filter(tail, p);
        forall j | 0 <= j < |rest|
          ensures rest[j].id != xs[0].id
        {
          var k :| 0 <= k < |tail| && tail[k] == rest[j];
          assert tail[k] == xs[k + 1];
        }
        ConsUniqueIds(xs[0], rest);
      }
    }
  }

  lemma ConsUniqueIds(x: Employee, rest: seq<Employee>)
    requires UniqueIds(rest)
    requires forall j :: 0 <= j < |rest| ==> rest[j].id != x.id
    ensures UniqueIds([x] + rest)
  {
    var r := [x] + rest;
    forall i, j | 0 <= i < j < |r|
      ensures r[i].id != r[j].id
    {
      assert r[j] == rest[j - 1];
      if i > 0 {
        assert r[i] == rest[i - 1];
      }
    }
  }

  /** Inserts `e` after every record whose id is smaller. */
  function InsertById(e: Employee, xs: seq<Employee>): (r: seq<Employee>)
    ensures multiset(r) == multiset(xs) + multiset{e}
    decreases |xs|
  {
    if |xs| == 0 then [e]
    else
      assert xs == [xs[0]] + xs[1..];
      if Text.LexLess(xs[0].id, e.id) then [xs[0]] + InsertById(e, xs[1..])
      else [e] + xs
  }

  /** `ORDER BY id`, as an insertion sort. */
  function SortById(xs: seq<Employee>): (r: seq<Employee>)
    ensures multiset(r) == multiset(xs)
    decreases |xs|
  {
    if |xs| == 0 then []
    else
      assert xs == [xs[0]] + xs[1..];
      InsertById(xs[0], SortById(xs[1..]))
  }

  lemma {:induction false} InsertKeepsSorted(e: Employee, xs: seq<Employee>)
    requires SortedById(xs)
    requires forall i :: 0 <= i < |xs| ==> xs[i].id != e.id
    ensures SortedById(InsertById(e, xs))
    decreases |xs|
  {
    if |xs| > 0 {
      if Text.LexLess(xs[0].id, e.id) {
        assert SortedById(xs[1..]) by {
          forall i, j | 0 <= i < j < |xs[1..]|
            ensures Text.LexLess(xs[1..][i].id, xs[1..][j].id)
          {
            assert xs[1..][i] == xs[i + 1] && xs[1..][j] == xs[j + 1];
          }
        }
        InsertKeepsSorted(e, xs[1..]);
        SortedAfterHead(xs[0], xs[1..], e, InsertById(e, xs[1..]));
      } else {
        Text.LexTotal(xs[0].id, e.id);
        SortedBeforeHead(e, xs);
      }
    }
  }

  /** A record placed before a strictly ascending sequence whose head has a
      larger id keeps it strictly ascending. */
  lemma SortedBeforeHead(e: Employee, xs: seq<Employee>)
    requires SortedById(xs)
    requires |xs| > 0 ==> Text.LexLess(e.id, xs[0].id)
    ensures SortedById([e] + xs)
  {
    var r := [e] + xs;
    forall i, j | 0 <= i < j < |r|
      ensures Text.LexLess(r[i].id, r[j].id)
    {
      if i == 0 {
        if j > 1 {
          Text.LexTransitive(e.id, xs[0].id, xs[j - 1].id);
        }
      } else {
        assert r[i] == xs[i - 1] && r[j] == xs[j - 1];
      }
    }
  }

  /** Putting `h` in front of the sorted insertion of `e` into `tail` keeps
      the order when `h` is smaller than `e` and than everything in `tail`. */
  lemma SortedAfterHead(h: Employee, tail: seq<Employee>, e: Employee, rest: seq<Employee>)
    requires SortedById([h] + tail)
    requires Text.LexLess(h.id, e.id)
    requires SortedById(rest)
    requires multiset(rest) == multiset(tail) + multiset{e}
    ensures SortedById([h] + rest)
  {
    forall j | 0 <= j < |rest|
      ensures Text.LexLess(h.id, rest[j].id)
    {
      var y := rest[j];
      assert y in multiset(rest);
      if y != e {
        assert y in multiset(tail);
        var k :| 0 <= k < |tail| && tail[k] == y;
        var ht := [h] + tail;
        assert ht[0] == h && ht[k + 1] == y;
      }
    }
    SortedBeforeHeadAll(h, rest);
  }

  lemma SortedBeforeHeadAll(h: Employee, rest: seq<Employee>)
    requires SortedById(rest)
    requires forall j :: 0 <= j < |rest| ==> Text.LexLess(h.id, rest[j].id)
    ensures SortedById([h] + rest)
  {
    var r := [h] + rest;
    forall i, j | 0 <= i < j < |r|
      ensures Text.LexLess(r[i].id, r[j].id)
    {
      if i > 0 {
        assert r[i] == rest[i - 1] && r[j] == rest[j - 1];
      } else {
        assert r[j] == rest[j - 1];
      }
    }
  }

  /** With unique ids, the sort yields a strictly ascending order. */
  lemma {:induction false} SortByIdSorted(xs: seq<Employee>)
    requires UniqueIds(xs)
    ensures SortedById(SortById(xs))
    decreases |xs|
  {
    if |xs| > 0 {
      var tail := xs[1..];
      assert UniqueIds(tail) by {
        forall i, j | 0 <= i < j < |tail|
          ensures tail[i].id != tail[j].id
        {
          assert tail[i] == xs[i + 1] && tail[j] == xs[j + 1];
        }
      }
      SortByIdSorted(tail);
      var s := SortById(tail);
      forall i | 0 <= i < |s|
        ensures s[i].id != xs[0].id
      {
        assert s[i] in multiset(s);
        var k :| 0 <= k < |tail| && tail[k] == s[i];
        assert tail[k] == xs[k + 1];
      }
      InsertKeepsSorted(xs[0], s);
    }
  }

  /** The smallest id comes first in every strictly ascending arrangement. */
  lemma SortedHeadsAgree(a: seq<Employee>, b: seq<Employee>)
    requires SortedById(a) && SortedById(b)
    requires multiset(a) == multiset(b)
    requires |a| > 0 && |b| > 0
    ensures a[0] == b[0]
  {
    assert a[0] in multiset(b);
    var j :| 0 <= j < |b| && b[j] == a[0];
    assert b[0] in multiset(a);
    var k :| 0 <= k < |a| && a[k] == b[0];
    if j > 0 {
      if k > 0 {
        Text.LexAsymmetric(b[0].id, b[j].id);
      } else {
        Text.LexIrreflexive(b[0].id);
      }
    }
  }

  /** The tail of a strictly ascending sequence is strictly ascending and
      holds everything but the head. */
  lemma SortedTail(a: seq<Employee>)
    requires SortedById(a) && |a| > 0
    ensures SortedById(a[1..])
    ensures multiset(a[1..]) == multiset(a) - multiset{a[0]}
  {
    assert a == [a[0]] + a[1..];
    forall i, j | 0 <= i < j < |a[1..]|
      ensures Text.LexLess(a[1..][i].id, a[1..][j].id)
    {
      assert a[1..][i] == a[i + 1] && a[1..][j] == a[j + 1];
    }
  }

  /** Ordering by a unique key is deterministic: two strictly ascending
      arrangements of the same records are the same sequence. */
  lemma {:induction false} SortedArrangementUnique(a: seq<Employee>, b: seq<Employee>)
    requires SortedById(a) && SortedById(b)
    requires multiset(a) == multiset(b)
    ensures a == b
    decreases |a|
  {
    assert |b| == |multiset(b)| == |multiset(a)| == |a|;
    if |a| > 0 {
      SortedHeadsAgree(a, b);
      SortedTail(a);
      SortedTail(b);
      SortedArrangementUnique(a[1..], b[1..]);
      assert a == [a[0]] + a[1..] && b == [b[0]] + b[1..];
    }
  }

  /** `LIMIT limit OFFSET offset` with SQLite's readings of negative values: a
      negative limit means no limit, a negative offset means none. */
  function Window<T>(xs: seq<T>, limit: int, offset: int): (page: seq<T>)
    ensures limit >= 0 ==> |page| <= limit
    ensures offset >= |xs| ==> page == []
    ensures forall i :: 0 <= i < |page| ==> Max(offset, 0) + i < |xs| && page[i] == xs[Max(offset, 0) + i]
    ensures limit >= 0 ==> |page| == Min(limit, Max(0, |xs| - Max(offset, 0)))
    ensures limit < 0 ==> |page| == Max(0, |xs| - Max(offset, 0))
  {
    var start := Min(Max(offset, 0), |xs|);
    var end := if limit < 0 then |xs| else Min(start + limit, |xs|);
    xs[start..end]
  }

  /** Two adjacent pages together are the page spanning both, so walking the
      offsets page by page visits every match once, in id order. */
  lemma AdjacentPages<T>(xs: seq<T>, a: nat, b: nat, offset: nat)
    ensures Window(xs, a, offset) + Window(xs, b, offset + a) == Window(xs, a + b, offset)
  {
    var s1, e1 := Min(offset, |xs|), Min(offset + a, |xs|);
    var e2 := Min(offset + a + b, |xs|);
    assert xs[s1..e1] + xs[e1..e2] == xs[s1..e2];
  }

  /** Result of `search`: the page of records and the total match count. */
  datatype StoreResult = StoreResult(employees: seq<Employee>, total: int)

  /** `SQLiteEmployeeStore.search` over the table contents `rows`. */
  function Search(rows: seq<Employee>, f: SearchFilters): (r: StoreResult)
    ensures forall i :: 0 <= i < |r.employees| ==> r.employees[i] in rows && Matches(WhereOf(f), r.employees[i])
    ensures forall i :: 0 <= i < |r.employees| ==> r.employees[i].orgId == f.orgId
    ensures r.total == |Matching(rows, WhereOf(f))|
    ensures f.limit >= 0 ==> |r.employees| <= f.limit
    ensures |r.employees| <= r.total
    ensures f.offset >= r.total ==> r.employees == []
    ensures UniqueIds(rows) ==> SortedById(r.employees)
  {
    var matches := Matching(rows, WhereOf(f));
    PageFacts(rows, f);
    StoreResult(Window(SortById(matches), f.limit, f.offset), |matches|)
  }

  lemma PageFacts(rows: seq<Employee>, f: SearchFilters)
    ensures var matches := Matching(rows, WhereOf(f));
      var page := Window(SortById(matches), f.limit, f.offset);
      && AllMatch(page, rows, WhereOf(f))
      && |page| <= |matches|
      && (f.offset >= |matches| ==> page == [])
      && (UniqueIds(rows) ==> SortedById(page))
  {
    var w := WhereOf(f);
    var sorted := SortById(Matching(rows, w));
    SortedMatchesFacts(rows, w);
    WindowKeepsMatch(sorted, rows, w, f.limit, f.offset);
    if UniqueIds(rows) {
      WindowKeepsSorted(sorted, f.limit, f.offset);
    }
  }

  /** Every record of `xs` is a row satisfying the clause. */
  predicate AllMatch(xs: seq<Employee>, rows: seq<Employee>, w: WhereClause) {
    forall i :: 0 <= i < |xs| ==> xs[i] in rows && Matches(w, xs[i])
  }

  lemma WindowKeepsMatch(xs: seq<Employee>, rows: seq<Employee>, w: WhereClause, limit: int, offset: int)
    requires AllMatch(xs, rows, w)
    ensures AllMatch(Window(xs, limit, offset), rows, w)
  {
    var page := Window(xs, limit, offset);
    forall i | 0 <= i < |page|
      ensures page[i] in rows && Matches(w, page[i])
    {
      assert page[i] == xs[Max(offset, 0) + i];
    }
  }

  /** The matches in id order are exactly the matches, rearranged. */
  lemma SortedMatchesFacts(rows: seq<Employee>, w: WhereClause)
    ensures |SortById(Matching(rows, w))| == |Matching(rows, w)|
    ensures AllMatch(SortById(Matching(rows, w)), rows, w)
    ensures UniqueIds(rows) ==> SortedById(SortById(Matching(rows, w)))
  {
    var matches := Matching(rows, w);
    var sorted := SortById(matches);
    assert |sorted| == |multiset(sorted)| == |multiset(matches)| == |matches|;
    forall i | 0 <= i < |sorted|
      ensures sorted[i] in rows && Matches(w, sorted[i])
    {
      assert sorted[i] in multiset(matches);
    }
    if UniqueIds(rows) {
      FilterKeepsUniqueIds(rows, MatchesFilter(w));
      SortByIdSorted(matches);
    }
  }

  lemma WindowKeepsSorted(xs: seq<Employee>, limit: int, offset: int)
    requires SortedById(xs)
    ensures SortedById(Window(xs, limit, offset))
  {
    var page := Window(xs, limit, offset);
    forall i, j | 0 <= i < j < |page|
      ensures Text.LexLess(page[i].id, page[j].id)
    {
      assert page[i] == xs[Max(offset, 0) + i] && page[j] == xs[Max(offset, 0) + j];
    }
  }

  /** `total` does not depend on the page requested. */
  lemma TotalIgnoresPaging(rows: seq<Employee>, f: SearchFilters, limit: int, offset: int)
    ensures Search(rows, f.(limit := limit, offset := offset)).total == Search(rows, f).total
  {
  }

  /** The page is the matching records in ascending id order, cut at
      `[offset, offset + limit)`: any strictly ascending arrangement of the
      matches yields the same page. */
  lemma PageIsSortedWindow(rows: seq<Employee>, f: SearchFilters, sorted: seq<Employee>)
    requires UniqueIds(rows)
    requires SortedById(sorted)
    requires multiset(sorted) == multiset(Matching(rows, WhereOf(f)))
    ensures Search(rows, f).employees == Window(sorted, f.limit, f.offset)
  {
    var matches := Matching(rows, WhereOf(f));
    FilterKeepsUniqueIds(rows, MatchesFilter(WhereOf(f)));
    SortByIdSorted(matches);
    SortedArrangementUnique(SortById(matches), sorted);
  }

  /** The physical order of the table does not affect the result. */
  lemma SearchIgnoresRowOrder(rows1: seq<Employee>, rows2: seq<Employee>, f: SearchFilters)
    requires UniqueIds(rows1) && UniqueIds(rows2)
    requires multiset(rows1) == multiset(rows2)
    ensures Search(rows1, f) == Search(rows2, f)
  {
    var w := WhereOf(f);
    FilterPermutation(rows1, rows2, MatchesFilter(w));
    var m1, m2 := Matching(rows1, w), Matching(rows2, w);
    assert |m1| == |multiset(m1)| == |multiset(m2)| == |m2|;
    FilterKeepsUniqueIds(rows1, MatchesFilter(w));
    FilterKeepsUniqueIds(rows2, MatchesFilter(w));
    SortByIdSorted(m1);
    SortByIdSorted(m2);
    SortedArrangementUnique(SortById(m1), SortById(m2));
  }

  /** The rows of one organisation, in storage order. */
  function OrgRows(rows: seq<Employee>, orgId: string): (r: seq<Employee>)
    ensures forall i :: 0 <= i < |r| ==> r[i] in rows && r[i].orgId == orgId
    ensures forall i :: 0 <= i < |rows| && rows[i].orgId == orgId ==> rows[i] in r
  {
    Filter(rows, OrgIs(orgId))
  }

  function OrgIs(orgId: string): Employee -> bool {
    (e: Employee) => e.orgId == orgId
  }

  /** Tenant isolation: rows of other organisations have no influence on
      the result, so adding, removing or changing them leaves it as it is. */
  lemma SearchIgnoresOtherOrganisations(rows: seq<Employee>, f: SearchFilters)
    ensures Search(OrgRows(rows, f.orgId), f) == Search(rows, f)
  {
    FilterNarrowing(rows, OrgIs(f.orgId), MatchesFilter(WhereOf(f)));
  }
}
