/** The per-organisation column configuration of `app/services/column_config.py`:
    which employee fields an organisation sees, and in what order. */
module ColumnConfig {
  import opened Seqs

  /** The fields a response may ever carry; `org_id` is not among them. */
  const AllowedColumns: set<string> := {"id", "name", "email", "department", "location", "position"}

  /** The table key used for organisations without an entry of their own. */
  const DefaultOrg: string := "org_default"

  const DefaultColumns: seq<string> := ["id", "name", "email", "department", "location", "position"]

  /** Organisation id to the ordered list of visible columns. */
  const OrgColumnConfig: map<string, seq<string>> := map[
    "org_a" := ["name", "email", "department", "location"],
    "org_b" := ["name", "department", "position"],
    DefaultOrg := DefaultColumns
  ]

  predicate IsAllowedColumn(c: string) {
    c in AllowedColumns
  }

  /** The table entry for `orgId`, falling back to the default entry. */
  function RawColumns(orgId: string): seq<string> {
    if orgId in OrgColumnConfig then OrgColumnConfig[orgId] else OrgColumnConfig[DefaultOrg]
  }

  /** `[c for c in raw if c in ALLOWED_COLUMNS]`. */
  function FilterAllowed(raw: seq<string>): (cols: seq<string>)
    ensures forall i :: 0 <= i < |cols| ==> cols[i] in AllowedColumns
    ensures forall i :: 0 <= i < |raw| && raw[i] in AllowedColumns ==> raw[i] in cols
    ensures IsSubsequence(cols, raw)
    ensures "org_id" !in cols
  {
    Filter(raw, IsAllowedColumn)
  }

  /** Each whitelisted name occurs in the filtered list as often as in the
      input, repeats included; every other name not at all. */
  lemma FilterAllowedMultiplicity(raw: seq<string>)
    ensures forall c :: multiset(FilterAllowed(raw))[c] == if c in AllowedColumns then multiset(raw)[c] else 0
  {
    forall c
      ensures multiset(FilterAllowed(raw))[c] == if c in AllowedColumns then multiset(raw)[c] else 0
    {
      FilterMultiplicity(raw, IsAllowedColumn, c);
    }
  }

  /** Filtering against the whitelist is idempotent. */
  lemma FilterAllowedIdempotent(raw: seq<string>)
    ensures FilterAllowed(FilterAllowed(raw)) == FilterAllowed(raw)
  {
    FilterIdempotent(raw, IsAllowedColumn);
  }

  /** Every table entry is already whitelisted and free of repeats. */
  lemma ConfiguredColumnsWellFormed(orgId: string)
    ensures forall i :: 0 <= i < |RawColumns(orgId)| ==> RawColumns(orgId)[i] in AllowedColumns
    ensures NoDuplicates(RawColumns(orgId))
  {
  }

  /** `get_org_columns`: the organisation's configured columns restricted to
      the whitelist. Because every table entry is whitelisted, the result is
      the table entry itself, in its configured order. */
  function GetOrgColumns(orgId: string): (cols: seq<string>)
    ensures forall i :: 0 <= i < |cols| ==> cols[i] in AllowedColumns
    ensures "org_id" !in cols
    ensures IsSubsequence(cols, RawColumns(orgId))
    ensures NoDuplicates(cols)
    ensures orgId in OrgColumnConfig ==> cols == OrgColumnConfig[orgId]
    ensures orgId !in OrgColumnConfig ==> cols == ["id", "name", "email", "department", "location", "position"]
  {
    ConfiguredColumnsWellFormed(orgId);
    FilterAllPass(RawColumns(orgId), IsAllowedColumn);
    FilterAllowed(RawColumns(orgId))
  }

  /** The two configured organisations and an unknown one. */
  lemma KnownOrganisationColumns()
    ensures GetOrgColumns("org_a") == ["name", "email", "department", "location"]
    ensures GetOrgColumns("org_b") == ["name", "department", "position"]
    ensures GetOrgColumns("unknown_org") == ["id", "name", "email", "department", "location", "position"]
  {
    assert "org_a" in OrgColumnConfig && "org_b" in OrgColumnConfig;
    assert "unknown_org" !in OrgColumnConfig.Keys by {
      assert OrgColumnConfig.Keys == {"org_a", "org_b", DefaultOrg};
      assert "unknown_org"[0] != "org_a"[0];
      assert "unknown_org"[0] != DefaultOrg[0];
    }
  }
}
