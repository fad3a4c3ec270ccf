/** The employee record of `app/models/employee.py` and its field dictionary. */
module EmployeeModel {
  import opened Wrappers
  import ColumnConfig

  datatype Employee = Employee(
    id: string,
    orgId: string,
    name: string,
    email: string,
    department: string,
    location: string,
    position: string
  )

  /** The keys of `to_dict`, which are also the table's column names. */
  const FieldNames: set<string> := {"id", "org_id", "name", "email", "department", "location", "position"}

  predicate IsFieldName(c: string) {
    c in FieldNames
  }

  /** `to_dict`: every field under its column name, `org_id` included. */
  function ToDict(e: Employee): (d: map<string, string>)
    ensures d.Keys == FieldNames
    ensures d["id"] == e.id && d["org_id"] == e.orgId && d["name"] == e.name
    ensures d["email"] == e.email && d["department"] == e.department
    ensures d["location"] == e.location && d["position"] == e.position
  {
    map[
      "id" := e.id,
      "org_id" := e.orgId,
      "name" := e.name,
      "email" := e.email,
      "department" := e.department,
      "location" := e.location,
      "position" := e.position
    ]
  }

  /** Building an `Employee` from a result row read by column name; a row
      lacking one of the seven columns yields nothing. */
  function FromRow(row: map<string, string>): (r: Option<Employee>)
    ensures r.Some? <==> FieldNames <= row.Keys
    ensures r.Some? ==> r.value.id == row["id"] && r.value.orgId == row["org_id"]
    ensures r.Some? ==> r.value.name == row["name"] && r.value.email == row["email"]
    ensures r.Some? ==> r.value.department == row["department"] && r.value.location == row["location"]
    ensures r.Some? ==> r.value.position == row["position"]
  {
    if FieldNames <= row.Keys then
      Some(Employee(row["id"], row["org_id"], row["name"], row["email"],
                    row["department"], row["location"], row["position"]))
    else None
  }

  /** Reading back a record's dictionary as a row reproduces the record. */
  lemma FromRowToDict(e: Employee)
    ensures FromRow(ToDict(e)) == Some(e)
  {
  }

  /** A complete row survives the trip through `Employee` and `to_dict`,
      restricted to the seven columns. */
  lemma ToDictFromRow(row: map<string, string>)
    requires FieldNames <= row.Keys
    ensures FromRow(row).Some?
    ensures ToDict(FromRow(row).value) == map c | c in FieldNames :: row[c]
  {
  }

  /** The dictionary holds every whitelisted column, so projecting onto a
      configured column list never drops a column; it also holds `org_id`,
      so exclusion has to come from the column list. */
  lemma ToDictCoversAllowedColumns(e: Employee)
    ensures ColumnConfig.AllowedColumns < ToDict(e).Keys
    ensures "org_id" in ToDict(e) && "org_id" !in ColumnConfig.AllowedColumns
  {
  }
}
