/** Column values and rows as the recruitment store holds them, the Python
    truthiness the data-access layer tests them with, and the checklist
    record that save_checklist writes. */
module Rows {

  datatype Option<T> = None | Some(value: T)

  /** A scalar column value: SQL NULL (Python None), text, an integer or a boolean. */
  datatype Value = Null | Text(s: string) | Number(n: int) | Flag(b: bool)

  /** A row of a table, or a dict handed to the store: column name to value. */
  type Row = map<string, Value>

  /** Python truthiness of a column value (`if v:`). */
  predicate Truthy(v: Value)
  {
    match v
    case Null => false
    case Text(s) => s != ""
    case Number(n) => n != 0
    case Flag(b) => b
  }

  /** `row.get(key, default)`. */
  function GetOr(row: Row, key: string, default: Value): Value
  {
    if key in row then row[key] else default
  }

  /** The primary-key value of a row whose key column holds text. */
  function KeyOf(row: Row, column: string): string
    requires column in row && row[column].Text?
  {
    row[column].s
  }

  /** The nine free-text evaluation fields of a checklist, in column order. */
  const EvaluationFields: seq<string> :=
    ["practical_experience", "communication_skills", "time_management",
     "leadership_ability", "interviewer_comments", "faculty_comments",
     "interview_taken_by", "reviewed_by", "remarks"]

  /** The columns save_checklist writes: the register id and the nine fields. */
  const ChecklistColumns: set<string> := {"register_id"} + set f | f in EvaluationFields

  /** `{f: data.get(f, '') for f in fields}`. */
  function Defaulted(fields: seq<string>, data: Row): (r: Row)
    ensures r.Keys == set f | f in fields
    ensures forall f | f in fields :: r[f] == GetOr(data, f, Text(""))
  {
    if fields == [] then map[]
    else
      var last := fields[|fields| - 1];
      var rest := Defaulted(fields[..|fields| - 1], data);
      assert forall f :: f in fields <==> f in fields[..|fields| - 1] || f == last;
      rest[last := GetOr(data, last, Text(""))]
  }

  /** The record save_checklist sends to the checklists table: the register id
      and each evaluation field taken from the data, `''` when it is missing.
      Any other key of the data is ignored. */
  function ChecklistRecord(registerId: string, data: Row): (r: Row)
    ensures r.Keys == ChecklistColumns
    ensures r["register_id"] == Text(registerId)
    ensures forall f | f in EvaluationFields :: r[f] == if f in data then data[f] else Text("")
    ensures forall k | k in data && k !in ChecklistColumns :: k !in r
  {
    assert "register_id" !in EvaluationFields;
    Defaulted(EvaluationFields, data)["register_id" := Text(registerId)]
  }

  /** The row create_user inserts: the four given fields, and the four
      login-tracking columns set to NULL. */
  function UserRecord(userId: string, passcode: string, role: string, name: string): (r: Row)
    ensures r.Keys == {"user_id", "passcode", "role", "name", "last_login", "ip_address", "location", "isp"}
    ensures r["user_id"] == Text(userId) && r["passcode"] == Text(passcode)
    ensures r["role"] == Text(role) && r["name"] == Text(name)
    ensures forall c | c in ["last_login", "ip_address", "location", "isp"] :: c in r && r[c] == Null
  {
    map[
      "user_id" := Text(userId),
      "passcode" := Text(passcode),
      "role" := Text(role),
      "name" := Text(name),
      "last_login" := Null,
      "ip_address" := Null,
      "location" := Null,
      "isp" := Null
    ]
  }
}
