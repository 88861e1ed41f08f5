/** The four tables of the recruitment store as values, the requests the
    data-access layer sends them, transport faults, and the effect of each
    operation whose result other operations or lemmas reason about. */
module Tables {
  import opened Rows
  import opened Skills

  datatype Table = UsersTable | CandidatesTable | ChecklistsTable | SkillsTable
  {
    /** The table's name in the store. */
    function Name(): string
    {
      match this
      case UsersTable => "users_re26"
      case CandidatesTable => "candidates_re26"
      case ChecklistsTable => "checklists_re26"
      case SkillsTable => "technical_skills_re26"
    }
  }

  datatype Verb = Select | Insert | Update | Delete

  /** One call into the store: the table, the verb, and the id it is
      filtered on with `.eq`, if it is filtered. */
  datatype Request = Request(table: Table, verb: Verb, filter: Option<string>)

  /** Transport behaviour during one operation: every request succeeds, or
      the request with index `n` (counting from 0) raises, takes no effect,
      and the operation's `except` branch returns its falsy value. */
  datatype Fault = Healthy | FailsAt(n: nat)
  {
    predicate Hits(i: nat)
    {
      FailsAt? && n == i
    }

    /** The same fault seen by a nested call whose first request is this
        operation's request `k`. */
    function From(k: nat): (f: Fault)
      ensures forall i: nat :: f.Hits(i) <==> Hits(i + k)
    {
      if FailsAt? && n >= k then FailsAt(n - k) else Healthy
    }
  }

  /** Users and candidates keyed on `user_id` and `register_id`, checklists on
      `register_id`, and the skills table as its rows in store order. */
  datatype Snapshot = Snapshot(
    users: map<string, Row>,
    candidates: map<string, Row>,
    checklists: map<string, Row>,
    skills: seq<SkillRow>)

  /** What an operation returns, the tables afterwards, and the requests it sent. */
  datatype Effect<T> = Effect(result: T, tables: Snapshot, sent: seq<Request>)

  /** Every row carries its own key, as text, in its key column. */
  predicate KeyedBy(table: map<string, Row>, column: string)
  {
    forall k | k in table :: column in table[k] && table[k][column] == Text(k)
  }

  /** The skills table's composite key (register id, technology) is unique. */
  predicate UniqueSkillKeys(skills: seq<SkillRow>)
  {
    forall i, j | 0 <= i < j < |skills| ::
      skills[i].registerId != skills[j].registerId || skills[i].technology != skills[j].technology
  }

  /** No two rows of one batch share a technology. */
  predicate DistinctTechnologies(rows: seq<SkillRow>)
  {
    forall i, j | 0 <= i < j < |rows| :: rows[i].technology != rows[j].technology
  }

  /** The store's constraints: primary keys, the checklist's reference to its
      candidate, and checklist rows holding exactly the columns written. */
  predicate Consistent(t: Snapshot)
  {
    && KeyedBy(t.users, "user_id")
    && KeyedBy(t.candidates, "register_id")
    && KeyedBy(t.checklists, "register_id")
    && (forall k | k in t.checklists :: t.checklists[k].Keys == ChecklistColumns)
    && t.checklists.Keys <= t.candidates.Keys
    && UniqueSkillKeys(t.skills)
  }

  /** `.insert(row)` on a table keyed by `column`: rejected when the key is
      missing, not text, or already present; otherwise the row is added
      under its key and nothing else changes. */
  function InsertRow(table: map<string, Row>, column: string, row: Row): (r: Option<map<string, Row>>)
    ensures r.Some? <==> column in row && row[column].Text? && row[column].s !in table
    ensures r.Some? ==> r.value.Keys == table.Keys + {row[column].s} && r.value[row[column].s] == row
    ensures r.Some? ==> forall k | k in table :: r.value[k] == table[k]
    ensures r.Some? && KeyedBy(table, column) ==> KeyedBy(r.value, column)
  {
    if column in row && row[column].Text? && row[column].s !in table
    then Some(table[row[column].s := row])
    else None
  }

  /** `.update(updates).eq(column, id)`: no row matched leaves the table as it
      is; otherwise only the given fields of that row change. Changing the
      key itself is rejected. */
  function UpdateRow(table: map<string, Row>, column: string, id: string, updates: Row): (r: Option<map<string, Row>>)
    ensures r.None? <==> id in table && column in updates && updates[column] != Text(id)
    ensures r.Some? ==> r.value.Keys == table.Keys
    ensures r.Some? ==> forall k | k in table && k != id :: r.value[k] == table[k]
    ensures r.Some? && id in table ==>
      && (forall f :: f in r.value[id] <==> f in table[id] || f in updates)
      && (forall f | f in updates :: r.value[id][f] == updates[f])
      && (forall f | f in table[id] && f !in updates :: r.value[id][f] == table[id][f])
    ensures r.Some? && KeyedBy(table, column) ==> KeyedBy(r.value, column)
  {
    if id !in table then Some(table)
    else if column in updates && updates[column] != Text(id) then None
    else Some(table[id := table[id] + updates])
  }

  /** The dict the loops of get_all_users and get_all_candidates build:
      each row stored under its key, a later row replacing an earlier one. */
  function KeyBy(rows: seq<Row>, column: string): map<string, Row>
    requires forall i | 0 <= i < |rows| :: column in rows[i] && rows[i][column].Text?
  {
    if rows == [] then map[]
    else
      var last := rows[|rows| - 1];
      KeyBy(rows[..|rows| - 1], column)[KeyOf(last, column) := last]
  }

  /** The response of `select('*')` on a table: each of its rows, and only those. */
  predicate Lists(rows: seq<Row>, table: map<string, Row>)
  {
    && (forall i | 0 <= i < |rows| :: rows[i] in table.Values)
    && (forall k | k in table :: table[k] in rows)
  }

  /** Indexing a listing of a table by its key column gives back the table. */
  lemma {:induction false} KeyByListing(rows: seq<Row>, column: string, table: map<string, Row>)
    requires KeyedBy(table, column) && Lists(rows, table)
    ensures forall i | 0 <= i < |rows| :: column in rows[i] && rows[i][column].Text?
    ensures KeyBy(rows, column) == table
  {
    forall i | 0 <= i < |rows|
      ensures column in rows[i] && rows[i][column].Text? && KeyOf(rows[i], column) in table
      ensures table[KeyOf(rows[i], column)] == rows[i]
    {
      var k :| k in table && rows[i] == table[k];
    }
    KeyByDomain(rows, column);
    forall k | k in table
      ensures k in KeyBy(rows, column)
    {
      var i :| 0 <= i < |rows| && rows[i] == table[k];
      assert KeyOf(rows[i], column) == k;
    }
    forall k | k in KeyBy(rows, column)
      ensures k in table && KeyBy(rows, column)[k] == table[k]
    {
      var i :| 0 <= i < |rows| && KeyOf(rows[i], column) == k && KeyBy(rows, column)[k] == rows[i];
    }
  }

  /** Every key of the index comes from some row, and stands for a row with that key. */
  lemma {:induction false} KeyByDomain(rows: seq<Row>, column: string)
    requires forall i | 0 <= i < |rows| :: column in rows[i] && rows[i][column].Text?
    ensures forall i | 0 <= i < |rows| :: KeyOf(rows[i], column) in KeyBy(rows, column)
    ensures forall k | k in KeyBy(rows, column) ::
      exists i | 0 <= i < |rows| :: KeyOf(rows[i], column) == k && KeyBy(rows, column)[k] == rows[i]
  {
    if rows != [] {
      var prefix := rows[..|rows| - 1];
      KeyByDomain(prefix, column);
      forall k | k in KeyBy(rows, column)
        ensures exists i | 0 <= i < |rows| :: KeyOf(rows[i], column) == k && KeyBy(rows, column)[k] == rows[i]
      {
        if k != KeyOf(rows[|rows| - 1], column) {
          assert k in KeyBy(prefix, column) && KeyBy(rows, column)[k] == KeyBy(prefix, column)[k];
          var i :| 0 <= i < |prefix| && KeyOf(prefix[i], column) == k && KeyBy(prefix, column)[k] == prefix[i];
          assert rows[i] == prefix[i];
        }
      }
      forall i | 0 <= i < |rows| - 1
        ensures KeyOf(rows[i], column) in KeyBy(rows, column)
      {
        assert rows[i] == prefix[i];
      }
    }
  }

  /** What get_checklist returns for an id when no request fails. */
  function ChecklistView(t: Snapshot, registerId: string): Option<Checklist>
  {
    if registerId in t.checklists
    then Some(Checklist(t.checklists[registerId], SkillsOf(t.skills, registerId)))
    else None
  }

  /** What get_all_checklists returns when no request fails. */
  function AllChecklistsView(t: Snapshot): map<string, Checklist>
  {
    map id | id in t.checklists :: Checklist(t.checklists[id], SkillsOf(t.skills, id))
  }

  /** A checklist row with its skills attached under `technical_skills`. */
  datatype Checklist = Checklist(row: Row, technicalSkills: seq<Skill>)

  /** save_checklist: select the row's existence, update it or insert it,
      delete the id's skills, and insert the kept submitted skills. A failure
      stops at the failing step with the earlier steps already applied. */
  function Save(t: Snapshot, registerId: string, fields: Row, submitted: seq<Row>, fault: Fault): Effect<bool>
  {
    var probe := Request(ChecklistsTable, Select, Some(registerId));
    var write := WriteRequest(t, registerId);
    var purge := Request(SkillsTable, Delete, Some(registerId));
    if fault.Hits(0) then Effect(false, t, [probe])
    else if fault.Hits(1) || (registerId !in t.checklists && registerId !in t.candidates) then
      Effect(false, t, [probe, write])
    else if fault.Hits(2) then
      Effect(false, t.(checklists := t.checklists[registerId := ChecklistRecord(registerId, fields)]), [probe, write, purge])
    else
      Reinsert(SavePurged(t, registerId, fields), registerId, submitted, fault, SaveRequests(t, registerId))
  }

  /** The second request of save_checklist: an update of the row when it
      exists, an insert otherwise. */
  function WriteRequest(t: Snapshot, registerId: string): Request
  {
    if registerId in t.checklists then Request(ChecklistsTable, Update, Some(registerId))
    else Request(ChecklistsTable, Insert, None)
  }

  /** The lookup, the row write and the delete that save_checklist sends first. */
  function SaveRequests(t: Snapshot, registerId: string): seq<Request>
  {
    [Request(ChecklistsTable, Select, Some(registerId)), WriteRequest(t, registerId),
     Request(SkillsTable, Delete, Some(registerId))]
  }

  /** save_checklist stops before its delete: the lookup or the row write fails. */
  predicate SaveStops(t: Snapshot, registerId: string, fault: Fault)
  {
    fault.Hits(0) || fault.Hits(1) || fault.Hits(2)
    || (registerId !in t.checklists && registerId !in t.candidates)
  }

  /** The tables after save_checklist's row write and delete. */
  function SavePurged(t: Snapshot, registerId: string, fields: Row): Snapshot
  {
    t.(checklists := t.checklists[registerId := ChecklistRecord(registerId, fields)],
       skills := RowsOutside(t.skills, registerId))
  }

  /** The last step of save_checklist, after the delete: when skills were
      submitted, build the rows to insert and insert them in one request
      (the fourth of the operation). The batch is rejected whole when two of
      its rows share a technology. */
  function Reinsert(purged: Snapshot, registerId: string, submitted: seq<Row>, fault: Fault, sent: seq<Request>): (e: Effect<bool>)
    ensures e.tables.users == purged.users && e.tables.candidates == purged.candidates
    ensures e.tables.checklists == purged.checklists
    ensures e.sent == sent || e.sent == sent + [Request(SkillsTable, Insert, None)]
    ensures e.result ==>
      && SkillsToInsert(registerId, submitted).Some?
      && e.tables.skills == purged.skills + SkillsToInsert(registerId, submitted).value
    ensures !e.result ==> e.tables == purged
    ensures fault == Healthy ==>
      (e.result <==> SkillsToInsert(registerId, submitted).Some? && DistinctTechnologies(SkillsToInsert(registerId, submitted).value))
  {
    if submitted == [] then
      assert SkillsToInsert(registerId, submitted) == Some([]);
      assert purged.skills + [] == purged.skills;
      Effect(true, purged, sent)
    else match SkillsToInsert(registerId, submitted)
      case None => Effect(false, purged, sent)
      case Some(rows) =>
        if rows == [] then
          assert purged.skills + rows == purged.skills;
          Effect(true, purged, sent)
        else
          var add := Request(SkillsTable, Insert, None);
          if fault.Hits(3) || !DistinctTechnologies(rows) then Effect(false, purged, sent + [add])
          else Effect(true, purged.(skills := purged.skills + rows), sent + [add])
  }

  /** The default administrator create_user is asked to insert. */
  function AdminRecord(): Row
  {
    UserRecord("admin", "admin123", "admin", "Administrator")
  }

  /** init_default_user as written: look the administrator up (a failed
      lookup reads as absent), and when absent ask for its creation and
      return true whether or not the insert succeeded. */
  function InitDefault(t: Snapshot, fault: Fault): Effect<bool>
  {
    var probe := Request(UsersTable, Select, Some("admin"));
    if !fault.Hits(0) && "admin" in t.users then Effect(false, t, [probe])
    else
      var created := if fault.Hits(1) then None else InsertRow(t.users, "user_id", AdminRecord());
      var after := if created.Some? then t.(users := created.value) else t;
      Effect(true, after, [probe, Request(UsersTable, Insert, None)])
  }

  /** init_default_user corrected: the same steps, returning create_user's
      own result, so that true means the administrator was created. */
  function InitDefaultCorrected(t: Snapshot, fault: Fault): Effect<bool>
  {
    var probe := Request(UsersTable, Select, Some("admin"));
    if !fault.Hits(0) && "admin" in t.users then Effect(false, t, [probe])
    else
      var created := if fault.Hits(1) then None else InsertRow(t.users, "user_id", AdminRecord());
      var after := if created.Some? then t.(users := created.value) else t;
      Effect(created.Some?, after, [probe, Request(UsersTable, Insert, None)])
  }
}
