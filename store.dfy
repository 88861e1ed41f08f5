/** The data-access layer of db.py: a store object whose fields are the four
    tables, one method per function of the module. Each method returns what
    the function returns, except InitDefaultUser, which returns the corrected
    result, and the requests it sent; a transport fault makes the failing
    request raise, which the method turns into its falsy value. */
module Facade {
  import opened Rows
  import opened Skills
  import opened Tables
  import opened ChecklistLaws

  /** The rows a `select('*')` returns: every row of the table once, in
      whatever order the store lists them. */
  method ListRows(table: map<string, Row>) returns (rows: seq<Row>)
    ensures Lists(rows, table)
  {
    rows := [];
    var left := table.Keys;
    while left != {}
      invariant left <= table.Keys
      invariant forall i | 0 <= i < |rows| :: rows[i] in table.Values
      invariant forall k | k in table && k !in left :: table[k] in rows
      decreases left
    {
      var k :| k in left;
      rows := rows + [table[k]];
      left := left - {k};
    }
  }

  /** The loop of get_all_users and get_all_candidates: each listed row is
      stored in a dict under the value of its key column. */
  method IndexRows(rows: seq<Row>, column: string) returns (index: map<string, Row>)
    requires forall i | 0 <= i < |rows| :: column in rows[i] && rows[i][column].Text?
    ensures index == KeyBy(rows, column)
  {
    index := map[];
    for i := 0 to |rows|
      invariant index == KeyBy(rows[..i], column)
    {
      assert rows[..i + 1][..i] == rows[..i];
      index := index[KeyOf(rows[i], column) := rows[i]];
    }
    assert rows[..|rows|] == rows;
  }

  /** get_all_checklists' first loop: each skill row appended to the group
      of its register id. */
  method GroupSkills(rows: seq<SkillRow>) returns (byRegister: map<string, seq<Skill>>)
    ensures byRegister == GroupByRegister(rows)
  {
    byRegister := map[];
    for i := 0 to |rows|
      invariant byRegister == GroupByRegister(rows[..i])
    {
      assert rows[..i + 1][..i] == rows[..i];
      var registerId := rows[i].registerId;
      if registerId !in byRegister {
        byRegister := byRegister[registerId := []];
      }
      byRegister := byRegister[registerId := byRegister[registerId] + [Skill(rows[i].technology, rows[i].skillLevel)]];
    }
    assert rows[..|rows|] == rows;
  }

  /** get_all_checklists' second loop: each listed checklist stored under its
      register id with its group, or `[]`, attached. */
  method AttachSkills(listed: seq<Row>, byRegister: map<string, seq<Skill>>) returns (all: map<string, Checklist>)
    requires forall i | 0 <= i < |listed| :: "register_id" in listed[i] && listed[i]["register_id"].Text?
    ensures all.Keys == KeyBy(listed, "register_id").Keys
    ensures forall k | k in all :: all[k] == Checklist(KeyBy(listed, "register_id")[k], GroupOf(byRegister, k))
  {
    all := map[];
    for j := 0 to |listed|
      invariant all.Keys == KeyBy(listed[..j], "register_id").Keys
      invariant forall k | k in all :: all[k] == Checklist(KeyBy(listed[..j], "register_id")[k], GroupOf(byRegister, k))
    {
      assert listed[..j + 1][..j] == listed[..j];
      var registerId := KeyOf(listed[j], "register_id");
      all := all[registerId := Checklist(listed[j], GroupOf(byRegister, registerId))];
    }
    assert listed[..|listed|] == listed;
  }

  /** What the two loops of get_all_checklists build from a listing of a
      consistent store is the view of all its checklists. */
  lemma AttachedIsView(t: Snapshot, listed: seq<Row>, byRegister: map<string, seq<Skill>>, all: map<string, Checklist>)
    requires forall i | 0 <= i < |listed| :: "register_id" in listed[i] && listed[i]["register_id"].Text?
    requires KeyBy(listed, "register_id") == t.checklists
    requires byRegister == GroupByRegister(t.skills)
    requires all.Keys == KeyBy(listed, "register_id").Keys
    requires forall k | k in all :: all[k] == Checklist(KeyBy(listed, "register_id")[k], GroupOf(byRegister, k))
    ensures all == AllChecklistsView(t)
  {
    forall k | k in t.checklists
      ensures all[k] == Checklist(t.checklists[k], SkillsOf(t.skills, k))
    {
      GroupByRegisterSpec(t.skills, k);
    }
  }

  /** `technical_skills` as popped with default `[]`; a missing key is `None`. */
  function Submitted(technicalSkills: Option<seq<Row>>): seq<Row>
  {
    if technicalSkills.Some? then technicalSkills.value else []
  }

  /** The caller's `checklist_data` dict: its `technical_skills` entry, if
      any, and every other key. */
  class ChecklistData {
    var fields: Row
    var technicalSkills: Option<seq<Row>>

    constructor (fields: Row, technicalSkills: Option<seq<Row>>)
      requires "technical_skills" !in fields
      ensures this.fields == fields && this.technicalSkills == technicalSkills
    {
      this.fields := fields;
      this.technicalSkills := technicalSkills;
    }

    /** `pop('technical_skills', [])`: the entry, or `[]`, removed from the dict. */
    method PopTechnicalSkills() returns (skills: seq<Row>)
      modifies this
      ensures skills == Submitted(old(technicalSkills))
      ensures technicalSkills == None && fields == old(fields)
    {
      skills := Submitted(technicalSkills);
      technicalSkills := None;
    }
  }

  class Store {
    var users: map<string, Row>
    var candidates: map<string, Row>
    var checklists: map<string, Row>
    var skills: seq<SkillRow>

    function State(): Snapshot
      reads this
    {
      Snapshot(users, candidates, checklists, skills)
    }

    predicate Valid()
      reads this
    {
      Consistent(State())
    }

    /** An empty store. */
    constructor ()
      ensures Valid() && State() == Snapshot(map[], map[], map[], [])
    {
      users, candidates, checklists, skills := map[], map[], map[], [];
    }

    /** get_user: the user with that id, or `None` when there is none or the
        lookup fails. */
    method GetUser(userId: string, fault: Fault) returns (user: Option<Row>, sent: seq<Request>)
      requires Valid()
      ensures sent == [Request(UsersTable, Select, Some(userId))]
      ensures user.Some? <==> !fault.Hits(0) && userId in users
      ensures user.Some? ==> user.value == users[userId] && user.value["user_id"] == Text(userId)
    {
      sent := [Request(UsersTable, Select, Some(userId))];
      if fault.Hits(0) {
        return None, sent;
      }
      user := if userId in users then Some(users[userId]) else None;
    }

    /** get_all_users: every user keyed on its `user_id`; `{}` when the select fails. */
    method GetAllUsers(fault: Fault) returns (all: map<string, Row>, sent: seq<Request>)
      requires Valid()
      ensures sent == [Request(UsersTable, Select, None)]
      ensures all == if fault.Hits(0) then map[] else users
      ensures forall k | k in all :: all[k]["user_id"] == Text(k)
    {
      sent := [Request(UsersTable, Select, None)];
      if fault.Hits(0) {
        return map[], sent;
      }
      var rows := ListRows(users);
      KeyByListing(rows, "user_id", users);
      all := IndexRows(rows, "user_id");
    }

    /** create_user: insert the user with its login-tracking columns NULL;
        false when the id is taken or the insert fails. */
    method CreateUser(userId: string, passcode: string, role: string, name: string, fault: Fault)
      returns (ok: bool, sent: seq<Request>)
      requires Valid()
      modifies this
      ensures Valid()
      ensures sent == [Request(UsersTable, Insert, None)]
      ensures ok <==> !fault.Hits(0) && userId !in old(users)
      ensures users == if ok then old(users)[userId := UserRecord(userId, passcode, role, name)] else old(users)
      ensures candidates == old(candidates) && checklists == old(checklists) && skills == old(skills)
    {
      sent := [Request(UsersTable, Insert, None)];
      if fault.Hits(0) {
        return false, sent;
      }
      match InsertRow(users, "user_id", UserRecord(userId, passcode, role, name))
      case None =>
        ok := false;
      case Some(table) =>
        users := table;
        ok := true;
    }

    /** update_user: only the given fields of that user change; an id with
        no user is a successful no-op. */
    method UpdateUser(userId: string, updates: Row, fault: Fault) returns (ok: bool, sent: seq<Request>)
      requires Valid()
      modifies this
      ensures Valid()
      ensures sent == [Request(UsersTable, Update, Some(userId))]
      ensures ok <==> !fault.Hits(0) && UpdateRow(old(users), "user_id", userId, updates).Some?
      ensures users == if ok then UpdateRow(old(users), "user_id", userId, updates).value else old(users)
      ensures candidates == old(candidates) && checklists == old(checklists) && skills == old(skills)
    {
      sent := [Request(UsersTable, Update, Some(userId))];
      if fault.Hits(0) {
        return false, sent;
      }
      match UpdateRow(users, "user_id", userId, updates)
      case None =>
        ok := false;
      case Some(table) =>
        users := table;
        ok := true;
    }

    /** delete_user: the user is gone, whether or not it existed. */
    method DeleteUser(userId: string, fault: Fault) returns (ok: bool, sent: seq<Request>)
      requires Valid()
      modifies this
      ensures Valid()
      ensures sent == [Request(UsersTable, Delete, Some(userId))]
      ensures ok <==> !fault.Hits(0)
      ensures users == if ok then old(users) - {userId} else old(users)
      ensures candidates == old(candidates) && checklists == old(checklists) && skills == old(skills)
    {
      sent := [Request(UsersTable, Delete, Some(userId))];
      if fault.Hits(0) {
        return false, sent;
      }
      users := users - {userId};
      ok := true;
    }

    /** get_candidate: the candidate with that register id, or `None`. */
    method GetCandidate(registerId: string, fault: Fault) returns (candidate: Option<Row>, sent: seq<Request>)
      requires Valid()
      ensures sent == [Request(CandidatesTable, Select, Some(registerId))]
      ensures candidate.Some? <==> !fault.Hits(0) && registerId in candidates
      ensures candidate.Some? ==>
        candidate.value == candidates[registerId] && candidate.value["register_id"] == Text(registerId)
    {
      sent := [Request(CandidatesTable, Select, Some(registerId))];
      if fault.Hits(0) {
        return None, sent;
      }
      candidate := if registerId in candidates then Some(candidates[registerId]) else None;
    }

    /** get_all_candidates: every candidate keyed on its `register_id`. */
    method GetAllCandidates(fault: Fault) returns (all: map<string, Row>, sent: seq<Request>)
      requires Valid()
      ensures sent == [Request(CandidatesTable, Select, None)]
      ensures all == if fault.Hits(0) then map[] else candidates
      ensures forall k | k in all :: all[k]["register_id"] == Text(k)
    {
      sent := [Request(CandidatesTable, Select, None)];
      if fault.Hits(0) {
        return map[], sent;
      }
      var rows := ListRows(candidates);
      KeyByListing(rows, "register_id", candidates);
      all := IndexRows(rows, "register_id");
    }

    /** create_candidate: insert the fields as given; false when the register
        id is missing, not text, taken, or the insert fails. */
    method CreateCandidate(candidateData: Row, fault: Fault) returns (ok: bool, sent: seq<Request>)
      requires Valid()
      modifies this
      ensures Valid()
      ensures sent == [Request(CandidatesTable, Insert, None)]
      ensures ok <==> !fault.Hits(0) && InsertRow(old(candidates), "register_id", candidateData).Some?
      ensures candidates == if ok then InsertRow(old(candidates), "register_id", candidateData).value else old(candidates)
      ensures users == old(users) && checklists == old(checklists) && skills == old(skills)
    {
      sent := [Request(CandidatesTable, Insert, None)];
      if fault.Hits(0) {
        return false, sent;
      }
      match InsertRow(candidates, "register_id", candidateData)
      case None =>
        ok := false;
      case Some(table) =>
        candidates := table;
        ok := true;
    }

    /** update_candidate: only the given fields of that candidate change. */
    method UpdateCandidate(registerId: string, updates: Row, fault: Fault) returns (ok: bool, sent: seq<Request>)
      requires Valid()
      modifies this
      ensures Valid()
      ensures sent == [Request(CandidatesTable, Update, Some(registerId))]
      ensures ok <==> !fault.Hits(0) && UpdateRow(old(candidates), "register_id", registerId, updates).Some?
      ensures candidates ==
        if ok then UpdateRow(old(candidates), "register_id", registerId, updates).value else old(candidates)
      ensures users == old(users) && checklists == old(checklists) && skills == old(skills)
    {
      sent := [Request(CandidatesTable, Update, Some(registerId))];
      if fault.Hits(0) {
        return false, sent;
      }
      match UpdateRow(candidates, "register_id", registerId, updates)
      case None =>
        ok := false;
      case Some(table) =>
        candidates := table;
        ok := true;
    }

    /** get_checklist: the checklist row with its skills attached. Without a
        row it returns `None` having sent no request to the skills table. */
    method GetChecklist(registerId: string, fault: Fault) returns (checklist: Option<Checklist>, sent: seq<Request>)
      requires Valid()
      ensures sent ==
        if fault.Hits(0) || registerId !in checklists then [Request(ChecklistsTable, Select, Some(registerId))]
        else [Request(ChecklistsTable, Select, Some(registerId)), Request(SkillsTable, Select, Some(registerId))]
      ensures checklist == if fault.Hits(0) || fault.Hits(1) then None else ChecklistView(State(), registerId)
    {
      sent := [Request(ChecklistsTable, Select, Some(registerId))];
      if fault.Hits(0) || registerId !in checklists {
        return None, sent;
      }
      var row := checklists[registerId];
      sent := sent + [Request(SkillsTable, Select, Some(registerId))];
      if fault.Hits(1) {
        return None, sent;
      }
      var found := RowsFor(skills, registerId);
      checklist := Some(Checklist(row, Project(found)));
    }

    /** get_all_checklists: two bulk selects, the skills grouped by register
        id, and each checklist keyed on its register id with its group, or
        `[]`, attached. Skills of an id without a checklist appear nowhere. */
    method GetAllChecklists(fault: Fault) returns (all: map<string, Checklist>, sent: seq<Request>)
      requires Valid()
      ensures sent ==
        if fault.Hits(0) then [Request(ChecklistsTable, Select, None)]
        else [Request(ChecklistsTable, Select, None), Request(SkillsTable, Select, None)]
      ensures all == if fault.Hits(0) || fault.Hits(1) then map[] else AllChecklistsView(State())
    {
      sent := [Request(ChecklistsTable, Select, None)];
      if fault.Hits(0) {
        return map[], sent;
      }
      var listed := ListRows(checklists);
      sent := sent + [Request(SkillsTable, Select, None)];
      if fault.Hits(1) {
        return map[], sent;
      }
      var byRegister := GroupSkills(skills);
      KeyByListing(listed, "register_id", checklists);
      all := AttachSkills(listed, byRegister);
      AttachedIsView(State(), listed, byRegister, all);
    }

    /** save_checklist, step by step: pop the skills from the caller's dict,
        build the defaulted record, look the row up, update or insert it,
        delete the id's skills, and insert the kept ones. */
    method SaveChecklist(registerId: string, checklistData: ChecklistData, fault: Fault)
      returns (ok: bool, sent: seq<Request>)
      requires Valid()
      modifies this, checklistData
      ensures Valid()
      ensures checklistData.fields == old(checklistData.fields) && checklistData.technicalSkills == None
      ensures var e := Save(old(State()), registerId, old(checklistData.fields),
                            Submitted(old(checklistData.technicalSkills)), fault);
        ok == e.result && State() == e.tables && sent == e.sent
    {
      var submitted := checklistData.PopTechnicalSkills();
      SavePreservesConsistency(State(), registerId, checklistData.fields, submitted, fault);
      ok, sent := Upsert(registerId, checklistData.fields, submitted, fault);
    }

    /** save_checklist after the pop: write the defaulted row, delete the id's
        skills and insert the kept ones. */
    method Upsert(registerId: string, fields: Row, submitted: seq<Row>, fault: Fault)
      returns (ok: bool, sent: seq<Request>)
      modifies this
      ensures var e := Save(old(State()), registerId, fields, submitted, fault);
        ok == e.result && State() == e.tables && sent == e.sent
    {
      ghost var t := State();
      SaveSteps(t, registerId, fields, submitted, fault);
      ok, sent := WriteRow(registerId, fields, fault);
      if !ok {
        return;
      }
      sent := sent + [Request(SkillsTable, Delete, Some(registerId))];
      if fault.Hits(2) {
        return false, sent;
      }
      skills := RowsOutside(skills, registerId);
      assert users == t.users && candidates == t.candidates;
      assert checklists == t.checklists[registerId := ChecklistRecord(registerId, fields)];
      assert State() == SavePurged(t, registerId, fields);
      assert sent == SaveRequests(t, registerId);
      ok, sent := InsertKept(registerId, submitted, fault, sent);
    }

    /** The start of save_checklist: build the record, look the row up, then
        update it when it exists or insert it otherwise. */
    method WriteRow(registerId: string, fields: Row, fault: Fault) returns (ok: bool, sent: seq<Request>)
      modifies this
      ensures sent ==
        if fault.Hits(0) then [Request(ChecklistsTable, Select, Some(registerId))]
        else [Request(ChecklistsTable, Select, Some(registerId)), WriteRequest(old(State()), registerId)]
      ensures ok <==> !fault.Hits(0) && !fault.Hits(1) && (registerId in old(checklists) || registerId in old(candidates))
      ensures State() ==
        if ok then old(State()).(checklists := old(checklists)[registerId := ChecklistRecord(registerId, fields)])
        else old(State())
    {
      var record := ChecklistRecord(registerId, fields);
      sent := [Request(ChecklistsTable, Select, Some(registerId))];
      if fault.Hits(0) {
        return false, sent;
      }
      if registerId in checklists {
        sent := sent + [Request(ChecklistsTable, Update, Some(registerId))];
        if fault.Hits(1) {
          return false, sent;
        }
      } else {
        sent := sent + [Request(ChecklistsTable, Insert, None)];
        // The row's reference to its candidate rejects an insert without one.
        if fault.Hits(1) || registerId !in candidates {
          return false, sent;
        }
      }
      checklists := checklists[registerId := record];
      ok := true;
    }

    /** The end of save_checklist, after the delete: insert the kept skills,
        if any, as one batch. */
    method InsertKept(registerId: string, submitted: seq<Row>, fault: Fault, before: seq<Request>)
      returns (ok: bool, sent: seq<Request>)
      modifies this
      ensures var e := Reinsert(old(State()), registerId, submitted, fault, before);
        ok == e.result && State() == e.tables && sent == e.sent
    {
      sent := before;
      if submitted != [] {
        var toInsert := SkillsToInsert(registerId, submitted);
        if toInsert.None? {
          return false, sent;
        }
        var rows := toInsert.value;
        if rows != [] {
          sent := sent + [Request(SkillsTable, Insert, None)];
          // The composite key (register id, technology) rejects the whole batch on a repeat.
          if fault.Hits(3) || !DistinctTechnologies(rows) {
            return false, sent;
          }
          skills := skills + rows;
        }
      }
      ok := true;
    }

    /** init_default_user: look the administrator up and, when the lookup
        finds none, create it. The result is create_user's own, so true
        means the administrator was created; the function as written
        returns true for any attempt (see `Tables.InitDefault`). */
    method InitDefaultUser(fault: Fault) returns (created: bool, sent: seq<Request>)
      requires Valid()
      modifies this
      ensures Valid()
      ensures var e := InitDefaultCorrected(old(State()), fault);
        created == e.result && State() == e.tables && sent == e.sent
    {
      var admin, lookup := GetUser("admin", fault.From(0));
      if admin.None? {
        var ok, insert := CreateUser("admin", "admin123", "admin", "Administrator", fault.From(1));
        return ok, lookup + insert;
      }
      return false, lookup;
    }
  }
}
