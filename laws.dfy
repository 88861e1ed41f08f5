/** What save_checklist and init_default_user promise, stated over their
    effects on the tables. */
module ChecklistLaws {
  import opened Rows
  import opened Skills
  import opened Tables

  /** The four ways a save can end, each with the effect it has. */
  lemma SaveSteps(t: Snapshot, registerId: string, fields: Row, submitted: seq<Row>, fault: Fault)
    ensures var e := Save(t, registerId, fields, submitted, fault);
      var probe := Request(ChecklistsTable, Select, Some(registerId));
      && (fault.Hits(0) ==> e == Effect(false, t, [probe]))
      && (!fault.Hits(0) && (fault.Hits(1) || (registerId !in t.checklists && registerId !in t.candidates)) ==>
            e == Effect(false, t, [probe, WriteRequest(t, registerId)]))
      && (!fault.Hits(0) && !fault.Hits(1) && (registerId in t.checklists || registerId in t.candidates)
          && fault.Hits(2) ==>
            e == Effect(false, t.(checklists := t.checklists[registerId := ChecklistRecord(registerId, fields)]),
                        SaveRequests(t, registerId)))
      && (!SaveStops(t, registerId, fault) ==>
            e == Reinsert(SavePurged(t, registerId, fields), registerId, submitted, fault, SaveRequests(t, registerId)))
  {
  }

  /** A successful save is a full replace: the id's skill rows are exactly
      the submitted skills with a truthy technology, tagged with the id, in
      submission order; none of the earlier rows survive. */
  lemma SaveIsFullReplace(t: Snapshot, registerId: string, fields: Row, submitted: seq<Row>, fault: Fault)
    ensures var e := Save(t, registerId, fields, submitted, fault);
      e.result ==>
        && SkillsToInsert(registerId, submitted).Some?
        && RowsFor(e.tables.skills, registerId) == SkillsToInsert(registerId, submitted).value
  {
    var e := Save(t, registerId, fields, submitted, fault);
    if e.result {
      var rows := SkillsToInsert(registerId, submitted).value;
      var purged := RowsOutside(t.skills, registerId);
      RowsForPurged(t.skills, registerId);
      RowsForTagged(rows, registerId, registerId);
      RowsForAppend(purged, rows, registerId);
      assert purged + [] == purged;
    }
  }

  /** A save, whatever its outcome, leaves users, candidates, every other
      id's checklist row and every other id's skill rows as they were. */
  lemma SaveIsolatesOtherIds(t: Snapshot, registerId: string, fields: Row, submitted: seq<Row>, fault: Fault, other: string)
    requires other != registerId
    ensures var e := Save(t, registerId, fields, submitted, fault);
      && e.tables.users == t.users
      && e.tables.candidates == t.candidates
      && (other in e.tables.checklists <==> other in t.checklists)
      && (other in t.checklists ==> e.tables.checklists[other] == t.checklists[other])
      && RowsFor(e.tables.skills, other) == RowsFor(t.skills, other)
  {
    var e := Save(t, registerId, fields, submitted, fault);
    if !SaveStops(t, registerId, fault) {
      var purged := SavePurged(t, registerId, fields);
      assert e == Reinsert(purged, registerId, submitted, fault, SaveRequests(t, registerId));
      RowsForOutside(t.skills, registerId, other);
      if e.result {
        var rows := SkillsToInsert(registerId, submitted).value;
        RowsForTagged(rows, registerId, other);
        RowsForAppend(purged.skills, rows, other);
        assert RowsFor(purged.skills, other) + [] == RowsFor(purged.skills, other);
      }
    }
  }

  /** A save is an upsert on one row: the first request asks whether the row
      exists, the second updates it when it does and inserts it otherwise,
      and on success the stored row is the defaulted record. With no
      transport failure it succeeds exactly when the row can be written (it
      exists, or its candidate does), no kept skill lacks a level, and the
      kept technologies are distinct. */
  lemma SaveUpserts(t: Snapshot, registerId: string, fields: Row, submitted: seq<Row>, fault: Fault)
    ensures var e := Save(t, registerId, fields, submitted, fault);
      && e.sent[0] == Request(ChecklistsTable, Select, Some(registerId))
      && (!fault.Hits(0) ==>
            && |e.sent| >= 2
            && e.sent[1] == (if registerId in t.checklists then Request(ChecklistsTable, Update, Some(registerId))
                             else Request(ChecklistsTable, Insert, None)))
      && (e.result ==> e.tables.checklists == t.checklists[registerId := ChecklistRecord(registerId, fields)])
      && (fault == Healthy ==>
            (e.result <==>
              && (registerId in t.checklists || registerId in t.candidates)
              && SkillsToInsert(registerId, submitted).Some?
              && DistinctTechnologies(SkillsToInsert(registerId, submitted).value)))
  {
    var e := Save(t, registerId, fields, submitted, fault);
    if !SaveStops(t, registerId, fault) {
      var purged := SavePurged(t, registerId, fields);
      assert e == Reinsert(purged, registerId, submitted, fault, SaveRequests(t, registerId));
    }
  }

  /** A failed save leaves the tables untouched, or (failing after the row
      was written) the row written with the id's skills untouched, or
      (failing after the delete) the row written and the id's skills gone:
      never a partly inserted batch. */
  lemma SaveFailureStates(t: Snapshot, registerId: string, fields: Row, submitted: seq<Row>, fault: Fault)
    ensures var e := Save(t, registerId, fields, submitted, fault);
      var written := t.(checklists := t.checklists[registerId := ChecklistRecord(registerId, fields)]);
      !e.result ==>
        || e.tables == t
        || e.tables == written
        || e.tables == written.(skills := RowsOutside(t.skills, registerId))
  {
  }

  /** Rows drawn from a list with unique keys keep them unique. */
  lemma {:induction false} UniqueOutside(rows: seq<SkillRow>, registerId: string)
    requires UniqueSkillKeys(rows)
    ensures UniqueSkillKeys(RowsOutside(rows, registerId))
  {
    if rows != [] {
      assert UniqueSkillKeys(rows[1..]) by {
        forall i, j | 0 <= i < j < |rows[1..]|
          ensures rows[1..][i].registerId != rows[1..][j].registerId || rows[1..][i].technology != rows[1..][j].technology
        {
          assert rows[1..][i] == rows[i + 1] && rows[1..][j] == rows[j + 1];
        }
      }
      UniqueOutside(rows[1..], registerId);
      var rest := RowsOutside(rows[1..], registerId);
      if rows[0].registerId != registerId {
        forall y | y in rest
          ensures y.registerId != rows[0].registerId || y.technology != rows[0].technology
        {
          var j :| 0 <= j < |rows[1..]| && rows[1..][j] == y;
          assert rows[j + 1] == y;
        }
        UniqueCons(rows[0], rest);
      }
    }
  }

  /** Unique keys of a list with one row in front. */
  lemma UniqueCons(x: SkillRow, rest: seq<SkillRow>)
    requires UniqueSkillKeys(rest)
    requires forall y | y in rest :: y.registerId != x.registerId || y.technology != x.technology
    ensures UniqueSkillKeys([x] + rest)
  {
    var s := [x] + rest;
    forall i, j | 0 <= i < j < |s|
      ensures s[i].registerId != s[j].registerId || s[i].technology != s[j].technology
    {
      if i == 0 {
        assert s[j] in rest;
      } else {
        assert s[i] == rest[i - 1] && s[j] == rest[j - 1];
      }
    }
  }

  /** Appending a batch of one id's rows with distinct technologies to rows
      of other ids keeps the keys unique. */
  lemma UniqueAppendBatch(purged: seq<SkillRow>, rows: seq<SkillRow>, registerId: string)
    requires UniqueSkillKeys(purged)
    requires forall x | x in purged :: x.registerId != registerId
    requires forall i | 0 <= i < |rows| :: rows[i].registerId == registerId
    requires DistinctTechnologies(rows)
    ensures UniqueSkillKeys(purged + rows)
  {
    var s := purged + rows;
    forall i, j | 0 <= i < j < |s|
      ensures s[i].registerId != s[j].registerId || s[i].technology != s[j].technology
    {
      if j < |purged| {
        assert s[i] == purged[i] && s[j] == purged[j];
      } else if i < |purged| {
        assert s[i] in purged && s[j] == rows[j - |purged|];
      } else {
        assert s[i] == rows[i - |purged|] && s[j] == rows[j - |purged|];
      }
    }
  }

  /** Writing the checklist row keeps the store's constraints, when the
      row exists already or its candidate does. */
  lemma WriteRowConsistent(t: Snapshot, registerId: string, fields: Row)
    requires Consistent(t)
    requires registerId in t.checklists || registerId in t.candidates
    ensures Consistent(t.(checklists := t.checklists[registerId := ChecklistRecord(registerId, fields)]))
  {
    var record := ChecklistRecord(registerId, fields);
    var checklists := t.checklists[registerId := record];
    KeyedByUpdate(t.checklists, "register_id", registerId, record);
    ColumnsUpdate(t.checklists, registerId, record, checklists);
    assert checklists.Keys <= t.candidates.Keys;
  }

  /** Storing a row under its own key keeps a table keyed by that column. */
  lemma KeyedByUpdate(table: map<string, Row>, column: string, key: string, row: Row)
    requires KeyedBy(table, column)
    requires column in row && row[column] == Text(key)
    ensures KeyedBy(table[key := row], column)
  {
  }

  /** Storing a row with the checklist columns keeps every row's columns. */
  lemma ColumnsUpdate(table: map<string, Row>, key: string, row: Row, updated: map<string, Row>)
    requires forall k | k in table :: table[k].Keys == ChecklistColumns
    requires row.Keys == ChecklistColumns && updated == table[key := row]
    ensures forall k | k in updated :: updated[k].Keys == ChecklistColumns
  {
  }

  /** Writing the checklist row and then deleting the id's skills keeps the
      store's constraints. */
  lemma WritePreservesConsistency(t: Snapshot, registerId: string, fields: Row)
    requires Consistent(t)
    requires registerId in t.checklists || registerId in t.candidates
    ensures Consistent(t.(checklists := t.checklists[registerId := ChecklistRecord(registerId, fields)]))
    ensures Consistent(SavePurged(t, registerId, fields))
  {
    WriteRowConsistent(t, registerId, fields);
    var written := t.(checklists := t.checklists[registerId := ChecklistRecord(registerId, fields)]);
    UniqueOutside(t.skills, registerId);
    assert SavePurged(t, registerId, fields) == written.(skills := RowsOutside(t.skills, registerId));
  }

  /** A save keeps the store's constraints. */
  lemma SavePreservesConsistency(t: Snapshot, registerId: string, fields: Row, submitted: seq<Row>, fault: Fault)
    requires Consistent(t)
    ensures Consistent(Save(t, registerId, fields, submitted, fault).tables)
  {
    var e := Save(t, registerId, fields, submitted, fault);
    if fault.Hits(0) || fault.Hits(1) || (registerId !in t.checklists && registerId !in t.candidates) {
      assert e.tables == t;
    } else {
      WritePreservesConsistency(t, registerId, fields);
      if !fault.Hits(2) {
        var purged := SavePurged(t, registerId, fields);
        assert e == Reinsert(purged, registerId, submitted, fault, SaveRequests(t, registerId));
        if e.result {
          UniqueAppendBatch(purged.skills, SkillsToInsert(registerId, submitted).value, registerId);
          assert e.tables == purged.(skills := purged.skills + SkillsToInsert(registerId, submitted).value);
        }
      }
    }
  }

  /** Saving then fetching: after a successful save, get_checklist returns
      the defaulted record with exactly the kept skills attached, each with
      its submitted technology and level, in submission order. */
  lemma SaveThenGet(t: Snapshot, registerId: string, fields: Row, submitted: seq<Row>, fault: Fault)
    ensures var e := Save(t, registerId, fields, submitted, fault);
      e.result ==>
        && SkillsToInsert(registerId, submitted).Some?
        && ChecklistView(e.tables, registerId) ==
             Some(Checklist(ChecklistRecord(registerId, fields), Project(SkillsToInsert(registerId, submitted).value)))
        && |ChecklistView(e.tables, registerId).value.technicalSkills| == |Kept(submitted)|
        && forall i | 0 <= i < |Kept(submitted)| ::
             && "skill_level" in Kept(submitted)[i]
             && ChecklistView(e.tables, registerId).value.technicalSkills[i]
                == Skill(Kept(submitted)[i]["technology"], Kept(submitted)[i]["skill_level"])
  {
    SaveIsFullReplace(t, registerId, fields, submitted, fault);
    SaveUpserts(t, registerId, fields, submitted, fault);
  }

  /** Saving twice for one id: the second save's skills replace the first's
      and are not merged with them. */
  lemma ResaveReplaces(t: Snapshot, registerId: string,
                       fields1: Row, submitted1: seq<Row>, fault1: Fault,
                       fields2: Row, submitted2: seq<Row>, fault2: Fault)
    ensures var e1 := Save(t, registerId, fields1, submitted1, fault1);
      var e2 := Save(e1.tables, registerId, fields2, submitted2, fault2);
      e2.result ==>
        && SkillsToInsert(registerId, submitted2).Some?
        && ChecklistView(e2.tables, registerId) ==
             Some(Checklist(ChecklistRecord(registerId, fields2), Project(SkillsToInsert(registerId, submitted2).value)))
  {
    var e1 := Save(t, registerId, fields1, submitted1, fault1);
    SaveThenGet(e1.tables, registerId, fields2, submitted2, fault2);
  }

  /** Of a Go/Intermediate skill and an Expert skill with an empty
      technology, only the first comes back. */
  lemma SaveDropsEmptyTechnology(candidate: Row)
    ensures var t := Snapshot(map[], map["1" := candidate], map[], []);
      var go := map["technology" := Text("Go"), "skill_level" := Text("Intermediate")];
      var blank := map["technology" := Text(""), "skill_level" := Text("Expert")];
      var e := Save(t, "1", map[], [go, blank], Healthy);
      && e.result
      && ChecklistView(e.tables, "1").Some?
      && ChecklistView(e.tables, "1").value.technicalSkills == [Skill(Text("Go"), Text("Intermediate"))]
  {
    var t := Snapshot(map[], map["1" := candidate], map[], []);
    var go: Row := map["technology" := Text("Go"), "skill_level" := Text("Intermediate")];
    var blank: Row := map["technology" := Text(""), "skill_level" := Text("Expert")];
    assert !HasTechnology(blank);
    assert HasTechnology(go) && "skill_level" in go;
    assert [go, blank][1..] == [blank];
    assert [blank][1..] == [];
    assert SkillsToInsert("1", [blank]) == Some([]);
    assert SkillsToInsert("1", [go, blank]).value == [SkillRow("1", Text("Go"), Text("Intermediate"))];
    SaveThenGet(t, "1", map[], [go, blank], Healthy);
  }

  /** With no transport failure, init_default_user creates the administrator
      exactly when none exists, returns true exactly then, and otherwise
      changes nothing. */
  lemma InitDefaultCreatesOnlyWhenAbsent(t: Snapshot)
    ensures var e := InitDefaultCorrected(t, Healthy);
      && (e.result <==> "admin" !in t.users)
      && (e.result ==> e.tables == t.(users := t.users["admin" := AdminRecord()]))
      && (!e.result ==> e.tables == t)
  {
  }

  /** init_default_user is idempotent: a second call reports no creation,
      sends only the lookup, and changes nothing. */
  lemma InitDefaultIdempotent(t: Snapshot)
    ensures var e1 := InitDefaultCorrected(t, Healthy);
      var e2 := InitDefaultCorrected(e1.tables, Healthy);
      && !e2.result
      && e2.tables == e1.tables
      && e2.sent == [Request(UsersTable, Select, Some("admin"))]
  {
    InitDefaultCreatesOnlyWhenAbsent(t);
  }

  /** Whatever fails, init_default_user never alters an existing user and
      touches no other table. */
  lemma InitDefaultNeverOverwrites(t: Snapshot, fault: Fault)
    ensures var e := InitDefaultCorrected(t, fault);
      && e.tables.candidates == t.candidates
      && e.tables.checklists == t.checklists
      && e.tables.skills == t.skills
      && e.tables.users.Keys <= t.users.Keys + {"admin"}
      && forall k | k in t.users :: k in e.tables.users && e.tables.users[k] == t.users[k]
  {
  }

  /** As written, init_default_user reports a creation that did not happen:
      when the insert fails, and when the lookup fails although the
      administrator exists (the insert is then a duplicate). */
  lemma InitDefaultReportsFailedCreation(admin: Row)
    ensures var empty := Snapshot(map[], map[], map[], []);
      var e := InitDefault(empty, FailsAt(1));
      e.result && "admin" !in e.tables.users
    ensures var present := Snapshot(map["admin" := admin], map[], map[], []);
      var e := InitDefault(present, FailsAt(0));
      e.result && e.tables == present
  {
  }

  /** The corrected init_default_user returns true exactly when it created
      the administrator, and agrees with the written one when nothing fails. */
  lemma InitDefaultCorrectedReportsCreation(t: Snapshot, fault: Fault)
    ensures var e := InitDefaultCorrected(t, fault);
      && (e.result <==> "admin" !in t.users && "admin" in e.tables.users)
      && (e.result ==> e.tables.users == t.users["admin" := AdminRecord()])
    ensures fault == Healthy ==> InitDefaultCorrected(t, fault) == InitDefault(t, fault)
  {
  }
}
