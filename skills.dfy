/** Technical-skill rows: the filter save_checklist applies to the submitted
    skills, the rows it inserts, the delete and the per-register select of
    the skills table, and the grouping get_all_checklists builds. */
module Skills {
  import opened Rows

  /** A skill as attached to a checklist: `{technology, skill_level}`. */
  datatype Skill = Skill(technology: Value, skillLevel: Value)

  /** A row of the technical-skills table. */
  datatype SkillRow = SkillRow(registerId: string, technology: Value, skillLevel: Value)

  /** `skill.get('technology')` is truthy. */
  predicate HasTechnology(skill: Row)
  {
    "technology" in skill && Truthy(skill["technology"])
  }

  /** The submitted skills that save_checklist keeps: those with a truthy
      technology, in submission order. */
  function Kept(submitted: seq<Row>): (r: seq<Row>)
    ensures |r| <= |submitted|
    ensures forall i | 0 <= i < |r| :: r[i] in submitted && HasTechnology(r[i])
    ensures forall s | s in submitted && HasTechnology(s) :: s in r
  {
    if submitted == [] then []
    else if HasTechnology(submitted[0]) then [submitted[0]] + Kept(submitted[1..])
    else Kept(submitted[1..])
  }

  /** Each skill with a truthy technology is kept as many times as it was
      submitted, and every other skill not at all. */
  lemma {:induction false} KeptCounts(submitted: seq<Row>)
    ensures forall s :: multiset(Kept(submitted))[s] == if HasTechnology(s) then multiset(submitted)[s] else 0
  {
    if submitted != [] {
      assert submitted == [submitted[0]] + submitted[1..];
      KeptCounts(submitted[1..]);
    }
  }

  /** Filtering distributes over concatenation, so the kept skills keep
      their submission order. */
  lemma {:induction false} KeptAppend(a: seq<Row>, b: seq<Row>)
    ensures Kept(a + b) == Kept(a) + Kept(b)
  {
    if a == [] {
      assert a + b == b;
    } else {
      assert (a + b)[1..] == a[1..] + b;
      KeptAppend(a[1..], b);
    }
  }

  /** A kept skill that `skill['skill_level']` raises on. */
  predicate MissingLevel(skill: Row)
  {
    HasTechnology(skill) && "skill_level" !in skill
  }

  /** `row` is `skill`'s technology and skill level tagged with the register id. */
  predicate Tags(row: SkillRow, registerId: string, skill: Row)
  {
    && "technology" in skill && "skill_level" in skill
    && row == SkillRow(registerId, skill["technology"], skill["skill_level"])
  }

  /** Some skill of a non-empty list misses its level exactly when the first
      one does or some later one does. */
  lemma MissingLevelCons(submitted: seq<Row>)
    requires submitted != []
    ensures (exists s | s in submitted :: MissingLevel(s))
      <==> MissingLevel(submitted[0]) || exists s | s in submitted[1..] :: MissingLevel(s)
  {
    assert forall s :: s in submitted <==> s == submitted[0] || s in submitted[1..];
  }

  /** The list comprehension that builds the rows to insert: for each kept
      skill, its technology and skill level tagged with the register id.
      Reading `skill['skill_level']` of a kept skill that has none raises,
      which is `None` here. */
  function SkillsToInsert(registerId: string, submitted: seq<Row>): (r: Option<seq<SkillRow>>)
    ensures r.None? <==> exists s | s in submitted :: MissingLevel(s)
    ensures r.Some? ==> |r.value| == |Kept(submitted)|
    ensures r.Some? ==> forall i | 0 <= i < |r.value| :: Tags(r.value[i], registerId, Kept(submitted)[i])
  {
    if submitted == [] then Some([])
    else
      var skill := submitted[0];
      MissingLevelCons(submitted);
      if !HasTechnology(skill) then
        assert Kept(submitted) == Kept(submitted[1..]);
        SkillsToInsert(registerId, submitted[1..])
      else if "skill_level" !in skill then
        assert MissingLevel(submitted[0]);
        None
      else match SkillsToInsert(registerId, submitted[1..])
        case None => None
        case Some(rest) =>
          assert Kept(submitted) == [skill] + Kept(submitted[1..]);
          Some([SkillRow(registerId, skill["technology"], skill["skill_level"])] + rest)
  }

  /** `{'technology': ..., 'skill_level': ...}` for each row, in order. */
  function Project(rows: seq<SkillRow>): seq<Skill>
  {
    seq(|rows|, i requires 0 <= i < |rows| => Skill(rows[i].technology, rows[i].skillLevel))
  }

  /** The rows `.eq('register_id', registerId)` selects, in store order. */
  function RowsFor(rows: seq<SkillRow>, registerId: string): (r: seq<SkillRow>)
    ensures |r| <= |rows|
    ensures forall x | x in r :: x in rows && x.registerId == registerId
    ensures forall x | x in rows && x.registerId == registerId :: x in r
  {
    if rows == [] then []
    else if rows[0].registerId == registerId then [rows[0]] + RowsFor(rows[1..], registerId)
    else RowsFor(rows[1..], registerId)
  }

  /** What `.delete().eq('register_id', registerId)` leaves: every other row, in order. */
  function RowsOutside(rows: seq<SkillRow>, registerId: string): (r: seq<SkillRow>)
    ensures |r| <= |rows|
    ensures forall x | x in r :: x in rows && x.registerId != registerId
    ensures forall x | x in rows && x.registerId != registerId :: x in r
  {
    if rows == [] then []
    else if rows[0].registerId != registerId then [rows[0]] + RowsOutside(rows[1..], registerId)
    else RowsOutside(rows[1..], registerId)
  }

  /** The skills get_checklist attaches for one register id. */
  function SkillsOf(rows: seq<SkillRow>, registerId: string): seq<Skill>
  {
    Project(RowsFor(rows, registerId))
  }

  /** `skills_by_register` after get_all_checklists' first loop has seen `rows`:
      each row's projection appended to the group of its register id. */
  function GroupByRegister(rows: seq<SkillRow>): map<string, seq<Skill>>
  {
    if rows == [] then map[]
    else
      var groups := GroupByRegister(rows[..|rows| - 1]);
      var last := rows[|rows| - 1];
      var group := GroupOf(groups, last.registerId);
      groups[last.registerId := group + [Skill(last.technology, last.skillLevel)]]
  }

  /** `skills_by_register.get(register_id, [])`. */
  function GroupOf(groups: map<string, seq<Skill>>, registerId: string): seq<Skill>
  {
    if registerId in groups then groups[registerId] else []
  }

  /** Selecting one register id distributes over concatenation. */
  lemma {:induction false} RowsForAppend(a: seq<SkillRow>, b: seq<SkillRow>, registerId: string)
    ensures RowsFor(a + b, registerId) == RowsFor(a, registerId) + RowsFor(b, registerId)
  {
    if a == [] {
      assert a + b == b;
    } else {
      assert (a + b)[1..] == a[1..] + b;
      RowsForAppend(a[1..], b, registerId);
    }
  }

  /** Deleting one register id's rows leaves every other id's selection as it was. */
  lemma {:induction false} RowsForOutside(rows: seq<SkillRow>, registerId: string, other: string)
    requires other != registerId
    ensures RowsFor(RowsOutside(rows, registerId), other) == RowsFor(rows, other)
  {
    if rows != [] {
      RowsForOutside(rows[1..], registerId, other);
      if rows[0].registerId != registerId {
        assert RowsOutside(rows, registerId) == [rows[0]] + RowsOutside(rows[1..], registerId);
        RowsForAppend([rows[0]], RowsOutside(rows[1..], registerId), other);
      }
    }
  }

  /** After the delete, nothing is left for the deleted id. */
  lemma RowsForPurged(rows: seq<SkillRow>, registerId: string)
    ensures RowsFor(RowsOutside(rows, registerId), registerId) == []
  {
  }

  /** Rows that all carry `registerId` are selected whole by it and not at all by any other id. */
  lemma {:induction false} RowsForTagged(rows: seq<SkillRow>, registerId: string, other: string)
    requires forall i | 0 <= i < |rows| :: rows[i].registerId == registerId
    ensures RowsFor(rows, registerId) == rows
    ensures other != registerId ==> RowsFor(rows, other) == []
  {
    if rows != [] {
      RowsForTagged(rows[1..], registerId, other);
    }
  }

  /** Projecting distributes over concatenation. */
  lemma ProjectAppend(a: seq<SkillRow>, b: seq<SkillRow>)
    ensures Project(a + b) == Project(a) + Project(b)
  {
  }

  /** The grouping holds a register id exactly when some row carries it. */
  lemma {:induction false} GroupByRegisterKeys(rows: seq<SkillRow>, id: string)
    ensures id in GroupByRegister(rows) <==> exists x | x in rows :: x.registerId == id
  {
    if rows != [] {
      var prefix, last := rows[..|rows| - 1], rows[|rows| - 1];
      assert rows == prefix + [last];
      GroupByRegisterKeys(prefix, id);
      if id in GroupByRegister(prefix) {
        var x :| x in prefix && x.registerId == id;
        assert x in rows;
      }
      assert forall x :: x in rows <==> x in prefix || x == last;
    }
  }

  /** Appending one row extends its own id's skills by its projection and
      leaves every other id's skills as they were. */
  lemma SkillsOfSnoc(prefix: seq<SkillRow>, last: SkillRow, id: string)
    ensures SkillsOf(prefix + [last], id) ==
      if last.registerId == id then SkillsOf(prefix, id) + [Skill(last.technology, last.skillLevel)]
      else SkillsOf(prefix, id)
  {
    RowsForAppend(prefix, [last], id);
    if last.registerId == id {
      assert RowsFor([last], id) == [last];
      ProjectAppend(RowsFor(prefix, id), [last]);
    } else {
      assert RowsFor([last], id) == [];
      assert RowsFor(prefix, id) + [] == RowsFor(prefix, id);
    }
  }

  /** get_all_checklists' grouping agrees with get_checklist's per-id select:
      a register id has a group exactly when some row carries it, and its
      group, or `[]` without one, is that id's projected rows in store order. */
  lemma {:induction false} GroupByRegisterSpec(rows: seq<SkillRow>, id: string)
    ensures id in GroupByRegister(rows) <==> exists x | x in rows :: x.registerId == id
    ensures GroupOf(GroupByRegister(rows), id) == SkillsOf(rows, id)
  {
    GroupByRegisterKeys(rows, id);
    if rows != [] {
      var prefix, last := rows[..|rows| - 1], rows[|rows| - 1];
      assert rows == prefix + [last];
      GroupByRegisterSpec(prefix, id);
      SkillsOfSnoc(prefix, last, id);
    }
  }



}
