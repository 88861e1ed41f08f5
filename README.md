# Recruitment store data-access layer, modelled in Dafny

`db.py` is the data-access layer of a recruitment application. It reads and
writes four tables of a hosted Postgres store: `users_re26`,
`candidates_re26`, `checklists_re26` (one evaluation checklist per candidate)
and `technical_skills_re26` (the skills recorded on a checklist). Each
function catches every exception and returns a falsy value instead (`None`,
`{}` or `False`).

The model has five modules:

- `Rows` (rows.dfy): column values, rows and Python truthiness. It also holds
  the defaulted checklist record and the user record that the writers send.
- `Skills` (skills.dfy): what happens to skill rows.
  - the filter and list comprehension that save_checklist applies to the
    submitted skills;
  - the per-register select and delete on the skills table;
  - the projection to `{technology, skill_level}`;
  - the grouping that get_all_checklists builds.
- `Tables` (tables.dfy): the store's state and the requests it receives.
  - `Snapshot` holds users, candidates and checklists as maps keyed on their
    primary key, and the skills as a sequence in store order.
  - `Request` is one request sent to the store. `Fault` says which request
    of an operation raises.
  - It states the store's constraints: primary keys, the composite key
    `(register_id, technology)` of the skills table, and the reference from a
    checklist to its candidate.
  - Specification functions give the effect of save_checklist and
    init_default_user on the tables.
- `ChecklistLaws` (laws.dfy): these hold for every input.
  - save_checklist is a full replace of the id's skills and an upsert of its
    row, and it touches no other id.
  - save_checklist preserves the store's constraints.
  - Saving and then reading gives back what was saved.
  - Which bootstrap runs create the administrator.
- `Facade` (store.dfy): class `Store`, whose four tables are fields. It has
  one method per function of `db.py`. Class `ChecklistData` is the caller's
  dict, which save_checklist pops `technical_skills` from.

Transport failures are a parameter. `Fault.FailsAt(n)` makes the n-th store
request of the call raise. That request takes no effect, and the method
returns the function's falsy value, as the `except` branches do. Every
method also returns `sent`, the requests it issued, in order. This is how
two facts are stated: get_checklist sends nothing to the skills table when
there is no checklist row, and get_all_checklists issues exactly two bulk
selects.

A write the store's constraints reject raises inside the function, just as
a transport failure does:

- inserting a duplicate or missing primary key;
- inserting a checklist for a register id with no candidate;
- inserting a skill batch that repeats a technology.

The model also refuses, in the same way, an update that would change a
row's key. This refusal is the model's own; see "Left out".

## Model

| member | source | states |
|---|---|---|
| Rows.ChecklistRecord | db.py:185-196 | The record's columns are exactly `register_id` and the nine evaluation fields. `register_id` is the given id. Each field is the data's value, or `''` when the key is missing. No other key of the data reaches the record. |
| Rows.UserRecord | db.py:38-47 | The inserted user has exactly the eight columns `user_id`, `passcode`, `role`, `name`, `last_login`, `ip_address`, `location` and `isp`. The first four hold the given values; the last four are NULL. |
| Rows.Truthy | db.py:219 | Python truthiness of a column value: NULL, `''`, `0` and false are falsy. Used by `Skills.Kept`. |
| Rows.Defaulted | db.py:185-196 | The defaulted columns are exactly the listed fields, each holding the data's value or `''` when the data lacks it. |
| Skills.Kept | db.py:219 | The kept skills are the submitted skills with a truthy `technology`, all of them and only those. |
| Skills.KeptCounts | db.py:219 | Each skill with a truthy technology is kept as many times as it was submitted; every other skill is dropped. |
| Skills.KeptAppend | db.py:219 | The filter distributes over concatenation, so the kept skills are in submission order. |
| Skills.SkillsToInsert | db.py:212-220 | The build fails exactly when a kept skill has no `skill_level`, which raises a KeyError. Otherwise there is one row per kept skill, in order, with its technology and level, tagged with the register id. |
| Skills.MissingLevelCons | db.py:212-220 | A batch holds a kept skill without `skill_level` exactly when its first skill is one or the rest holds one. |
| Skills.Project | db.py:132-135 | The `{technology, skill_level}` projection of skill rows, one entry per row in order. `Skills.ProjectAppend` states that it distributes over concatenation. |
| Skills.GroupByRegister | db.py:153-161 | The grouping loop's dict as a function of the rows seen. `Skills.GroupByRegisterSpec` states what it holds. |
| Skills.RowsFor | db.py:131 | A per-register select returns only rows of that id, and all of them. |
| Skills.RowsOutside | db.py:209 | A per-register delete leaves every row of every other id, and no row of this id. |
| Skills.RowsForOutside | db.py:209 | Deleting one id's rows does not change the selection for any other id. |
| Skills.RowsForTagged | db.py:213-222 | A batch tagged with one id is selected whole by that id, and not at all by any other id. |
| Skills.GroupByRegisterKeys | db.py:153-161 | The grouping holds an id exactly when some skill row carries that id. |
| Skills.SkillsOfSnoc | db.py:153-161 | One more row adds its projection to its own id's group and leaves every other group as it was. |
| Skills.GroupByRegisterSpec | db.py:153-161 | The grouping holds an id exactly when some skill row carries it. Its group, or `[]` without one, is the same in-order projection that get_checklist's per-id select gives. |
| Tables.Fault.From | db.py:232-234 | A nested call sees the fault shifted by the requests already sent, so its request i fails exactly when the outer request i + k does. |
| Tables.InsertRow | db.py:102 | The insert succeeds exactly when the key is present, holds text and is not taken. The new table is the old one plus that row, and the table stays keyed by its column. |
| Tables.UpdateRow | db.py:112 | The update is rejected exactly when it would change the row's key. The key set is kept and other rows are unchanged. The updated row has the given fields and keeps its other fields. An id with no row is a successful no-op. |
| Tables.KeyBy | db.py:26-28 | The dict the keying loops build, a later row replacing an earlier one. `Tables.KeyByListing` states that keying a listing gives back the table. |
| Tables.KeyByListing | db.py:26-28 | Keying a full listing of a keyed table on its key column gives back the table, whatever order the listing is in. |
| Tables.Reinsert | db.py:211-224 | The skill insert changes only the skills table. On success those are the purged rows followed by the batch. On failure nothing changes. Without a fault it succeeds exactly when the batch can be built and repeats no technology. |
| Tables.ChecklistView | db.py:118-140 | The result of get_checklist when nothing fails: `None` without a row, otherwise the row with the id's projected skills. `ChecklistLaws.SaveThenGet` states what it returns after a save. |
| Tables.AllChecklistsView | db.py:142-173 | The result of get_all_checklists when nothing fails: every checklist keyed on its id with its skills attached. |
| Tables.Save | db.py:175-227 | save_checklist's result, new tables and requests under a fault. The `ChecklistLaws.Save*` lemmas state its properties. |
| Tables.InitDefault | db.py:229-236 | init_default_user as written: true whenever the lookup found no administrator. `ChecklistLaws.InitDefaultReportsFailedCreation` exhibits the discrepancy. |
| Tables.InitDefaultCorrected | db.py:229-236 | The corrected bootstrap, returning create_user's result. `ChecklistLaws.InitDefaultCorrectedReportsCreation` states its meaning. |
| ChecklistLaws.SaveIsFullReplace | db.py:208-222 | After a successful save, the id's skill rows are exactly the kept submitted skills, tagged and in input order. No earlier row of the id survives. |
| ChecklistLaws.SaveIsolatesOtherIds | db.py:203-209 | Whatever the outcome, users and candidates are unchanged. So are every other id's checklist row and skill rows. |
| ChecklistLaws.SaveUpserts | db.py:198-206 | The save sends the lookup first, then an update when the row exists and an insert otherwise. On success the id's row is the defaulted record. Without a fault it succeeds exactly when a row or candidate exists, the batch can be built, and the batch repeats no technology. |
| ChecklistLaws.SaveFailureStates | db.py:199-222 | A failed save leaves the tables in one of three states: as they were, with only the row written, or with the row written and the id's skills deleted. |
| ChecklistLaws.UniqueOutside | db.py:209 | The delete keeps the skills table's composite key unique. |
| ChecklistLaws.UniqueAppendBatch | db.py:222 | Appending a batch with distinct technologies for a purged id keeps the composite key unique. |
| ChecklistLaws.WriteRowConsistent | db.py:198-206 | Writing a checklist row for an id that has a row or a candidate keeps every constraint of the store. |
| ChecklistLaws.SaveSteps | db.py:198-224 | The save stops after the lookup or the write when either fails, after the delete when it fails, and otherwise re-inserts the kept skills over the purged tables. |
| ChecklistLaws.WritePreservesConsistency | db.py:201-209 | Writing the checklist row, and then deleting the id's skills, keeps every constraint of the store. |
| ChecklistLaws.SavePreservesConsistency | db.py:175-227 | Every save, successful or not, keeps every constraint of the store. This includes one checklist row per register id, with exactly the record's columns. |
| ChecklistLaws.SaveThenGet | db.py:118-140 | After a successful save, get_checklist returns the record with the kept skills' `{technology, skill_level}` in input order. |
| ChecklistLaws.ResaveReplaces | db.py:208-222 | A second successful save's skills replace the first's entirely. |
| ChecklistLaws.SaveDropsEmptyTechnology | db.py:219 | A skill with a blank technology is dropped, and the one with a technology is kept. |
| ChecklistLaws.InitDefaultCreatesOnlyWhenAbsent | db.py:229-236 | Without a fault, the bootstrap creates `admin`/`admin123`/`admin`/`Administrator` exactly when no `admin` user exists. It returns true exactly then and otherwise changes nothing. |
| ChecklistLaws.InitDefaultIdempotent | db.py:229-236 | A second bootstrap returns false, sends only the lookup and changes nothing. |
| ChecklistLaws.InitDefaultNeverOverwrites | db.py:229-236 | Under any fault, the bootstrap never alters an existing user and touches no other table. |
| ChecklistLaws.InitDefaultReportsFailedCreation | db.py:232-235 | As written, the bootstrap returns true when the insert fails on an empty store. It also returns true when the lookup fails although `admin` exists. |
| ChecklistLaws.InitDefaultCorrectedReportsCreation | db.py:232-235 | The corrected bootstrap returns true exactly when it created the administrator, under any fault. Without a fault it agrees with the code as written. |
| Facade.ListRows | db.py:25 | A bulk select lists every row of the table and nothing else. |
| Facade.IndexRows | db.py:26-28 | The dict-filling loop builds the keyed map of the rows, a later row replacing an earlier one with the same key. |
| Facade.GroupSkills | db.py:153-161 | The grouping loop builds the grouping of the skill rows, in store order. |
| Facade.AttachSkills | db.py:164-168 | The attaching loop keys each listed checklist on its register id. Each carries its id's group, or `[]`. |
| Facade.Submitted | db.py:181 | The popped `technical_skills` value, `[]` when the key is missing. |
| Facade.ChecklistData.PopTechnicalSkills | db.py:181 | The pop returns the caller's `technical_skills`, or `[]` without one. It removes the entry from the caller's dict and leaves the other keys alone. |
| Facade.Store.GetUser | db.py:9-19 | One filtered select. The result is the user with that id exactly when it exists and the select does not fail, otherwise `None`. |
| Facade.Store.GetAllUsers | db.py:21-32 | One bulk select. The result is the whole users table, keyed on `user_id`, or `{}` on failure. |
| Facade.Store.CreateUser | db.py:34-51 | The insert succeeds exactly when the id is new and nothing fails. Only the users table changes, by that one record. |
| Facade.Store.UpdateUser | db.py:53-61 | Only the given fields of that user change. Other users and other tables are unchanged. The result is false only on a fault or a key change. |
| Facade.Store.DeleteUser | db.py:63-71 | Without a fault the user is gone and the result is true, whether or not the user existed. |
| Facade.Store.GetCandidate | db.py:73-83 | One filtered select. The result is the candidate with that register id exactly when it exists and the select does not fail. |
| Facade.Store.GetAllCandidates | db.py:85-96 | The result is the whole candidates table, keyed on `register_id`, or `{}` on failure. |
| Facade.Store.CreateCandidate | db.py:98-106 | The data is inserted as given exactly when its register id is present, holds text and is new. Only the candidates table changes. |
| Facade.Store.UpdateCandidate | db.py:108-116 | Only the given fields of that candidate change, and nothing else does. |
| Facade.Store.GetChecklist | db.py:118-140 | With no checklist row, or a failed lookup, the only request sent is the lookup and the result is `None`. Otherwise the skills are selected, and the result is the row with the id's projected skills in store order. |
| Facade.AttachedIsView | db.py:153-173 | The checklists keyed on their ids, each with its group of skills or `[]`, are exactly the view `Tables.AllChecklistsView`. |
| Facade.Store.GetAllChecklists | db.py:142-173 | At most the two bulk selects are sent. The result is every checklist keyed on its id, with its skills attached, or `{}` on failure. Skills of ids without a checklist appear nowhere. |
| Facade.Store.SaveChecklist | db.py:175-227 | The result, the new tables and the requests are those of `Tables.Save`. The store stays consistent. The caller's dict has lost `technical_skills` and is otherwise unchanged. |
| Facade.Store.Upsert | db.py:185-224 | The write, the delete and the batch insert leave the result, the tables and the requests of `Tables.Save`. |
| Facade.Store.WriteRow | db.py:185-206 | The lookup, then an update or an insert of the defaulted record. It fails on a fault, or on an insert for a register id without a candidate. |
| Facade.Store.InsertKept | db.py:211-222 | The kept skills are inserted as one batch, with the effect `Tables.Reinsert` states. |
| Facade.Store.InitDefaultUser | db.py:229-239 | The effect of the corrected bootstrap, `Tables.InitDefaultCorrected`, on the tables, the result and the requests. The store stays consistent. |

## Left out

- `supabase_config.py` (client construction and environment loading) and
  `gunicorn_config.py` (server settings) are not part of this model.
- The network transport itself is not modelled. A failure is the `Fault`
  parameter, and the exception text and the `print` logging are left out.
- `created_at`, `updated_at` and `checklist_id` are not modelled. The store
  sets them and `db.py` never does. A stored checklist row is therefore
  exactly the ten columns save_checklist writes.
- Concurrent calls are not modelled. Every operation runs alone from start to
  finish.
- Unknown columns, column types and type coercion by the store are not
  modelled. Any key in `updates` or `candidate_data` is accepted as a column.
- Re-keying a row is not modelled. The model's store refuses an update whose
  `updates` sets the key column to a different value.
- Facade.Store.InitDefaultUser: returns create_user's result, the corrected
  behaviour of the finding below, where the function as written returns
  True after any attempt. With an empty users table and a failing insert the
  function returns True and the method returns false. `Tables.InitDefault`
  models the code as written.
- Tables.UpdateRow: rejects an update that changes the row's key, where the
  real store would move the row to the new key. The result is therefore
  weaker than the store's behaviour for that case.
- Facade.Submitted: a `technical_skills` entry set to Python `None` is
  treated like a missing entry. `if technical_skills:` skips both the same
  way, so the effect is identical.
- The skills table's own reference to the candidates table is not modelled.
  save_checklist only inserts skills after the checklist row exists, and
  that row needs the candidate.
- Non-dict entries in `technical_skills`, and values other than NULL, text,
  integers and booleans, are not modelled.
- ChecklistLaws.InitDefaultCreatesOnlyWhenAbsent and
  ChecklistLaws.InitDefaultIdempotent: stated for a run without faults,
  because a failed lookup reads as "absent" and the bootstrap then tries an
  insert.

## Findings

| source | as written | input that shows it | evidently intended | confidence | as-written member | corrected member |
|---|---|---|---|---|---|---|
| db.py:232-235 | `init_default_user` ignores create_user's result. It returns True whenever get_user returned nothing. | An empty users table and an insert that fails returns True with no admin created. An existing admin and a lookup that fails also returns True, since the insert is a rejected duplicate. | Return create_user's result, so True means the administrator was created. | not executed | ChecklistLaws.InitDefaultReportsFailedCreation | ChecklistLaws.InitDefaultCorrectedReportsCreation |

`Tables.InitDefault` models the function as written.
`Tables.InitDefaultCorrected` is the correction, and `Facade.Store.InitDefaultUser`
implements the correction.
