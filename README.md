# MoleculesBuilder merge engine, in Dafny

This project models the merge engine of emmet's QChem `MoleculesBuilder`. That engine turns many
quantum-chemistry task records into one molecule record per group of tasks. The model covers:

- **Property extraction** (`task_to_prop_list`). An ordered list of rules is walked. A rule
  applies when its `quality_score` names the task's type. It fires when its source path also
  exists in the task. Each firing rule yields one candidate property, carrying the rule's score
  for the type, the task's id, type and `last_updated`, and the task's `output.energy`
  (`0.0` when absent).
- **The `allowed_tasks` set and the type filter of `filter_and_group_tasks`.**
- **The ordering key `ID_to_int` and the choice of the molecule id.** The id is the task id
  that sorts first, stably, under that key.
- **Conflict resolution** (`make_mol`):
  - Candidates are grouped by `molecules_key`. Groups come in ascending key order and each
    group keeps its input order.
  - Within a group, candidates are sorted stably and descending by
    `(quality_score, -1.0 * energy)`. The top candidate wins.
  - If the top candidate is aggregated, the winner instead carries every value of its group,
    in that order, and is untracked.
- **Record assembly** (`make_mol`):
  - origins of the tracked winners;
  - the `created_at` and `last_updated` bounds;
  - the de-duplicated `task_ids` and the `task_types` map;
  - the writes of each winner's value at its key.
- **The change set of `get_items`.** It is the formulas of successful tasks that no molecule
  lists, unioned with the formulas of successful tasks updated since the last pass. There is
  one batch of tasks per formula. The pass timestamp and the total are also modelled.
- **The output side.** `valid` requires a `structure`. `update_targets` flattens the item
  lists, keeps the present valid records, stamps each with `_bt` and upserts them by molecule
  id.

The modules follow the structure of the program:

| module | contents |
|---|---|
| `Wrappers` | `Option` and `Result`. |
| `Json` | Task documents as JSON-like values, and dotted-path `get`/`has`. |
| `Ids` | `ID_to_int`, Python's ordering of its keys, and the molecule id. |
| `Extraction` | Rules, tasks, candidates, `task_to_prop_list`, `allowed_tasks` and the type filter. |
| `Resolution` | The ranking, grouping and winners of `make_mol`. |
| `Document` | The molecule record, `make_mol` as a whole, `valid`, the `_bt` stamp and the upsert. |
| `Changes` | The set logic of `get_items`. |
| `Builder` | The class `MoleculesBuilder`. Its methods run the loops of the source and update its fields. Each method's `ensures` ties its result or new state to the functions of the modules above. |

Several external services become parameters:

- **Task classifier.** `task_type` from `emmet.qchem.task_tagger` becomes an uninterpreted
  function `classify`.
- **Settings.** `load_settings` reads a file, so the rule list is a parameter.
- **Task store.** It is a sequence of task records.
- **Molecules store.** It is a map from molecule id to record.
- **User query.** It is a predicate on tasks.
- **Time.** `datetime.utcnow()` becomes the `now` argument of `GetItems`.
- **Last-pass filter.** maggma's `lu_filter` becomes the `lastPass` argument of `GetItems`: a
  task counts as updated when its `last_updated` is greater than `lastPass`.

Errors are values. `make_mol` returns `Result<MoleculeDoc, MolError>` and reports the first
exception the source would raise:

1. an id that `ID_to_int` cannot parse;
2. ids mixing string and numeric keys, which Python cannot compare;
3. no candidate at all, the `IndexError` of `possible_mol_ids[0]`;
4. an energy that `-1.0 * energy` rejects;
5. a task id of the group that `set()` cannot hash (a list or an object), the `TypeError` of `task_ids`. This holds for every task of the group, including one that yields no candidate and whose id `ID_to_int` therefore never sees.

Four behaviours of the code are easy to misread, and the model follows the code:

- the molecule id is the first task id in ID order, not the earliest-created task;
- whether a key is aggregated is decided by the `aggregate` flag of the top-ranked candidate's rule, not by whether any rule for that key is aggregated;
- equal ranking keys keep their input order, because `sorted` is stable;
- two different ids can share an `ID_to_int` key (`eg-3` and `eg-03`), and then the molecule id is whichever of them comes first, so reordering a group's tasks can change its id (`Ids.MolIdKeepsFirstOfEqualKeys`).

## Model

| member | source | states |
|---|---|---|
| Ids.IdToKeyCases | emmet/qchem/molecules.py:291-302 | `"p-n"` maps to `(p, n)`, a number maps to itself, and any other id, hashable or not, is rejected as unparsable. |
| Ids.FormattedIdOrder | emmet/qchem/molecules.py:297-298 | Keys of `"p-n"` and `"q-m"` compare first on the prefixes (code point by code point), then on the numbers. So `eg-3` precedes `eg-12`, and `abc-1` precedes `eg-9`. |
| Ids.ParseDecimal | emmet/qchem/molecules.py:298 | `int()` recovers every decimal numeral. |
| Ids.IdWithoutNumberIsUnparsable | emmet/qchem/molecules.py:298 | A string id with no digit makes `ID_to_int` raise. |
| Ids.PaddedIdSharesKey | emmet/qchem/molecules.py:298 | Two distinct ids, `"p-n"` and `"p-0n"`, get the same key. |
| Ids.StrLessTotal | emmet/qchem/molecules.py:143 | Python's string order is total. |
| Ids.StrLessTransitive | emmet/qchem/molecules.py:143 | Python's string order is transitive. |
| Ids.KeyLessTotal | emmet/qchem/molecules.py:143 | Two keys of the same kind are equal or ordered one way. |
| Ids.FirstMin | emmet/qchem/molecules.py:143-144 | The position a stable sort puts first: no key is smaller, and no earlier key is equal. |
| Ids.FirstMinUnique | emmet/qchem/molecules.py:143-144 | Only one position has that property. |
| Ids.MolId | emmet/qchem/molecules.py:143-144 | The molecule id is the id at a position no other key precedes. Errors come in the source's order: the first unparsable id raises; mixed kinds raise; an empty list raises. The result is an id exactly when all ids parse, their keys are comparable, and there is one. |
| Ids.MolIdIgnoresOrder | emmet/qchem/molecules.py:143-144 | Reordering the candidates does not change the id, provided ids that share a key are equal. |
| Ids.MolIdKeepsFirstOfEqualKeys | emmet/qchem/molecules.py:143-144 | When two different ids share a key, the id is whichever candidate came first. |
| Extraction.FiringRulesSorted | emmet/qchem/molecules.py:223-225 | The rules that yield candidates are listed in rule order, and each one scores the task's type and finds its path. |
| Extraction.FiringRulesComplete | emmet/qchem/molecules.py:223-225 | A rule is listed exactly when it scores the type and its path exists. |
| Extraction.ExtractFollowsRules | emmet/qchem/molecules.py:213-236 | The p-th candidate comes from the p-th firing rule. It carries that rule's value, score for the type and key, the task's id, type and `last_updated`, and the task's energy: `output.energy` when the task has it, `0.0` otherwise. No other candidate is emitted. |
| Extraction.MissingExactly | emmet/qchem/molecules.py:237-238 | A path is logged as missing exactly when a non-optional rule scores the type and its path is absent. |
| Extraction.DisallowedTypeYieldsNothing | emmet/qchem/molecules.py:224 | A task whose type no rule scores yields no candidate and logs nothing. |
| Extraction.FilterAllowedKeeps | emmet/qchem/molecules.py:199 | The type filter keeps a task exactly when its type is allowed. |
| Extraction.FilterKeepsAllProps | emmet/qchem/molecules.py:199 | Dropping the tasks of disallowed types loses no candidate. |
| Extraction.ExtractCarriesTask | emmet/qchem/molecules.py:226-236 | Every candidate of one task carries that task's id, type and `last_updated`. |
| Extraction.AllPropsFromGroup | emmet/qchem/molecules.py:140 | Every candidate of a group comes from a task of the group, with the type the classifier gives it. |
| Resolution.RankedUpTo | emmet/qchem/molecules.py:154 | The stable descending sort lists each position exactly once. Each position comes before every later one: a strictly greater key, or an equal key and an earlier place. |
| Resolution.RankedIsRanking | emmet/qchem/molecules.py:154 | The sorted order is a permutation of the group, sorted descending and stably. |
| Resolution.RankingUnique | emmet/qchem/molecules.py:154 | That order is unique: any two stable descending orders of a group agree. |
| Resolution.BestIndex | emmet/qchem/molecules.py:154-155 | `sorted_props[0]` comes before every other candidate. |
| Resolution.BestIsHighestQualityLowestEnergy | emmet/qchem/molecules.py:150-154 | The winner has the highest quality score. Among those with that score it has the lowest energy, and among full ties it is the earliest. |
| Resolution.BestUnique | emmet/qchem/molecules.py:154-155 | There is exactly one winner. |
| Resolution.LowerEnergyBreaksTie | emmet/qchem/molecules.py:154 | At equal quality, the lower energy wins in either order. |
| Resolution.HigherQualityWins | emmet/qchem/molecules.py:154 | A higher quality score wins whatever the energies. |
| Resolution.EarlierWinsFullTie | emmet/qchem/molecules.py:154 | On equal keys the earlier candidate wins. |
| Resolution.GroupMembers | emmet/qchem/molecules.py:147-148 | A group holds exactly the candidates with its key. |
| Resolution.GroupNonEmpty | emmet/qchem/molecules.py:148 | Every key present has a non-empty group. |
| Resolution.SortedKeys | emmet/qchem/molecules.py:147-148 | Groups come in strictly ascending key order, one per distinct key. |
| Resolution.ResolvePicksBest | emmet/qchem/molecules.py:155-163 | The entry for a key copies the winner's key, type, id and `last_updated`. A non-aggregated winner gives its own value and track flag. An aggregated winner gives an aggregated, untracked value. |
| Resolution.ResolveAggregated | emmet/qchem/molecules.py:155-160 | An aggregated key holds one value per candidate of its group, in the stable descending order of `(quality, -energy)`. |
| Resolution.ResolveKeepsKey | emmet/qchem/molecules.py:147-163 | A winner's key is the key of its group. |
| Resolution.BestPropsOnePerKey | emmet/qchem/molecules.py:147-163 | `best_props` has exactly one entry per distinct `molecules_key`, in ascending key order, and each entry is the winner of the group of candidates with that key. |
| Document.OriginsExact | emmet/qchem/molecules.py:166-168 | There is an origin exactly for each tracked winner, and it copies the winner's key, type, id and `last_updated`. |
| Document.OriginsAscending | emmet/qchem/molecules.py:166-168 | Origins keep the ascending key order of the winners. |
| Document.OriginsOnePerTrackedKey | emmet/qchem/molecules.py:159-168 | Origins are in strictly ascending key order. A key has an origin exactly when its winner is tracked, hence at most one origin per key. |
| Document.AggregatedHasNoOrigin | emmet/qchem/molecules.py:159-160 | An aggregated winner is untracked, so it gets no origin. |
| Document.DistinctSpec | emmet/qchem/molecules.py:171 | `list(set(ids))` has no duplicates and holds exactly the given ids. |
| Document.GroupIdsDistinct | emmet/qchem/molecules.py:171 | `task_ids` lists each task id of the group exactly once. |
| Document.TaskTypesDomain | emmet/qchem/molecules.py:174 | `task_types` maps exactly the candidates' task ids. |
| Document.TaskTypesLast | emmet/qchem/molecules.py:174 | The entry for an id is the type of the last candidate with that id. |
| Document.TaskTypesOfGroup | emmet/qchem/molecules.py:174 | Every `task_types` entry maps an id of the group to the type the classifier gives that task. |
| Document.Earliest | emmet/qchem/molecules.py:178 | `created_at` is the least `last_updated` of all candidates, and some candidate attains it. |
| Document.Latest | emmet/qchem/molecules.py:177 | The lu field is the greatest `last_updated` of all candidates, and some candidate attains it. |
| Document.CreatedNotAfterUpdated | emmet/qchem/molecules.py:177-178 | `created_at` is never after the lu field. |
| Document.PropsOfDistinct | emmet/qchem/molecules.py:185-186 | With distinct keys, each winner's value sits at its key and nothing else is written. |
| Document.AssembleErrors | emmet/qchem/molecules.py:140-171 | `make_mol` fails on no candidate, on an unparsable id (the first one), on mixed id kinds, on a non-numeric energy, and on an unhashable task id anywhere in the group, in that order. It succeeds exactly otherwise. |
| Document.AssembleId | emmet/qchem/molecules.py:143-144 | The record's id is the task id of a candidate that no other candidate precedes under `ID_to_int`. |
| Document.AssembleMetadata | emmet/qchem/molecules.py:171-183 | `created_at` and `last_updated` bound every candidate's `last_updated`, and both are attained. `task_ids` lists each task of the group once. `task_types` comes from all candidates. There is no `_bt` yet. |
| Document.AssembleProps | emmet/qchem/molecules.py:147-186 | The record's properties are exactly the candidates' keys, each holding the value its group resolves to. The origins are those of the tracked winners. |
| Document.AssembleValid | emmet/qchem/molecules.py:241-245 | A record is valid exactly when some candidate supplies the `structure` key. |
| Document.AsWrittenNeverValid | emmet/qchem/molecules.py:189-190 | As written, `make_mol` never returns a valid record. Every group that would otherwise yield a record with a `structure` candidate fails with the undefined name. |
| Document.NoValidRecordWritesNothing | emmet/qchem/molecules.py:123-132 | With no valid record among the items, nothing is kept. |
| Document.KeptExactly | emmet/qchem/molecules.py:123 | A record is kept exactly when it is present and valid. |
| Document.FlattenMembers | emmet/qchem/molecules.py:123 | Flattening keeps exactly the entries of the item lists. |
| Document.WrittenExactly | emmet/qchem/molecules.py:123-126 | The records written are exactly the present, valid records of any item list, each a copy of the record with only `_bt` set to the pass timestamp. |
| Document.UpsertSpec | emmet/qchem/molecules.py:130 | After the upsert, an id is present when it was before or is written. A written id holds the last record written with it. Other records are untouched. |
| Document.UpsertIdempotent | emmet/qchem/molecules.py:130 | Upserting the same records twice equals upserting them once. |
| Changes.BatchMembers | emmet/qchem/molecules.py:84-88 | The batch of a formula holds exactly the selected successful tasks of that formula. |
| Changes.ChangeSetComplete | emmet/qchem/molecules.py:63-80 | A selected successful task that no molecule lists, or that was updated since the last pass, puts its formula in the change set. |
| Changes.ChangeSetSound | emmet/qchem/molecules.py:63-80 | With unique task ids, every formula of the change set has such a task. |
| Changes.NothingToDo | emmet/qchem/molecules.py:63-80 | When every selected task is listed and none was updated, the change set is empty. |
| Changes.OneNewTaskRebuildsItsFormula | emmet/qchem/molecules.py:63-80 | With unique task ids, when one selected task is in no molecule and every other selected task is in a molecule and not updated since the last pass, the change set is exactly that task's formula, whatever formulas the other tasks have. |
| Builder.MoleculesBuilder.constructor | emmet/qchem/molecules.py:21-43 | The stores and settings are kept. A missing query matches every task. `allowed_tasks` is every type some rule scores. No timestamp is saved yet. |
| Builder.MoleculesBuilder.TaskToPropList | emmet/qchem/molecules.py:213-239 | The loop over the rules yields exactly the candidates and the missing paths of `Extraction.Extract` and `Extraction.Missing`. |
| Builder.MoleculesBuilder.FilterTasks | emmet/qchem/molecules.py:199 | The loop keeps exactly the tasks of allowed types, in order. |
| Builder.MoleculesBuilder.CollectProps | emmet/qchem/molecules.py:140 | The candidates of every task of the group, in task order. |
| Builder.MoleculesBuilder.ResolveAll | emmet/qchem/molecules.py:151-163 | The loop over the groups builds `best_props`. It applies the aggregate branch's in-place updates of value and track. |
| Builder.MoleculesBuilder.WriteProps | emmet/qchem/molecules.py:185-186 | The `set_` loop leaves each key holding the last value written to it. |
| Builder.MoleculesBuilder.MakeMol | emmet/qchem/molecules.py:134-186 | `make_mol` returns the result of `Document.Assemble`, error cases included. |
| Builder.MoleculesBuilder.GetItems | emmet/qchem/molecules.py:60-88 | The timestamp is saved. `total` is the size of the change set. Each formula of the change set is listed once, with its batch. |
| Builder.MoleculesBuilder.UpdateTargets | emmet/qchem/molecules.py:115-132 | The store becomes the upsert of the stamped present, valid records. Nothing is written when none qualifies. Stamping without a saved timestamp fails. |

## Left out

- `structure_metadata` is not part of this model. It merges pymatgen composition data into the record. The corrected `make_mol` (`Document.Assemble`) returns the record without that metadata.
- `group_structures` is a stub that raises. The `Molecule.from_dict` parsing in `filter_and_group_tasks` is a foreign library call. Only the allowed-type filter of `filter_and_group_tasks` is modelled, and `make_mol` is modelled on one given task group.
- `process_item` is not modelled. It reads `tasks[0]`, which raises on an empty batch, and it maps `make_mol` over the groups of `filter_and_group_tasks`, returning that list; since that grouping relies on `group_structures`, neither the map over groups nor the `tasks[0]` access is modelled. Its remaining work is logging.
- `ensure_indexes`, the store drivers and logging are I/O. The task store is a fixed sequence and the molecules store a map.
- Generators are modelled as sequences. The order in which `get_items` visits the set of formulas is any order (a `:|` choice).
- `Document.Distinct`: `list(set(...))` leaves the order of `task_ids` open. The model keeps first occurrences, and the contracts state only "no duplicates, same ids".
- `Document.MoleculeDoc`: the record keeps metadata and properties apart. Each `molecules_key` is an opaque key of a flat map. A key that is a dotted path nested under another key (`a` vs `a.b`) is not modelled. Neither is a key that collides with a metadata field name.
- `Changes.Selected`: the query is a predicate that is combined with `state == "successful"`. That `get_items` overwrites a `state`, `formula_pretty` or `last_updated` condition in the user's own query is not modelled.
- `Changes.UpdatedFormulas`: maggma's `lu_filter` is the given threshold `lastPass`. How maggma derives it from the molecules store is not part of this model.
- `Ids.ParseInt`: `int()` is modelled for an optional `+` followed by ASCII digits. Surrounding whitespace, underscores between digits and non-ASCII digits, which Python also accepts, are not modelled.
- `Extraction.Task`: every task has an id, an `orig` field and a `last_updated`. The `KeyError` that `task_to_prop_list` raises when `task_id`, `orig` or the lu field is missing is not modelled.
- `Ids.RawId`: float and boolean task ids, which `ID_to_int` passes through as numbers, are not modelled. Any other id is treated as unparsable, and is hashable (null) or unhashable (a list or an object).
- `Resolution.EnergyNum`: energies, quality scores and timestamps are exact reals or integers. IEEE rounding and NaN are not modelled.
- `Json.Get`: dotted paths descend through objects only. pydash's list indexing (`a.0`) is not modelled.
- `mol_prefix` is stored by the source but never used. The store key names (`tasks.key`, `lu_field`) are taken to be `task_id` and `last_updated`.

## Findings

| source | as written | input that shows it | evidently intended | confidence | as-written member | corrected member |
|---|---|---|---|---|---|---|
| emmet/qchem/molecules.py:189-190 | When the record has a `structure`, `make_mol` calls `structure_metadata` on the name `structure`. That name is bound nowhere in the module, so every such record raises `NameError`. | Any task group with a candidate whose `molecules_key` is `structure`, whose ids parse and hash, whose candidate ids are all strings or all numbers, and whose energies are numbers. | Merge the metadata of the record's own structure and return the record, so that valid records reach `update_targets`. | high (not executed) | Document.AsWrittenNeverValid | Document.AssembleValid |
