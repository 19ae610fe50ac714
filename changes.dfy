/**
 * The change set of get_items: the formulas of successful tasks that no
 * molecule lists yet, together with the formulas of successful tasks updated
 * since the last pass, and the batch of tasks queried for each formula.
 */
module Changes {
  import opened Ids
  import opened Extraction
  import opened Document

  /** The builder's query with "state" set to "successful". */
  predicate Selected(query: Task -> bool, t: Task) {
    query(t) && t.state == "successful"
  }

  /** The ids of the selected tasks (all_tasks of get_items). */
  function SelectedIds(tasks: seq<Task>, query: Task -> bool): set<RawId> {
    set t | t in tasks && Selected(query, t) :: t.id
  }

  /** Every task id some molecule lists (processed_tasks of get_items). */
  function ProcessedIds(molecules: map<RawId, MoleculeDoc>): set<RawId> {
    set m, x | m in molecules && x in molecules[m].taskIds :: x
  }

  /** The ids of selected tasks that no molecule lists yet (to_process_tasks of get_items). */
  function UnprocessedIds(tasks: seq<Task>, query: Task -> bool, molecules: map<RawId, MoleculeDoc>): set<RawId> {
    SelectedIds(tasks, query) - ProcessedIds(molecules)
  }

  /** The formulas of the tasks, of any state, whose id is unprocessed. */
  function NewFormulas(tasks: seq<Task>, query: Task -> bool, molecules: map<RawId, MoleculeDoc>): set<string> {
    set t | t in tasks && t.id in UnprocessedIds(tasks, query, molecules) :: t.formula
  }

  /** The formulas of the selected tasks updated after the last pass (last_updated greater than lastPass). */
  function UpdatedFormulas(tasks: seq<Task>, query: Task -> bool, lastPass: int): set<string> {
    set t | t in tasks && Selected(query, t) && t.lastUpdated > lastPass :: t.formula
  }

  /** The formulas get_items rebuilds (forms_to_update): the updated and the new ones. */
  function ChangeSet(tasks: seq<Task>, query: Task -> bool, molecules: map<RawId, MoleculeDoc>, lastPass: int): set<string> {
    UpdatedFormulas(tasks, query, lastPass) + NewFormulas(tasks, query, molecules)
  }

  /** The batch get_items yields for one formula: its selected tasks, in store order. */
  function Batch(tasks: seq<Task>, query: Task -> bool, formula: string): seq<Task> {
    if tasks == [] then []
    else
      var n := |tasks| - 1;
      Batch(tasks[..n], query, formula) + (if Selected(query, tasks[n]) && tasks[n].formula == formula then [tasks[n]] else [])
  }

  /** A batch holds exactly the selected tasks of its formula. */
  lemma {:induction false} BatchMembers(tasks: seq<Task>, query: Task -> bool, formula: string, t: Task)
    ensures t in Batch(tasks, query, formula) <==> t in tasks && Selected(query, t) && t.formula == formula
  {
    if tasks != [] {
      var n := |tasks| - 1;
      BatchMembers(tasks[..n], query, formula, t);
      assert tasks == tasks[..n] + [tasks[n]];
    }
  }

  /** A successful selected task in no molecule, or updated since the last pass, puts its formula in the change set. */
  lemma ChangeSetComplete(tasks: seq<Task>, query: Task -> bool, molecules: map<RawId, MoleculeDoc>, lastPass: int, t: Task)
    requires t in tasks && Selected(query, t)
    requires t.id !in ProcessedIds(molecules) || t.lastUpdated > lastPass
    ensures t.formula in ChangeSet(tasks, query, molecules, lastPass)
  {
    if t.id !in ProcessedIds(molecules) {
      assert t.id in SelectedIds(tasks, query);
      assert t.id in UnprocessedIds(tasks, query, molecules);
    }
  }

  /**
   * Every formula of the change set has a task that caused it: a selected
   * task updated since the last pass, or a task sharing its id with an
   * unprocessed selected task. With unique task ids that task is itself
   * selected and in no molecule.
   */
  lemma ChangeSetSound(tasks: seq<Task>, query: Task -> bool, molecules: map<RawId, MoleculeDoc>, lastPass: int, f: string)
    requires f in ChangeSet(tasks, query, molecules, lastPass)
    requires forall i, j :: 0 <= i < |tasks| && 0 <= j < |tasks| && tasks[i].id == tasks[j].id ==> i == j
    ensures exists t :: t in tasks && t.formula == f && Selected(query, t) &&
                        (t.id !in ProcessedIds(molecules) || t.lastUpdated > lastPass)
  {
    if f !in UpdatedFormulas(tasks, query, lastPass) {
      var t :| t in tasks && t.id in UnprocessedIds(tasks, query, molecules) && t.formula == f;
      var u :| u in tasks && Selected(query, u) && u.id == t.id;
      var i :| 0 <= i < |tasks| && tasks[i] == t;
      var j :| 0 <= j < |tasks| && tasks[j] == u;
      assert i == j;
    }
  }

  /** Once every selected task is in a molecule and none was updated, the change set is empty. */
  lemma NothingToDo(tasks: seq<Task>, query: Task -> bool, molecules: map<RawId, MoleculeDoc>, lastPass: int)
    requires forall t :: t in tasks && Selected(query, t) ==> t.id in ProcessedIds(molecules) && t.lastUpdated <= lastPass
    ensures ChangeSet(tasks, query, molecules, lastPass) == {}
  {
    assert UnprocessedIds(tasks, query, molecules) == {};
  }

  /**
   * A single new task, in a store where every other selected task is already
   * in a molecule and was not updated since the last pass, rebuilds its own
   * formula and nothing else, whatever formulas the other tasks have.
   */
  lemma OneNewTaskRebuildsItsFormula(tasks: seq<Task>, query: Task -> bool, molecules: map<RawId, MoleculeDoc>,
                                     lastPass: int, u: Task)
    requires u in tasks && Selected(query, u) && u.id !in ProcessedIds(molecules)
    requires forall t :: t in tasks && Selected(query, t) && t != u ==>
               t.id in ProcessedIds(molecules) && t.lastUpdated <= lastPass
    requires forall i, j :: 0 <= i < |tasks| && 0 <= j < |tasks| && tasks[i].id == tasks[j].id ==> i == j
    ensures ChangeSet(tasks, query, molecules, lastPass) == {u.formula}
  {
    ChangeSetComplete(tasks, query, molecules, lastPass, u);
    forall f | f in ChangeSet(tasks, query, molecules, lastPass) ensures f == u.formula {
      ChangeSetSound(tasks, query, molecules, lastPass, f);
      var t :| t in tasks && t.formula == f && Selected(query, t) &&
               (t.id !in ProcessedIds(molecules) || t.lastUpdated > lastPass);
      assert t == u;
    }
  }
}
