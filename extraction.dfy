/**
 * Rules, tasks and candidate properties, and what `task_to_prop_list`
 * extracts from one task: one candidate per rule whose quality scores name
 * the task's type and whose source path exists in the task, in rule order.
 */
module Extraction {
  import opened Wrappers
  import opened Json
  import opened Ids

  type TaskType = string

  /**
   * A task record: its id, state, formula_pretty and last_updated fields,
   * the `orig` value the task-type classifier reads, and the whole document
   * that rule paths point into.
   */
  datatype Task = Task(id: RawId, state: string, formula: string, lastUpdated: int, orig: Value, doc: Value)

  /** One entry of the molecule settings (absent track/aggregate/optional flags read as false). */
  datatype Rule = Rule(
    moleculesKey: string,
    tasksKey: Path,
    qualityScore: map<TaskType, real>,
    optional: bool,
    track: bool,
    aggregate: bool)

  /** A candidate property, as built by task_to_prop_list. */
  datatype Candidate = Candidate(
    value: Value,
    taskType: TaskType,
    taskId: RawId,
    quality: real,
    track: bool,
    aggregate: bool,
    lastUpdated: int,
    energy: Value,
    key: string)

  const EnergyPath: Path := ["output", "energy"]

  /** A candidate's energy in task_to_prop_list: the task's output energy, or 0.0 when it has none. */
  function Energy(task: Task): (e: Value)
    ensures Has(task.doc, EnergyPath) ==> Get(task.doc, EnergyPath) == Some(e)
    ensures !Has(task.doc, EnergyPath) ==> e == Num(0.0)
  {
    GetOr(task.doc, EnergyPath, Num(0.0))
  }

  /** The rule scores this task type. */
  predicate Applies(rule: Rule, tType: TaskType) {
    tType in rule.qualityScore
  }

  /** The rule applies and its source path exists in the task. */
  predicate Fires(task: Task, tType: TaskType, rule: Rule) {
    Applies(rule, tType) && Has(task.doc, rule.tasksKey)
  }

  function CandidateOf(task: Task, tType: TaskType, rule: Rule): Candidate
    requires Fires(task, tType, rule)
  {
    Candidate(
      Get(task.doc, rule.tasksKey).value, tType, task.id, rule.qualityScore[tType],
      rule.track, rule.aggregate, task.lastUpdated, Energy(task), rule.moleculesKey)
  }

  /** The candidates the loop over the rules appends, for a task of type tType. */
  function Extract(task: Task, tType: TaskType, rules: seq<Rule>): seq<Candidate> {
    if rules == [] then []
    else
      var last := rules[|rules| - 1];
      Extract(task, tType, rules[..|rules| - 1]) +
      (if Fires(task, tType, last) then [CandidateOf(task, tType, last)] else [])
  }

  /** The source paths logged as missing: the rule applies, the path is absent and the rule is not optional. */
  function Missing(task: Task, tType: TaskType, rules: seq<Rule>): seq<Path> {
    if rules == [] then []
    else
      var last := rules[|rules| - 1];
      Missing(task, tType, rules[..|rules| - 1]) +
      (if Applies(last, tType) && !Has(task.doc, last.tasksKey) && !last.optional then [last.tasksKey] else [])
  }

  /** The positions of the rules that fire, in rule order. */
  function FiringRules(task: Task, tType: TaskType, rules: seq<Rule>): seq<nat> {
    if rules == [] then []
    else
      var n := |rules| - 1;
      FiringRules(task, tType, rules[..n]) + (if Fires(task, tType, rules[n]) then [n] else [])
  }

  /** FiringRules lists valid positions of firing rules, strictly increasing. */
  lemma {:induction false} FiringRulesSorted(task: Task, tType: TaskType, rules: seq<Rule>)
    ensures forall p :: 0 <= p < |FiringRules(task, tType, rules)| ==>
              FiringRules(task, tType, rules)[p] < |rules| && Fires(task, tType, rules[FiringRules(task, tType, rules)[p]])
    ensures forall p, q :: 0 <= p < q < |FiringRules(task, tType, rules)| ==>
              FiringRules(task, tType, rules)[p] < FiringRules(task, tType, rules)[q]
  {
    if rules != [] {
      var n := |rules| - 1;
      FiringRulesSorted(task, tType, rules[..n]);
      var idx0 := FiringRules(task, tType, rules[..n]);
      var idx := FiringRules(task, tType, rules);
      assert forall p :: 0 <= p < |idx0| ==> idx[p] == idx0[p] && idx0[p] < n;
      forall p | 0 <= p < |idx0| ensures Fires(task, tType, rules[idx0[p]]) {
        assert rules[..n][idx0[p]] == rules[idx0[p]];
      }
    }
  }

  /** A rule position is listed exactly when that rule fires. */
  lemma {:induction false} FiringRulesComplete(task: Task, tType: TaskType, rules: seq<Rule>, i: int)
    ensures i in FiringRules(task, tType, rules) <==> 0 <= i < |rules| && Fires(task, tType, rules[i])
  {
    if rules != [] {
      var n := |rules| - 1;
      FiringRulesComplete(task, tType, rules[..n], i);
      if 0 <= i < n {
        assert rules[..n][i] == rules[i];
      }
    }
  }

  /**
   * Extraction emits one candidate per firing rule, in rule order, and
   * nothing else: the p-th candidate is built from the p-th firing rule.
   */
  lemma {:induction false} ExtractFollowsRules(task: Task, tType: TaskType, rules: seq<Rule>)
    ensures var idx := FiringRules(task, tType, rules);
            var props := Extract(task, tType, rules);
            |props| == |idx| &&
            forall p :: 0 <= p < |idx| ==>
              idx[p] < |rules| && Fires(task, tType, rules[idx[p]]) && props[p] == CandidateOf(task, tType, rules[idx[p]])
  {
    FiringRulesSorted(task, tType, rules);
    if rules != [] {
      var n := |rules| - 1;
      ExtractFollowsRules(task, tType, rules[..n]);
      FiringRulesSorted(task, tType, rules[..n]);
      var idx0 := FiringRules(task, tType, rules[..n]);
      var props0 := Extract(task, tType, rules[..n]);
      var idx := FiringRules(task, tType, rules);
      var props := Extract(task, tType, rules);
      forall p | 0 <= p < |idx0|
        ensures props[p] == CandidateOf(task, tType, rules[idx[p]])
      {
        assert props[p] == props0[p];
        assert idx[p] == idx0[p];
        assert rules[..n][idx0[p]] == rules[idx0[p]];
      }
    }
  }

  /** A missing path is reported exactly for the applying, non-optional rules whose path is absent. */
  lemma {:induction false} MissingExactly(task: Task, tType: TaskType, rules: seq<Rule>, path: Path)
    ensures path in Missing(task, tType, rules) <==>
            exists i :: 0 <= i < |rules| && rules[i].tasksKey == path && Applies(rules[i], tType) &&
                        !Has(task.doc, path) && !rules[i].optional
  {
    if rules != [] {
      var n := |rules| - 1;
      MissingExactly(task, tType, rules[..n], path);
      assert forall i :: 0 <= i < n ==> rules[..n][i] == rules[i];
    }
  }

  // ---------------------------------------------------------------------
  // allowed_tasks and the type filter of filter_and_group_tasks

  /** Every task type that some rule scores. */
  function AllowedTasks(rules: seq<Rule>): set<TaskType> {
    set i, t | 0 <= i < |rules| && t in rules[i].qualityScore :: t
  }

  /** A task of a type no rule scores yields no candidate and no missing path. */
  lemma {:induction false} DisallowedTypeYieldsNothing(task: Task, tType: TaskType, rules: seq<Rule>)
    requires tType !in AllowedTasks(rules)
    ensures Extract(task, tType, rules) == [] && Missing(task, tType, rules) == []
  {
    if rules != [] {
      var n := |rules| - 1;
      assert !Applies(rules[n], tType);
      assert tType !in AllowedTasks(rules[..n]);
      DisallowedTypeYieldsNothing(task, tType, rules[..n]);
    }
  }

  /** The type filter of filter_and_group_tasks: the tasks whose classified type is allowed, in order. */
  function FilterAllowed(tasks: seq<Task>, classify: Value -> TaskType, allowed: set<TaskType>): seq<Task> {
    if tasks == [] then []
    else
      var last := tasks[|tasks| - 1];
      FilterAllowed(tasks[..|tasks| - 1], classify, allowed) + (if classify(last.orig) in allowed then [last] else [])
  }

  /** The candidates of a whole task group: chain.from_iterable of task_to_prop_list over the group. */
  function AllProps(group: seq<Task>, rules: seq<Rule>, classify: Value -> TaskType): seq<Candidate> {
    if group == [] then []
    else
      var last := group[|group| - 1];
      AllProps(group[..|group| - 1], rules, classify) + Extract(last, classify(last.orig), rules)
  }

  /** The type filter keeps a task exactly when its type is allowed. */
  lemma {:induction false} FilterAllowedKeeps(tasks: seq<Task>, classify: Value -> TaskType, allowed: set<TaskType>, t: Task)
    ensures t in FilterAllowed(tasks, classify, allowed) <==> t in tasks && classify(t.orig) in allowed
  {
    if tasks != [] {
      var n := |tasks| - 1;
      FilterAllowedKeeps(tasks[..n], classify, allowed, t);
      assert tasks == tasks[..n] + [tasks[n]];
    }
  }

  /** Dropping the tasks of types no rule scores loses no candidate. */
  lemma {:induction false} FilterKeepsAllProps(group: seq<Task>, rules: seq<Rule>, classify: Value -> TaskType)
    ensures AllProps(FilterAllowed(group, classify, AllowedTasks(rules)), rules, classify) == AllProps(group, rules, classify)
  {
    if group != [] {
      var n := |group| - 1;
      var last := group[n];
      var allowed := AllowedTasks(rules);
      FilterKeepsAllProps(group[..n], rules, classify);
      var kept := FilterAllowed(group[..n], classify, allowed);
      if classify(last.orig) in allowed {
        assert (kept + [last])[..|kept|] == kept;
      } else {
        DisallowedTypeYieldsNothing(last, classify(last.orig), rules);
        assert FilterAllowed(group, classify, allowed) == kept;
        assert AllProps(group, rules, classify) == AllProps(group[..n], rules, classify) + [];
      }
    }
  }

  /** Every candidate of one task carries that task's id, the type given to it, and its last_updated. */
  lemma {:induction false} ExtractCarriesTask(task: Task, tType: TaskType, rules: seq<Rule>)
    ensures forall c :: c in Extract(task, tType, rules) ==>
              c.taskId == task.id && c.taskType == tType && c.lastUpdated == task.lastUpdated
  {
    if rules != [] {
      ExtractCarriesTask(task, tType, rules[..|rules| - 1]);
    }
  }

  /** Every candidate of a group comes from one of its tasks, with that task's classified type. */
  lemma {:induction false} AllPropsFromGroup(group: seq<Task>, rules: seq<Rule>, classify: Value -> TaskType)
    ensures forall c :: c in AllProps(group, rules, classify) ==>
              exists t :: t in group && c.taskId == t.id && c.taskType == classify(t.orig) && c.lastUpdated == t.lastUpdated
  {
    if group != [] {
      var n := |group| - 1;
      AllPropsFromGroup(group[..n], rules, classify);
      ExtractCarriesTask(group[n], classify(group[n].orig), rules);
      forall c | c in AllProps(group, rules, classify)
        ensures exists t :: t in group && c.taskId == t.id && c.taskType == classify(t.orig) && c.lastUpdated == t.lastUpdated
      {
        if c in AllProps(group[..n], rules, classify) {
          var t :| t in group[..n] && c.taskId == t.id && c.taskType == classify(t.orig) && c.lastUpdated == t.lastUpdated;
          assert t in group;
        } else {
          assert group[n] in group;
        }
      }
    }
  }
}
