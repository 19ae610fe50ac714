/**
 * The MoleculesBuilder object: its settings and stores, and the methods of
 * one build pass that loop and update its fields.
 */
module Builder {
  import opened Wrappers
  import opened Json
  import opened Ids
  import opened Extraction
  import opened Resolution
  import opened Document
  import opened Changes

  class MoleculesBuilder {
    /** The task store, as the records it holds. */
    const tasks: seq<Task>
    /** The molecules store, keyed by molecule id. */
    var molecules: map<RawId, MoleculeDoc>
    /** The molecule settings, in file order. */
    const settings: seq<Rule>
    const allowedTasks: set<TaskType>
    /** task_type, the classifier of a task's orig field. */
    const classify: Value -> TaskType
    /** The user query tasks must match. */
    const query: Task -> bool
    /** The pass timestamp get_items saves; None before the first call. */
    var timestamp: Option<int>
    var total: nat

    /** allowed_tasks is every task type some rule scores. */
    predicate Valid() {
      allowedTasks == AllowedTasks(settings)
    }

    /** A missing query matches every task. */
    constructor (tasks: seq<Task>, molecules: map<RawId, MoleculeDoc>, settings: seq<Rule>,
                 classify: Value -> TaskType, query: Option<Task -> bool>)
      ensures Valid()
      ensures this.tasks == tasks && this.molecules == molecules && this.settings == settings
      ensures this.classify == classify
      ensures query.Some? ==> this.query == query.value
      ensures query.None? ==> forall t :: this.query(t)
      ensures timestamp == None && total == 0
    {
      this.tasks := tasks;
      this.molecules := molecules;
      this.settings := settings;
      this.classify := classify;
      if query.Some? {
        this.query := query.value;
      } else {
        this.query := t => true;
      }
      this.allowedTasks := AllowedTasks(settings);
      timestamp := None;
      total := 0;
    }

    /**
     * task_to_prop_list: the candidates of one task, one per firing rule in
     * rule order, and the source paths it would log as missing.
     */
    method TaskToPropList(task: Task) returns (props: seq<Candidate>, missing: seq<Path>)
      ensures props == Extract(task, classify(task.orig), settings)
      ensures missing == Missing(task, classify(task.orig), settings)
    {
      var tType := classify(task.orig);
      props, missing := [], [];
      var i := 0;
      while i < |settings|
        invariant 0 <= i <= |settings|
        invariant props == Extract(task, tType, settings[..i])
        invariant missing == Missing(task, tType, settings[..i])
      {
        var rule := settings[i];
        if tType in rule.qualityScore {
          if Has(task.doc, rule.tasksKey) {
            props := props + [CandidateOf(task, tType, rule)];
          } else if !rule.optional {
            missing := missing + [rule.tasksKey];
          }
        }
        assert settings[..i + 1][..i] == settings[..i];
        i := i + 1;
      }
      assert settings[..i] == settings;
    }

    /** The type filter of filter_and_group_tasks: the tasks whose type some rule scores, in order. */
    method FilterTasks(group: seq<Task>) returns (filtered: seq<Task>)
      requires Valid()
      ensures filtered == FilterAllowed(group, classify, AllowedTasks(settings))
    {
      filtered := [];
      var i := 0;
      while i < |group|
        invariant 0 <= i <= |group|
        invariant filtered == FilterAllowed(group[..i], classify, allowedTasks)
      {
        if classify(group[i].orig) in allowedTasks {
          filtered := filtered + [group[i]];
        }
        assert group[..i + 1][..i] == group[..i];
        i := i + 1;
      }
      assert group[..i] == group;
    }

    /** The candidates of every task of the group, in task order. */
    method CollectProps(group: seq<Task>) returns (allProps: seq<Candidate>)
      ensures allProps == AllProps(group, settings, classify)
    {
      allProps := [];
      var i := 0;
      while i < |group|
        invariant 0 <= i <= |group|
        invariant allProps == AllProps(group[..i], settings, classify)
      {
        var props, _ := TaskToPropList(group[i]);
        allProps := allProps + props;
        assert group[..i + 1][..i] == group[..i];
        i := i + 1;
      }
      assert group[..i] == group;
    }

    /** The loop over the groups of make_mol: the winner of each key, in ascending key order. */
    method ResolveAll(allProps: seq<Candidate>) returns (best: seq<Winner>)
      ensures best == BestProps(allProps)
    {
      var keys := SortedKeys(allProps);
      best := [];
      var j := 0;
      while j < |keys|
        invariant 0 <= j <= |keys|
        invariant |best| == j
        invariant forall p :: 0 <= p < j ==> best[p] == BestProps(allProps)[p]
      {
        GroupNonEmpty(allProps, keys[j]);
        var g := Group(allProps, keys[j]);
        var order := Ranked(g);
        var top := g[order[0]];
        var prop := Winner(top.key, Single(top.value), top.track, top.taskType, top.taskId, top.lastUpdated);
        if top.aggregate {
          var vals := ValuesInOrder(g, order);
          prop := prop.(value := Aggregated(vals));
          prop := prop.(track := false);
        }
        BestPropsAt(allProps, j);
        best := best + [prop];
        j := j + 1;
      }
    }

    /** The set_ loop of make_mol: each winner's value written at its key, a later write replacing an earlier one. */
    method WriteProps(best: seq<Winner>) returns (props: map<string, PropValue>)
      ensures props == PropsOf(best)
    {
      props := map[];
      var k := 0;
      while k < |best|
        invariant 0 <= k <= |best|
        invariant props == PropsOf(best[..k])
      {
        props := props[best[k].key := best[k].value];
        assert best[..k + 1][..k] == best[..k];
        k := k + 1;
      }
      assert best[..k] == best;
    }

    /**
     * make_mol: the molecule record of one task group, or the error the
     * source raises; Document.Assemble is what it computes, and the lemmas
     * beside it state what that record holds.
     */
    method MakeMol(group: seq<Task>) returns (r: Result<MoleculeDoc, MolError>)
      ensures r == Assemble(group, settings, classify)
    {
      var allProps := CollectProps(group);
      var molId := MolId(CandidateIds(allProps));
      if molId.Err? {
        return Err(BadId(molId.error));
      }
      if !Numeric(allProps) {
        return Err(EnergyNotNumeric);
      }
      if !AllHashable(GroupIds(group)) {
        return Err(UnhashableId);
      }
      var best := ResolveAll(allProps);
      var origins := Origins(best);
      var taskIds := Distinct(GroupIds(group));
      var taskTypes := TaskTypes(allProps);
      var props := WriteProps(best);
      r := Ok(MoleculeDoc(molId.value, Latest(allProps), Earliest(allProps), taskIds, origins, taskTypes, props, None));
    }

    /**
     * get_items: saves the pass timestamp, counts the formulas of the change
     * set, and lists each of them once with the batch of its selected tasks.
     */
    method GetItems(lastPass: int, now: int) returns (formulas: seq<string>, batches: seq<seq<Task>>)
      modifies this`timestamp, this`total
      ensures timestamp == Some(now)
      ensures total == |ChangeSet(tasks, query, molecules, lastPass)| == |formulas|
      ensures forall f :: f in formulas <==> f in ChangeSet(tasks, query, molecules, lastPass)
      ensures forall i, j :: 0 <= i < j < |formulas| ==> formulas[i] != formulas[j]
      ensures |batches| == |formulas|
      ensures forall i :: 0 <= i < |formulas| ==> batches[i] == Batch(tasks, query, formulas[i])
    {
      timestamp := Some(now);
      var forms := ChangeSet(tasks, query, molecules, lastPass);
      total := |forms|;
      var remaining := forms;
      formulas, batches := [], [];
      while remaining != {}
        invariant remaining <= forms
        invariant forall f :: f in formulas <==> f in forms && f !in remaining
        invariant forall i, j :: 0 <= i < j < |formulas| ==> formulas[i] != formulas[j]
        invariant |formulas| + |remaining| == |forms|
        invariant |batches| == |formulas|
        invariant forall i :: 0 <= i < |formulas| ==> batches[i] == Batch(tasks, query, formulas[i])
        decreases |remaining|
      {
        var f :| f in remaining;
        formulas := formulas + [f];
        batches := batches + [Batch(tasks, query, f)];
        remaining := remaining - {f};
      }
    }

    /**
     * update_targets: stamps every present, valid record with the pass
     * timestamp and upserts them; nothing is written when none qualifies.
     * Stamping without a saved timestamp fails (ok is false) and writes nothing.
     */
    method UpdateTargets(items: seq<seq<Option<MoleculeDoc>>>) returns (ok: bool)
      modifies this`molecules
      ensures var kept := Kept(Flatten(items));
              (ok <==> kept == [] || timestamp.Some?) &&
              (ok && kept != [] ==> molecules == Upsert(old(molecules), StampAll(kept, timestamp.value))) &&
              (!ok || kept == [] ==> molecules == old(molecules))
    {
      var kept := Kept(Flatten(items));
      if kept == [] {
        return true;
      }
      if timestamp.None? {
        return false;
      }
      var stamped: seq<MoleculeDoc> := [];
      var i := 0;
      while i < |kept|
        invariant 0 <= i <= |kept|
        invariant |stamped| == i
        invariant forall p :: 0 <= p < i ==> stamped[p] == Stamp(kept[p], timestamp.value)
      {
        stamped := stamped + [Stamp(kept[i], timestamp.value)];
        i := i + 1;
      }
      assert stamped == StampAll(kept, timestamp.value);
      molecules := Upsert(molecules, stamped);
      ok := true;
    }
  }
}
