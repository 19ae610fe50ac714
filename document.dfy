/**
 * The molecule record make_mol builds from one task group, and the output
 * side of the builder: valid, the _bt stamp and the upsert into the
 * molecules store.
 */
module Document {
  import opened Wrappers
  import opened Json
  import opened Ids
  import opened Extraction
  import opened Resolution

  /** A provenance record: molecules_key, task_type, task_id and last_updated of a tracked winner. */
  datatype Origin = Origin(key: string, taskType: TaskType, taskId: RawId, lastUpdated: int)

  /**
   * A molecule record. The metadata fields are apart from the property
   * values, which set_ writes at their molecules key; builtAt is the _bt
   * stamp that update_targets adds.
   */
  datatype MoleculeDoc = MoleculeDoc(
    id: RawId,
    lastUpdated: int,
    createdAt: int,
    taskIds: seq<RawId>,
    origins: seq<Origin>,
    taskTypes: map<RawId, TaskType>,
    props: map<string, PropValue>,
    builtAt: Option<int>)

  /**
   * Why make_mol raised: no molecule id could be chosen, an energy is not a
   * number, a task id cannot be put in a set (the TypeError of task_ids), or,
   * as written, the undefined name of the structure metadata call.
   */
  datatype MolError = BadId(e: IdError) | EnergyNotNumeric | UnhashableId | UndefinedName

  // ---------------------------------------------------------------------
  // origins

  function OriginOf(w: Winner): Origin {
    Origin(w.key, w.taskType, w.taskId, w.lastUpdated)
  }

  /** One origin per tracked winner, in the order of best_props. */
  function Origins(best: seq<Winner>): seq<Origin> {
    if best == [] then []
    else
      var n := |best| - 1;
      Origins(best[..n]) + (if best[n].track then [OriginOf(best[n])] else [])
  }

  /** An origin is recorded exactly for each tracked winner. */
  lemma {:induction false} OriginsExact(best: seq<Winner>, o: Origin)
    ensures o in Origins(best) <==> exists p :: 0 <= p < |best| && best[p].track && o == OriginOf(best[p])
  {
    if best != [] {
      var n := |best| - 1;
      OriginsExact(best[..n], o);
      assert forall p :: 0 <= p < n ==> best[..n][p] == best[p];
      if o in Origins(best[..n]) {
        var p :| 0 <= p < n && best[..n][p].track && o == OriginOf(best[..n][p]);
        assert best[p].track && o == OriginOf(best[p]);
      }
    }
  }

  /** Origins keep the order of the winners they come from. */
  lemma {:induction false} OriginsAscending(best: seq<Winner>)
    requires forall p, q :: 0 <= p < q < |best| ==> StrLess(best[p].key, best[q].key)
    ensures forall p, q :: 0 <= p < q < |Origins(best)| ==> StrLess(Origins(best)[p].key, Origins(best)[q].key)
  {
    if best != [] {
      var n := |best| - 1;
      OriginsAscending(best[..n]);
      var init := Origins(best[..n]);
      var os := Origins(best);
      if best[n].track {
        forall p | 0 <= p < |init| ensures StrLess(init[p].key, best[n].key) {
          OriginsExact(best[..n], init[p]);
          assert init[p] in init;
          var r :| 0 <= r < n && best[..n][r].track && init[p] == OriginOf(best[..n][r]);
          assert best[..n][r] == best[r];
        }
        assert forall p :: 0 <= p < |init| ==> os[p] == init[p];
      }
    }
  }

  /**
   * The origins of a molecule: exactly one per key whose winner is tracked,
   * in ascending key order; an aggregated key never gets one.
   */
  lemma OriginsOnePerTrackedKey(cs: seq<Candidate>, k: string)
    ensures var os := Origins(BestProps(cs));
            (forall p, q :: 0 <= p < q < |os| ==> StrLess(os[p].key, os[q].key)) &&
            ((exists o :: o in os && o.key == k) <==>
               k in KeySet(cs) && |Group(cs, k)| > 0 && Resolve(Group(cs, k)).track)
  {
    var best := BestProps(cs);
    var ks := SortedKeys(cs);
    BestPropsOnePerKey(cs);
    OriginsAscending(best);
    var os := Origins(best);
    if o :| o in os && o.key == k {
      OriginsExact(best, o);
      var p :| 0 <= p < |best| && best[p].track && o == OriginOf(best[p]);
      BestPropsAt(cs, p);
    }
    if k in KeySet(cs) && |Group(cs, k)| > 0 && Resolve(Group(cs, k)).track {
      var p :| 0 <= p < |ks| && ks[p] == k;
      BestPropsAt(cs, p);
      OriginsExact(best, OriginOf(best[p]));
    }
  }

  /** An aggregated winner is untracked, so it has no origin. */
  lemma AggregatedHasNoOrigin(g: seq<Candidate>)
    requires |g| > 0 && g[BestIndex(g)].aggregate
    ensures !Resolve(g).track && Resolve(g).value.Aggregated?
  {
    ResolvePicksBest(g, BestIndex(g));
  }

  // ---------------------------------------------------------------------
  // task_ids, task_types and the timestamp bounds

  /** The task ids of a task group. */
  function GroupIds(group: seq<Task>): (ids: seq<RawId>)
    ensures |ids| == |group| && forall i :: 0 <= i < |group| ==> ids[i] == group[i].id
  {
    seq(|group|, i requires 0 <= i < |group| => group[i].id)
  }

  /** The task ids of the candidates, in candidate order. */
  function CandidateIds(cs: seq<Candidate>): (ids: seq<RawId>)
    ensures |ids| == |cs| && forall i :: 0 <= i < |cs| ==> ids[i] == cs[i].taskId
  {
    seq(|cs|, i requires 0 <= i < |cs| => cs[i].taskId)
  }

  /** Every id of the list is hashable, so Python can build a set of them. */
  predicate AllHashable(ids: seq<RawId>) {
    forall i :: 0 <= i < |ids| ==> Hashable(ids[i])
  }

  /** The task_ids of make_mol: each id once (this model keeps first occurrences; Python leaves the order open). */
  function Distinct(ids: seq<RawId>): seq<RawId> {
    if ids == [] then []
    else
      var n := |ids| - 1;
      var init := Distinct(ids[..n]);
      if ids[n] in init then init else init + [ids[n]]
  }

  /** Distinct has no duplicates and holds exactly the ids it was given. */
  lemma {:induction false} DistinctSpec(ids: seq<RawId>)
    ensures forall i, j :: 0 <= i < j < |Distinct(ids)| ==> Distinct(ids)[i] != Distinct(ids)[j]
    ensures forall x :: x in Distinct(ids) <==> x in ids
  {
    if ids != [] {
      var n := |ids| - 1;
      DistinctSpec(ids[..n]);
      assert ids == ids[..n] + [ids[n]];
    }
  }

  /** The task_types map of make_mol: each candidate's task id mapped to its task type, a later candidate overwriting an earlier one. */
  function TaskTypes(cs: seq<Candidate>): map<RawId, TaskType> {
    if cs == [] then map[]
    else
      var n := |cs| - 1;
      TaskTypes(cs[..n])[cs[n].taskId := cs[n].taskType]
  }

  /** task_types maps exactly the candidates' task ids. */
  lemma {:induction false} TaskTypesDomain(cs: seq<Candidate>, id: RawId)
    ensures id in TaskTypes(cs) <==> exists p :: 0 <= p < |cs| && cs[p].taskId == id
  {
    if cs != [] {
      var n := |cs| - 1;
      TaskTypesDomain(cs[..n], id);
      assert forall p :: 0 <= p < n ==> cs[..n][p] == cs[p];
    }
  }

  /** The entry for an id is the type of the last candidate with that id. */
  lemma {:induction false} TaskTypesLast(cs: seq<Candidate>, p: nat)
    requires p < |cs| && forall q :: p < q < |cs| ==> cs[q].taskId != cs[p].taskId
    ensures cs[p].taskId in TaskTypes(cs) && TaskTypes(cs)[cs[p].taskId] == cs[p].taskType
  {
    var n := |cs| - 1;
    if p < n {
      TaskTypesLast(cs[..n], p);
    }
  }

  /** The last position of a candidate with the given task id. */
  function LastCandidate(cs: seq<Candidate>, id: RawId): (p: nat)
    requires exists p :: 0 <= p < |cs| && cs[p].taskId == id
    ensures p < |cs| && cs[p].taskId == id && forall q :: p < q < |cs| ==> cs[q].taskId != id
  {
    var n := |cs| - 1;
    if cs[n].taskId == id then n
    else
      assert exists p :: 0 <= p < n && cs[..n][p].taskId == id by {
        var p :| 0 <= p < |cs| && cs[p].taskId == id;
        assert cs[..n][p] == cs[p];
      }
      LastCandidate(cs[..n], id)
  }

  /** Every task_types entry maps a task id of the group to the type the classifier gives that task. */
  lemma TaskTypesOfGroup(group: seq<Task>, rules: seq<Rule>, classify: Value -> TaskType, id: RawId)
    requires id in TaskTypes(AllProps(group, rules, classify))
    ensures exists t :: t in group && t.id == id && TaskTypes(AllProps(group, rules, classify))[id] == classify(t.orig)
  {
    var cs := AllProps(group, rules, classify);
    TaskTypesDomain(cs, id);
    var p := LastCandidate(cs, id);
    TaskTypesLast(cs, p);
    AllPropsFromGroup(group, rules, classify);
    assert cs[p] in cs;
  }

  /** created_at of make_mol: the earliest last_updated of any candidate. */
  function Earliest(cs: seq<Candidate>): (m: int)
    requires |cs| > 0
    ensures exists i :: 0 <= i < |cs| && cs[i].lastUpdated == m
    ensures forall i :: 0 <= i < |cs| ==> m <= cs[i].lastUpdated
  {
    if |cs| == 1 then cs[0].lastUpdated
    else
      var n := |cs| - 1;
      var m0 := Earliest(cs[..n]);
      assert forall i :: 0 <= i < n ==> cs[..n][i] == cs[i];
      if cs[n].lastUpdated < m0 then cs[n].lastUpdated else m0
  }

  /** last_updated of make_mol: the latest last_updated of any candidate. */
  function Latest(cs: seq<Candidate>): (m: int)
    requires |cs| > 0
    ensures exists i :: 0 <= i < |cs| && cs[i].lastUpdated == m
    ensures forall i :: 0 <= i < |cs| ==> cs[i].lastUpdated <= m
  {
    if |cs| == 1 then cs[0].lastUpdated
    else
      var n := |cs| - 1;
      var m0 := Latest(cs[..n]);
      assert forall i :: 0 <= i < n ==> cs[..n][i] == cs[i];
      if cs[n].lastUpdated > m0 then cs[n].lastUpdated else m0
  }

  /** created_at never exceeds the last_updated field. */
  lemma CreatedNotAfterUpdated(cs: seq<Candidate>)
    requires |cs| > 0
    ensures Earliest(cs) <= Latest(cs)
  {
    assert Earliest(cs) <= cs[0].lastUpdated <= Latest(cs);
  }

  // ---------------------------------------------------------------------
  // Writing the winners

  /** The property map make_mol writes: each winner's value stored under its key, in turn, a later write replacing an earlier one. */
  function PropsOf(best: seq<Winner>): map<string, PropValue> {
    if best == [] then map[]
    else
      var n := |best| - 1;
      PropsOf(best[..n])[best[n].key := best[n].value]
  }

  /** With distinct keys every winner's value is found at its key, and nothing else is written. */
  lemma {:induction false} PropsOfDistinct(best: seq<Winner>)
    requires forall p, q :: 0 <= p < q < |best| ==> best[p].key != best[q].key
    ensures forall k :: k in PropsOf(best) <==> exists p :: 0 <= p < |best| && best[p].key == k
    ensures forall p :: 0 <= p < |best| ==> PropsOf(best)[best[p].key] == best[p].value
  {
    if best != [] {
      var n := |best| - 1;
      PropsOfDistinct(best[..n]);
      assert forall p :: 0 <= p < n ==> best[..n][p] == best[p];
    }
  }

  // ---------------------------------------------------------------------
  // make_mol

  /** The molecule record of a group whose candidates have a molecule id. */
  function BuildDoc(group: seq<Task>, cs: seq<Candidate>, id: RawId): MoleculeDoc
    requires |cs| > 0
  {
    var best := BestProps(cs);
    MoleculeDoc(id, Latest(cs), Earliest(cs), Distinct(GroupIds(group)), Origins(best), TaskTypes(cs), PropsOf(best), None)
  }

  /**
   * make_mol on one task group: the record, or the error the source raises
   * first (an id that does not parse, ids of both kinds, no candidate, an
   * energy that is not a number, a task id of the group that cannot be hashed).
   */
  function Assemble(group: seq<Task>, rules: seq<Rule>, classify: Value -> TaskType): Result<MoleculeDoc, MolError> {
    var cs := AllProps(group, rules, classify);
    match MolId(CandidateIds(cs))
    case Err(e) => Err(BadId(e))
    case Ok(id) =>
      if !Numeric(cs) then Err(EnergyNotNumeric)
      else if !AllHashable(GroupIds(group)) then Err(UnhashableId)
      else Ok(BuildDoc(group, cs, id))
  }

  /**
   * make_mol fails exactly when the id cannot be chosen, an energy is not a
   * number, or some task id of the group (a candidate's or not) is unhashable,
   * in that order.
   */
  lemma AssembleErrors(group: seq<Task>, rules: seq<Rule>, classify: Value -> TaskType)
    ensures var cs := AllProps(group, rules, classify);
            var ids := CandidateIds(cs);
            var r := Assemble(group, rules, classify);
            (cs == [] ==> r == Err(BadId(NoCandidates))) &&
            (!AllParse(ids) ==> r == Err(BadId(Unparsable(ids[FirstUnparsable(ids)])))) &&
            (AllParse(ids) && !Comparable(KeysOf(ids)) ==> r == Err(BadId(Incomparable))) &&
            (MolId(ids).Ok? && !Numeric(cs) ==> r == Err(EnergyNotNumeric)) &&
            (MolId(ids).Ok? && Numeric(cs) && !AllHashable(GroupIds(group)) ==> r == Err(UnhashableId)) &&
            (r.Ok? <==> cs != [] && AllParse(ids) && Comparable(KeysOf(ids)) && Numeric(cs) && AllHashable(GroupIds(group)))
  {
  }

  /** The id of the record is the task id of a candidate no other candidate precedes under ID_to_int. */
  lemma AssembleId(group: seq<Task>, rules: seq<Rule>, classify: Value -> TaskType)
    requires Assemble(group, rules, classify).Ok?
    ensures var cs := AllProps(group, rules, classify);
            var ids := CandidateIds(cs);
            AllParse(ids) &&
            exists k :: 0 <= k < |cs| && IsFirstMin(KeysOf(ids), k) && Assemble(group, rules, classify).value.id == cs[k].taskId
  {
  }

  /**
   * The metadata of the record: created_at and last_updated bound every
   * candidate's last_updated and are attained, task_ids lists each task of
   * the group once.
   */
  lemma AssembleMetadata(group: seq<Task>, rules: seq<Rule>, classify: Value -> TaskType)
    requires Assemble(group, rules, classify).Ok?
    ensures var cs := AllProps(group, rules, classify);
            var d := Assemble(group, rules, classify).value;
            d.createdAt <= d.lastUpdated &&
            (forall i :: 0 <= i < |cs| ==> d.createdAt <= cs[i].lastUpdated <= d.lastUpdated) &&
            (exists i :: 0 <= i < |cs| && cs[i].lastUpdated == d.createdAt) &&
            (exists i :: 0 <= i < |cs| && cs[i].lastUpdated == d.lastUpdated) &&
            (forall i, j :: 0 <= i < j < |d.taskIds| ==> d.taskIds[i] != d.taskIds[j]) &&
            (forall x :: x in d.taskIds <==> exists t :: t in group && t.id == x) &&
            d.taskTypes == TaskTypes(cs) && d.builtAt == None
  {
    var cs := AllProps(group, rules, classify);
    var id := MolId(CandidateIds(cs)).value;
    assert Assemble(group, rules, classify).value == BuildDoc(group, cs, id);
    BuildDocMetadata(group, cs, id);
  }

  lemma BuildDocMetadata(group: seq<Task>, cs: seq<Candidate>, id: RawId)
    requires |cs| > 0
    ensures var d := BuildDoc(group, cs, id);
            d.createdAt <= d.lastUpdated &&
            (forall i :: 0 <= i < |cs| ==> d.createdAt <= cs[i].lastUpdated <= d.lastUpdated) &&
            (exists i :: 0 <= i < |cs| && cs[i].lastUpdated == d.createdAt) &&
            (exists i :: 0 <= i < |cs| && cs[i].lastUpdated == d.lastUpdated) &&
            (forall i, j :: 0 <= i < j < |d.taskIds| ==> d.taskIds[i] != d.taskIds[j]) &&
            (forall x :: x in d.taskIds <==> exists t :: t in group && t.id == x) &&
            d.taskTypes == TaskTypes(cs) && d.builtAt == None
  {
    CreatedNotAfterUpdated(cs);
    GroupIdsDistinct(group);
    assert BuildDoc(group, cs, id).taskIds == Distinct(GroupIds(group));
  }

  /** task_ids lists each task id of the group once. */
  lemma GroupIdsDistinct(group: seq<Task>)
    ensures forall i, j :: 0 <= i < j < |Distinct(GroupIds(group))| ==> Distinct(GroupIds(group))[i] != Distinct(GroupIds(group))[j]
    ensures forall x :: x in Distinct(GroupIds(group)) <==> exists t :: t in group && t.id == x
  {
    DistinctSpec(GroupIds(group));
    forall x ensures x in GroupIds(group) <==> exists t :: t in group && t.id == x {
      if t :| t in group && t.id == x {
        var i :| 0 <= i < |group| && group[i] == t;
        assert GroupIds(group)[i] == x;
      }
    }
  }

  /**
   * The properties of the record: exactly the keys of the candidates, each
   * holding the value its group resolves to; the origins are those of the
   * tracked winners.
   */
  lemma AssembleProps(group: seq<Task>, rules: seq<Rule>, classify: Value -> TaskType, k: string)
    requires Assemble(group, rules, classify).Ok?
    ensures var cs := AllProps(group, rules, classify);
            var d := Assemble(group, rules, classify).value;
            (k in d.props <==> k in KeySet(cs)) &&
            (k in d.props ==> |Group(cs, k)| > 0 && d.props[k] == Resolve(Group(cs, k)).value) &&
            d.origins == Origins(BestProps(cs))
  {
    var cs := AllProps(group, rules, classify);
    var best := BestProps(cs);
    var ks := SortedKeys(cs);
    BestPropsOnePerKey(cs);
    forall p, q | 0 <= p < q < |best| ensures best[p].key != best[q].key {
      if best[p].key == best[q].key {
        AscendingDistinct(ks, p, q);
      }
    }
    PropsOfDistinct(best);
    if k in PropsOf(best) {
      var p :| 0 <= p < |best| && best[p].key == k;
      BestPropsAt(cs, p);
    }
  }

  // ---------------------------------------------------------------------
  // valid and update_targets

  /** valid(doc): the record has a structure. */
  predicate IsValid(doc: MoleculeDoc) {
    "structure" in doc.props
  }

  /** A record made by make_mol is valid exactly when some candidate supplies the structure key. */
  lemma AssembleValid(group: seq<Task>, rules: seq<Rule>, classify: Value -> TaskType)
    requires Assemble(group, rules, classify).Ok?
    ensures IsValid(Assemble(group, rules, classify).value) <==> "structure" in KeySet(AllProps(group, rules, classify))
  {
    AssembleProps(group, rules, classify, "structure");
  }

  /**
   * make_mol as written: a record holding a structure goes on to
   * structure_metadata(structure), whose argument names no variable, so it
   * raises a NameError instead of returning.
   */
  function AssembleAsWritten(group: seq<Task>, rules: seq<Rule>, classify: Value -> TaskType): Result<MoleculeDoc, MolError> {
    match Assemble(group, rules, classify)
    case Ok(d) => if "structure" in d.props then Err(UndefinedName) else Ok(d)
    case Err(e) => Err(e)
  }

  /**
   * As written, make_mol never returns a valid record: exactly the groups that
   * would give one (a candidate for the structure key) raise instead.
   */
  lemma AsWrittenNeverValid(group: seq<Task>, rules: seq<Rule>, classify: Value -> TaskType)
    ensures AssembleAsWritten(group, rules, classify).Ok? ==> !IsValid(AssembleAsWritten(group, rules, classify).value)
    ensures Assemble(group, rules, classify).Ok? && "structure" in KeySet(AllProps(group, rules, classify)) ==>
              AssembleAsWritten(group, rules, classify) == Err(UndefinedName)
  {
    if Assemble(group, rules, classify).Ok? {
      AssembleValid(group, rules, classify);
    }
  }

  /** So with only such records to work on, update_targets keeps none and writes nothing. */
  lemma NoValidRecordWritesNothing(items: seq<seq<Option<MoleculeDoc>>>)
    requires forall i, x :: 0 <= i < |items| && Some(x) in items[i] ==> !IsValid(x)
    ensures Kept(Flatten(items)) == []
  {
    var kept := Kept(Flatten(items));
    if kept != [] {
      assert kept[0] in kept;
      KeptExactly(Flatten(items), kept[0]);
      FlattenMembers(items, Some(kept[0]));
    }
  }

  /** The item lists of update_targets joined into one list, in order. */
  function Flatten(items: seq<seq<Option<MoleculeDoc>>>): seq<Option<MoleculeDoc>> {
    if items == [] then [] else Flatten(items[..|items| - 1]) + items[|items| - 1]
  }

  /** The records update_targets keeps: the present ones that are valid, in order. */
  function Kept(docs: seq<Option<MoleculeDoc>>): seq<MoleculeDoc> {
    if docs == [] then []
    else
      var n := |docs| - 1;
      Kept(docs[..n]) + (if docs[n].Some? && IsValid(docs[n].value) then [docs[n].value] else [])
  }

  /** A record with its build time (_bt) set to the pass timestamp, as update_targets does. */
  function Stamp(doc: MoleculeDoc, t: int): MoleculeDoc {
    doc.(builtAt := Some(t))
  }

  /** Every kept record stamped with t, in order. */
  function StampAll(docs: seq<MoleculeDoc>, t: int): (r: seq<MoleculeDoc>)
    ensures |r| == |docs|
    ensures forall i :: 0 <= i < |docs| ==> r[i] == Stamp(docs[i], t)
  {
    seq(|docs|, i requires 0 <= i < |docs| => Stamp(docs[i], t))
  }

  /** A record is kept exactly when it is present and valid. */
  lemma {:induction false} KeptExactly(docs: seq<Option<MoleculeDoc>>, d: MoleculeDoc)
    ensures d in Kept(docs) <==> Some(d) in docs && IsValid(d)
  {
    if docs != [] {
      var n := |docs| - 1;
      KeptExactly(docs[..n], d);
      assert docs == docs[..n] + [docs[n]];
    }
  }

  /** A flattened entry comes from one of the item lists. */
  lemma {:induction false} FlattenMembers(items: seq<seq<Option<MoleculeDoc>>>, x: Option<MoleculeDoc>)
    ensures x in Flatten(items) <==> exists i :: 0 <= i < |items| && x in items[i]
  {
    if items != [] {
      var n := |items| - 1;
      FlattenMembers(items[..n], x);
      assert forall i :: 0 <= i < n ==> items[..n][i] == items[i];
    }
  }

  /**
   * The records update_targets writes are exactly the present, valid records
   * of any item list, each stamped with the pass timestamp.
   */
  lemma WrittenExactly(items: seq<seq<Option<MoleculeDoc>>>, t: int, d: MoleculeDoc)
    ensures d in StampAll(Kept(Flatten(items)), t) <==>
            exists i, e :: 0 <= i < |items| && Some(e) in items[i] && IsValid(e) && d == Stamp(e, t)
  {
    var kept := Kept(Flatten(items));
    var w := StampAll(kept, t);
    if d in w {
      var j :| 0 <= j < |w| && w[j] == d;
      assert kept[j] in kept;
      KeptExactly(Flatten(items), kept[j]);
      FlattenMembers(items, Some(kept[j]));
    }
    if exists i, e :: 0 <= i < |items| && Some(e) in items[i] && IsValid(e) && d == Stamp(e, t) {
      var i, e :| 0 <= i < |items| && Some(e) in items[i] && IsValid(e) && d == Stamp(e, t);
      FlattenMembers(items, Some(e));
      KeptExactly(Flatten(items), e);
      var j :| 0 <= j < |kept| && kept[j] == e;
      assert w[j] == d;
    }
  }

  /** The molecules store after an update keyed on the molecule id: a later record replaces an earlier one. */
  function Upsert(store: map<RawId, MoleculeDoc>, docs: seq<MoleculeDoc>): map<RawId, MoleculeDoc> {
    if docs == [] then store
    else
      var n := |docs| - 1;
      Upsert(store, docs[..n])[docs[n].id := docs[n]]
  }

  /**
   * After the upsert a record id is present when it was before or is
   * written; a written id holds the last record written with it; other
   * records are untouched.
   */
  lemma {:induction false} UpsertSpec(store: map<RawId, MoleculeDoc>, docs: seq<MoleculeDoc>, id: RawId)
    ensures id in Upsert(store, docs) <==> id in store || exists i :: 0 <= i < |docs| && docs[i].id == id
    ensures (forall i :: 0 <= i < |docs| ==> docs[i].id != id) && id in store ==> Upsert(store, docs)[id] == store[id]
    ensures forall i :: 0 <= i < |docs| && docs[i].id == id && (forall j :: i < j < |docs| ==> docs[j].id != id) ==>
              Upsert(store, docs)[id] == docs[i]
  {
    if docs != [] {
      var n := |docs| - 1;
      UpsertSpec(store, docs[..n], id);
      assert forall i :: 0 <= i < n ==> docs[..n][i] == docs[i];
    }
  }

  /** Writing the same records twice leaves the store as writing them once. */
  lemma UpsertIdempotent(store: map<RawId, MoleculeDoc>, docs: seq<MoleculeDoc>)
    ensures Upsert(Upsert(store, docs), docs) == Upsert(store, docs)
  {
    var once := Upsert(store, docs);
    var twice := Upsert(once, docs);
    forall id ensures (id in twice <==> id in once) && (id in once ==> twice[id] == once[id]) {
      UpsertSpec(store, docs, id);
      UpsertSpec(once, docs, id);
      if exists i :: 0 <= i < |docs| && docs[i].id == id {
        ghost var _ := LastWith(docs, id);
      }
    }
  }

  /** The last position of a record with the given id. */
  function LastWith(docs: seq<MoleculeDoc>, id: RawId): (i: nat)
    requires exists i :: 0 <= i < |docs| && docs[i].id == id
    ensures i < |docs| && docs[i].id == id && forall j :: i < j < |docs| ==> docs[j].id != id
  {
    var n := |docs| - 1;
    if docs[n].id == id then n
    else
      assert exists i :: 0 <= i < n && docs[..n][i].id == id by {
        var i :| 0 <= i < |docs| && docs[i].id == id;
        assert docs[..n][i] == docs[i];
      }
      LastWith(docs[..n], id)
  }
}
