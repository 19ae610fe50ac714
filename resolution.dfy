/**
 * Conflict resolution in make_mol: the candidates are grouped by
 * molecules_key (groups in ascending key order, each in input order), each
 * group is sorted by (quality_score, -1.0 * energy) with reverse=True, and
 * the top candidate wins, or, when its aggregate flag is set, carries every
 * value of the group in that order.
 */
module Resolution {
  import opened Json
  import opened Ids
  import opened Extraction

  // ---------------------------------------------------------------------
  // The ranking key

  /** -1.0 * energy is defined for numbers and for booleans (a Python bool is an int). */
  predicate IsNumber(v: Value) {
    v.Num? || v.Bool?
  }

  /** The numeric value of an energy field that IsNumber accepts. */
  function EnergyNum(v: Value): real {
    match v
    case Num(r) => r
    case Bool(b) => if b then 1.0 else 0.0
    case _ => 0.0
  }

  /** Every candidate's energy can be negated, so the ranking key can be built. */
  predicate Numeric(cs: seq<Candidate>) {
    forall i :: 0 <= i < |cs| ==> IsNumber(cs[i].energy)
  }

  /** The key (quality_score, -1.0 * energy) of a is strictly greater than that of b. */
  predicate Outranks(a: Candidate, b: Candidate) {
    a.quality > b.quality || (a.quality == b.quality && EnergyNum(a.energy) < EnergyNum(b.energy))
  }

  /** a and b have equal sort keys. */
  predicate Ties(a: Candidate, b: Candidate) {
    a.quality == b.quality && EnergyNum(a.energy) == EnergyNum(b.energy)
  }

  /**
   * Position i comes before position j in the output of a stable sort with
   * reverse=True: a strictly greater key, or an equal key and an earlier position.
   */
  predicate Before(g: seq<Candidate>, i: nat, j: nat)
    requires i < |g| && j < |g|
  {
    Outranks(g[i], g[j]) || (Ties(g[i], g[j]) && i < j)
  }

  lemma BeforeIrreflexive(g: seq<Candidate>, i: nat)
    requires i < |g|
    ensures !Before(g, i, i)
  {
  }

  lemma BeforeTransitive(g: seq<Candidate>, i: nat, j: nat, k: nat)
    requires i < |g| && j < |g| && k < |g|
    requires Before(g, i, j) && Before(g, j, k)
    ensures Before(g, i, k)
  {
  }

  lemma BeforeTotal(g: seq<Candidate>, i: nat, j: nat)
    requires i < |g| && j < |g| && i != j
    ensures Before(g, i, j) || Before(g, j, i)
  {
  }

  /** order lists positions of g in the order Before. */
  predicate RankSorted(g: seq<Candidate>, order: seq<nat>) {
    (forall p :: 0 <= p < |order| ==> order[p] < |g|) &&
    (forall p, q :: 0 <= p < q < |order| ==> Before(g, order[p], order[q]))
  }

  /** order is the output of the stable descending sort of g, as positions of g. */
  ghost predicate IsRanking(g: seq<Candidate>, order: seq<nat>) {
    |order| == |g| && RankSorted(g, order) && forall x: nat :: x in order <==> x < |g|
  }

  /** Putting i in front keeps the order sorted when i comes before the first element. */
  lemma PrependSorted(g: seq<Candidate>, i: nat, order: seq<nat>)
    requires i < |g| && RankSorted(g, order)
    requires order != [] ==> Before(g, i, order[0])
    ensures RankSorted(g, [i] + order)
  {
    var r := [i] + order;
    forall q | 1 <= q < |r| ensures Before(g, i, r[q]) {
      if q > 1 {
        BeforeTransitive(g, i, order[0], order[q - 1]);
      }
    }
  }

  /** One step of insertion sort: i, later than every position in order, goes to its place. */
  function Insert(g: seq<Candidate>, order: seq<nat>, i: nat): (r: seq<nat>)
    requires i < |g| && RankSorted(g, order)
    requires forall p :: 0 <= p < |order| ==> order[p] < i
    ensures |r| == |order| + 1 && RankSorted(g, r)
    ensures forall x :: x in r <==> x in order || x == i
  {
    if order == [] then [i]
    else if Before(g, order[0], i) then
      var rest := Insert(g, order[1..], i);
      assert forall x :: x in order[1..] ==> x in order;
      PrependSorted(g, order[0], rest);
      [order[0]] + rest
    else
      BeforeTotal(g, order[0], i);
      PrependSorted(g, i, order);
      [i] + order
  }

  /** The stable descending sort of the first n candidates of g. */
  function RankedUpTo(g: seq<Candidate>, n: nat): (r: seq<nat>)
    requires n <= |g|
    ensures |r| == n && RankSorted(g, r)
    ensures forall x: nat :: x in r <==> x < n
  {
    if n == 0 then []
    else
      var r0 := RankedUpTo(g, n - 1);
      assert forall p :: 0 <= p < |r0| ==> r0[p] in r0;
      Insert(g, r0, n - 1)
  }

  /** The ranking of make_mol, as positions of g: higher quality first, then lower energy, equal candidates keeping their order. */
  function Ranked(g: seq<Candidate>): seq<nat> {
    RankedUpTo(g, |g|)
  }

  lemma RankedIsRanking(g: seq<Candidate>)
    ensures IsRanking(g, Ranked(g))
  {
  }

  /** The stable descending order is unique: any two rankings of g agree. */
  lemma {:induction false} RankingUnique(g: seq<Candidate>, a: seq<nat>, b: seq<nat>)
    requires RankSorted(g, a) && RankSorted(g, b)
    requires forall x :: x in a <==> x in b
    ensures a == b
    decreases |a|
  {
    if a != [] {
      assert a[0] in a;
    }
    if b != [] {
      assert b[0] in b;
    }
    if a != [] && b != [] {
      if a[0] != b[0] {
        assert b[0] in b && a[0] in a;
        var p :| 0 <= p < |a| && a[p] == b[0];
        var q :| 0 <= q < |b| && b[q] == a[0];
        BeforeTransitive(g, a[0], b[0], a[0]);
        BeforeIrreflexive(g, a[0]);
        assert false;
      }
      forall x ensures x in a[1..] <==> x in b[1..] {
        if x in a[1..] {
          var p :| 1 <= p < |a| && a[p] == x;
          BeforeIrreflexive(g, a[0]);
          assert x in b;
        }
        if x in b[1..] {
          var q :| 1 <= q < |b| && b[q] == x;
          BeforeIrreflexive(g, b[0]);
          assert x in a;
        }
      }
      RankingUnique(g, a[1..], b[1..]);
    }
  }

  /** Position k is the candidate a stable descending sort puts first. */
  predicate IsBest(g: seq<Candidate>, k: nat)
    requires k < |g|
  {
    forall j :: 0 <= j < |g| && j != k ==> Before(g, k, j)
  }

  /** The first position of a ranking is the winner. */
  lemma RankingFirstIsBest(g: seq<Candidate>, order: seq<nat>)
    requires |g| > 0 && IsRanking(g, order)
    ensures IsBest(g, order[0])
  {
    forall j | 0 <= j < |g| && j != order[0] ensures Before(g, order[0], j) {
      assert j in order;
      var q :| 0 <= q < |order| && order[q] == j;
    }
  }

  /** The position of sorted_props[0]. */
  function BestIndex(g: seq<Candidate>): (k: nat)
    requires |g| > 0
    ensures k < |g| && IsBest(g, k)
  {
    RankingFirstIsBest(g, Ranked(g));
    Ranked(g)[0]
  }

  /**
   * The winner has the highest quality score; among the candidates with that
   * score it has the lowest energy; among those it is the earliest.
   */
  lemma BestIsHighestQualityLowestEnergy(g: seq<Candidate>, k: nat, j: nat)
    requires k < |g| && IsBest(g, k) && j < |g|
    ensures g[j].quality <= g[k].quality
    ensures g[j].quality == g[k].quality ==> EnergyNum(g[k].energy) <= EnergyNum(g[j].energy)
    ensures Ties(g[j], g[k]) ==> k <= j
  {
    if j != k {
      assert Before(g, k, j);
    }
  }

  /** At most one position is the winner. */
  lemma BestUnique(g: seq<Candidate>, k1: nat, k2: nat)
    requires k1 < |g| && k2 < |g| && IsBest(g, k1) && IsBest(g, k2)
    ensures k1 == k2
  {
    if k1 != k2 {
      assert Before(g, k1, k2) && Before(g, k2, k1);
      BeforeTransitive(g, k1, k2, k1);
    }
  }

  /** Of two candidates with equal quality, the lower energy wins wherever it stands. */
  lemma LowerEnergyBreaksTie(a: Candidate, b: Candidate)
    requires a.quality == b.quality && EnergyNum(a.energy) < EnergyNum(b.energy)
    ensures IsBest([a, b], 0) && IsBest([b, a], 1)
  {
  }

  /** A higher quality score wins whatever the energies. */
  lemma HigherQualityWins(a: Candidate, b: Candidate)
    requires a.quality > b.quality
    ensures IsBest([a, b], 0) && IsBest([b, a], 1)
  {
  }

  /** Of two candidates with equal keys, the earlier one wins, as the stable sort keeps it first. */
  lemma EarlierWinsFullTie(a: Candidate, b: Candidate)
    requires Ties(a, b)
    ensures IsBest([a, b], 0) && IsBest([b, a], 0)
  {
  }

  // ---------------------------------------------------------------------
  // Grouping by molecules_key

  /** The distinct molecules keys of the candidates. */
  function KeySet(cs: seq<Candidate>): set<string> {
    set c | c in cs :: c.key
  }

  /** The candidates with molecules key k, in input order (one group of groupby over the stable sort by key). */
  function Group(cs: seq<Candidate>, k: string): seq<Candidate> {
    if cs == [] then []
    else
      var n := |cs| - 1;
      Group(cs[..n], k) + (if cs[n].key == k then [cs[n]] else [])
  }

  /** A group holds exactly the candidates with its key. */
  lemma {:induction false} GroupMembers(cs: seq<Candidate>, k: string, c: Candidate)
    ensures c in Group(cs, k) <==> c in cs && c.key == k
  {
    if cs != [] {
      var n := |cs| - 1;
      GroupMembers(cs[..n], k, c);
      assert cs == cs[..n] + [cs[n]];
    }
  }

  /** The group of a key that occurs is not empty. */
  lemma GroupNonEmpty(cs: seq<Candidate>, k: string)
    requires k in KeySet(cs)
    ensures |Group(cs, k)| > 0
  {
    var c :| c in cs && c.key == k;
    GroupMembers(cs, k, c);
  }

  predicate Ascending(ks: seq<string>) {
    forall p, q :: 0 <= p < q < |ks| ==> StrLess(ks[p], ks[q])
  }

  lemma PrependAscending(k: string, ks: seq<string>)
    requires Ascending(ks)
    requires ks != [] ==> StrLess(k, ks[0])
    ensures Ascending([k] + ks)
  {
    var r := [k] + ks;
    forall q | 1 <= q < |r| ensures StrLess(k, r[q]) {
      if q > 1 {
        StrLessTransitive(k, ks[0], ks[q - 1]);
      }
    }
  }

  /** Adds k to an ascending list of distinct keys. */
  function InsertKey(ks: seq<string>, k: string): (r: seq<string>)
    requires Ascending(ks)
    ensures Ascending(r)
    ensures forall x :: x in r <==> x in ks || x == k
  {
    if ks == [] then [k]
    else if ks[0] == k then ks
    else if StrLess(ks[0], k) then
      var rest := InsertKey(ks[1..], k);
      assert forall x :: x in ks[1..] ==> x in ks;
      PrependAscending(ks[0], rest);
      [ks[0]] + rest
    else
      StrLessTotal(ks[0], k);
      PrependAscending(k, ks);
      [k] + ks
  }

  /** The keys of the groups, in the order groupby produces them. */
  function SortedKeys(cs: seq<Candidate>): (ks: seq<string>)
    ensures Ascending(ks)
    ensures forall x :: x in ks <==> x in KeySet(cs)
  {
    if cs == [] then []
    else
      var n := |cs| - 1;
      var r := InsertKey(SortedKeys(cs[..n]), cs[n].key);
      assert cs == cs[..n] + [cs[n]];
      assert forall x :: x in KeySet(cs) <==> x in KeySet(cs[..n]) || x == cs[n].key;
      r
  }

  /** An ascending key list has no duplicates. */
  lemma AscendingDistinct(ks: seq<string>, p: int, q: int)
    requires Ascending(ks) && 0 <= p < |ks| && 0 <= q < |ks| && ks[p] == ks[q]
    ensures p == q
  {
    if p < q {
      StrLessIrreflexive(ks[p]);
    } else if q < p {
      StrLessIrreflexive(ks[q]);
    }
  }

  // ---------------------------------------------------------------------
  // Winners

  /** The value written for a key: one candidate's value, or the list of all of them. */
  datatype PropValue = Single(v: Value) | Aggregated(vs: seq<Value>)

  /** An entry of best_props after the in-place updates of the aggregate branch. */
  datatype Winner = Winner(
    key: string,
    value: PropValue,
    track: bool,
    taskType: TaskType,
    taskId: RawId,
    lastUpdated: int)

  /** The aggregated value of make_mol: the values of the candidates in ranking order. */
  function ValuesInOrder(g: seq<Candidate>, order: seq<nat>): (vs: seq<Value>)
    requires forall p :: 0 <= p < |order| ==> order[p] < |g|
    ensures |vs| == |order|
    ensures forall p :: 0 <= p < |order| ==> vs[p] == g[order[p]].value
  {
    seq(|order|, p requires 0 <= p < |order| => g[order[p]].value)
  }

  /** The entry of best_props for one group. */
  function Resolve(g: seq<Candidate>): Winner
    requires |g| > 0
  {
    var order := Ranked(g);
    var top := g[order[0]];
    if top.aggregate then
      Winner(top.key, Aggregated(ValuesInOrder(g, order)), false, top.taskType, top.taskId, top.lastUpdated)
    else
      Winner(top.key, Single(top.value), top.track, top.taskType, top.taskId, top.lastUpdated)
  }

  /** The winner of a group is its best candidate, with that candidate's metadata. */
  lemma ResolvePicksBest(g: seq<Candidate>, k: nat)
    requires k < |g| && IsBest(g, k)
    ensures var w := Resolve(g);
            w.key == g[k].key && w.taskType == g[k].taskType && w.taskId == g[k].taskId &&
            w.lastUpdated == g[k].lastUpdated &&
            (!g[k].aggregate ==> w.value == Single(g[k].value) && w.track == g[k].track) &&
            (g[k].aggregate ==> w.value.Aggregated? && !w.track)
  {
    BestUnique(g, k, BestIndex(g));
  }

  /**
   * An aggregated key carries every value of its group, as many as there are
   * candidates, in the unique stable descending order of (quality, -energy).
   */
  lemma ResolveAggregated(g: seq<Candidate>, order: seq<nat>)
    requires |g| > 0 && IsRanking(g, order) && g[order[0]].aggregate
    ensures Resolve(g).value.Aggregated?
    ensures |Resolve(g).value.vs| == |g|
    ensures forall p :: 0 <= p < |g| ==> Resolve(g).value.vs[p] == g[order[p]].value
    ensures forall p, q :: 0 <= p < q < |g| ==> !Outranks(g[order[q]], g[order[p]])
  {
    RankingUnique(g, order, Ranked(g));
  }

  /** best_props: one winner per group, in ascending key order. */
  function BestProps(cs: seq<Candidate>): (best: seq<Winner>)
    ensures |best| == |SortedKeys(cs)|
  {
    var ks := SortedKeys(cs);
    seq(|ks|, p requires 0 <= p < |ks| =>
      GroupNonEmpty(cs, ks[p]);
      Resolve(Group(cs, ks[p])))
  }

  /** The p-th winner is the winner of the p-th group. */
  lemma BestPropsAt(cs: seq<Candidate>, p: nat)
    requires p < |SortedKeys(cs)|
    ensures |Group(cs, SortedKeys(cs)[p])| > 0
    ensures BestProps(cs)[p] == Resolve(Group(cs, SortedKeys(cs)[p]))
  {
    GroupNonEmpty(cs, SortedKeys(cs)[p]);
  }

  /** Each winner carries the key of the group it was chosen from. */
  lemma {:induction false} ResolveKeepsKey(cs: seq<Candidate>, k: string)
    requires k in KeySet(cs)
    ensures |Group(cs, k)| > 0 && Resolve(Group(cs, k)).key == k
  {
    GroupNonEmpty(cs, k);
    var g := Group(cs, k);
    var top := g[Ranked(g)[0]];
    assert top in g;
    GroupMembers(cs, k, top);
  }

  /** best_props has exactly one entry per distinct molecules key, in ascending key order. */
  lemma BestPropsOnePerKey(cs: seq<Candidate>)
    ensures |BestProps(cs)| == |SortedKeys(cs)|
    ensures forall p :: 0 <= p < |BestProps(cs)| ==> BestProps(cs)[p].key == SortedKeys(cs)[p]
    ensures forall p :: 0 <= p < |BestProps(cs)| ==>
              |Group(cs, SortedKeys(cs)[p])| > 0 && BestProps(cs)[p] == Resolve(Group(cs, SortedKeys(cs)[p]))
    ensures forall k :: k in KeySet(cs) <==> exists p :: 0 <= p < |BestProps(cs)| && BestProps(cs)[p].key == k
    ensures forall p, q :: 0 <= p < q < |BestProps(cs)| ==> StrLess(BestProps(cs)[p].key, BestProps(cs)[q].key)
  {
    var ks := SortedKeys(cs);
    var best := BestProps(cs);
    forall p | 0 <= p < |best| ensures |Group(cs, ks[p])| > 0 && best[p] == Resolve(Group(cs, ks[p])) && best[p].key == ks[p] {
      BestPropsAt(cs, p);
      ResolveKeepsKey(cs, ks[p]);
    }
    forall k | k in KeySet(cs) ensures exists p :: 0 <= p < |best| && best[p].key == k {
      var p :| 0 <= p < |ks| && ks[p] == k;
      assert best[p].key == k;
    }
  }
}
