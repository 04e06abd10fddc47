/** The impact metrics on disjunctive preconditions. The intersections,
    outcomes, unused and range analyses only ask a precondition to
    `eliminate` a variable and its projections to answer `does_intersect`,
    so they run unchanged on unions of polyhedra; `qused` alone insists on
    a plain polyhedron.

    Each metric is the one over any overlap test, applied to the overlap
    test of the projected unions.
 */
module DisjunctiveImpacts {
  import opened Results
  import opened Polyhedra
  import opened Disjunctive
  import opened Overlap
  import opened Impacts
  import Buckets

  predicate AllDWellFormed(pres: seq<DPoly>) {
    forall k :: 0 <= k < |pres| ==> DWellFormed(pres[k])
  }

  /** `eliminate` on every precondition, in order; the first failure
      raises. */
  function DEliminateAll(pres: seq<DPoly>, v: string, o: Oracle): (r: Result<seq<DPoly>>)
    requires AllDWellFormed(pres)
    ensures r.Err? <==> exists k :: 0 <= k < |pres| && DEliminate(pres[k], v, o).Err?
    ensures r.Ok? ==> |r.value| == |pres| && forall k :: 0 <= k < |pres| ==> DEliminate(pres[k], v, o) == Ok(r.value[k])
  {
    if pres == [] then Ok([])
    else
      var head := DEliminate(pres[0], v, o);
      var rest := DEliminateAll(pres[1..], v, o);
      assert forall j :: 1 <= j < |pres| ==> pres[1..][j - 1] == pres[j];
      if head.Err? then Err(head.msg)
      else if rest.Err? then rest
      else Ok([head.value] + rest.value)
  }

  /** The overlap test on the projected unions, by index. */
  function DOverlapTest(ps: seq<DPoly>, o: Oracle): Test {
    (i: nat, j: nat) => if i < |ps| && j < |ps| then DDoesIntersect(ps[i], ps[j], o) else Ok(false)
  }

  /** Two distinct projected unions overlap when the test says so in
      either order. */
  predicate DOverlaps(ps: seq<DPoly>, o: Oracle, i: nat, j: nat) {
    Joined(|ps|, DOverlapTest(ps, o), i, j)
  }

  /** Two projected unions overlap when they are distinct and
      `DDoesIntersect` answers true in either order. */
  lemma DOverlapsMeaning(ps: seq<DPoly>, o: Oracle, i: nat, j: nat)
    ensures DOverlaps(ps, o, i, j) <==>
      i < |ps| && j < |ps| && i != j
      && (DDoesIntersect(ps[i], ps[j], o) == Ok(true) || DDoesIntersect(ps[j], ps[i], o) == Ok(true))
  {
  }

  /** The projections the analysis works on. */
  function DProjections(pres: seq<DPoly>, target: string, o: Oracle): (ps: seq<DPoly>)
    requires AllDWellFormed(pres) && DEliminateAll(pres, target, o).Ok?
    ensures |ps| == |pres|
  {
    DEliminateAll(pres, target, o).value
  }

  /** The overlap graph of the projected unions. */
  function DGraph(ps: seq<DPoly>, o: Oracle): Result<set<Edge>> {
    Pairs(|ps|, DOverlapTest(ps, o))
  }

  /* --------------------------------------------------------- intersections */

  /** `intersecting_analysis` on unions: eliminate the target everywhere,
      in order, then build the clique map of the projections' overlap
      graph. */
  function DIntersectingAnalysis(pres: seq<DPoly>, target: string, o: Oracle): (r: Result<map<nat, set<set<nat>>>>)
    requires AllDWellFormed(pres)
    ensures r.Err? <==> DEliminateAll(pres, target, o).Err? || DGraph(DEliminateAll(pres, target, o).value, o).Err?
    ensures r.Ok? ==> IsCliqueMapOf(r.value, DGraph(DEliminateAll(pres, target, o).value, o).value, |pres|)
  {
    var ps :- DEliminateAll(pres, target, o);
    CliqueAnalysis(|ps|, DOverlapTest(ps, o))
  }

  /** The keys are exactly the preconditions whose projection overlaps
      another one. */
  lemma DIntersectionsKeys(pres: seq<DPoly>, target: string, o: Oracle, v: nat)
    requires AllDWellFormed(pres) && DIntersectingAnalysis(pres, target, o).Ok?
    ensures v in DIntersectingAnalysis(pres, target, o).value <==>
      exists u: nat :: DOverlaps(DProjections(pres, target, o), o, v, u)
  {
    var ps := DProjections(pres, target, o);
    var edges := DGraph(ps, o).value;
    assert IsCliqueMapOf(DIntersectingAnalysis(pres, target, o).value, edges, |pres|);
    assert v in DIntersectingAnalysis(pres, target, o).value <==> v in Nodes(edges);
    JoinedEdges(|ps|, DOverlapTest(ps, o));
    if v in Nodes(edges) {
      var e :| e in edges && (e.0 == v || e.1 == v);
      assert Joined(|ps|, DOverlapTest(ps, o), e.0, e.1);
      var u: nat := if e.0 == v then e.1 else e.0;
      assert DOverlaps(ps, o, v, u);
    }
    if exists u: nat :: DOverlaps(ps, o, v, u) {
      var u: nat :| DOverlaps(ps, o, v, u);
      assert Adjacent(edges, v, u);
      assert v in Nodes(edges);
    }
  }

  /** `CountIntersectionsAnalysis.run` on unions: every key mapped to the
      size of its largest clique rest, a number in `[1, n)` for `n`
      buckets. */
  function DCountIntersections(pres: seq<DPoly>, target: string, o: Oracle): (r: Result<map<nat, nat>>)
    requires AllDWellFormed(pres)
    ensures r.Err? <==> DIntersectingAnalysis(pres, target, o).Err?
    ensures r.Ok? ==> r.value.Keys == DIntersectingAnalysis(pres, target, o).value.Keys
    ensures r.Ok? ==> forall k :: k in r.value ==> 1 <= r.value[k] < |pres|
  {
    var ps :- DEliminateAll(pres, target, o);
    CountIntersectionsOf(|ps|, DOverlapTest(ps, o))
  }

  /** A bucket's count is one less than the size of the largest maximal
      clique of the overlap graph that contains it. */
  lemma DCountIntersectionsMeaning(pres: seq<DPoly>, target: string, o: Oracle, k: nat)
    requires AllDWellFormed(pres) && DCountIntersections(pres, target, o).Ok?
    requires k in DCountIntersections(pres, target, o).value
    ensures LargestCliqueWith(DGraph(DProjections(pres, target, o), o).value, k,
                              DCountIntersections(pres, target, o).value[k] + 1)
  {
    var ps := DProjections(pres, target, o);
    var m := CliqueAnalysis(|ps|, DOverlapTest(ps, o)).value;
    CountIntersectionsOfMeaning(|ps|, DOverlapTest(ps, o), m, k);
  }

  /* ------------------------------------------------------ outcomes, unused */

  /** `OutcomesAnalysis.run` on unions: 0 exactly when no two projections
      overlap, otherwise below the number of buckets and one less than the
      size of the largest maximal clique of the overlap graph. */
  function DOutcomes(pres: seq<DPoly>, target: string, o: Oracle): (r: Result<nat>)
    requires AllDWellFormed(pres)
    ensures r.Err? <==> DIntersectingAnalysis(pres, target, o).Err?
    ensures r.Ok? ==> DEliminateAll(pres, target, o).Ok?
    ensures r.Ok? ==> OutcomeFor(|pres|, DOverlapTest(DProjections(pres, target, o), o), r.value)
  {
    var ps :- DEliminateAll(pres, target, o);
    OutcomesOf(|ps|, DOverlapTest(ps, o))
  }

  /** `UnusedAnalysis.run` on unions: definitely unused exactly when no two
      projections overlap, always so with at most one bucket. */
  function DUnused(pres: seq<DPoly>, target: string, o: Oracle): (r: Result<SoundOutput>)
    requires AllDWellFormed(pres)
    ensures r.Err? <==> DIntersectingAnalysis(pres, target, o).Err?
    ensures r.Ok? ==> (r.value == DefUnused <==> forall i: nat, j: nat :: !DOverlaps(DProjections(pres, target, o), o, i, j))
    ensures r.Ok? && |pres| <= 1 ==> r.value == DefUnused
  {
    var ps :- DEliminateAll(pres, target, o);
    var r := UnusedOf(|ps|, DOverlapTest(ps, o));
    assert DProjections(pres, target, o) == ps;
    assert r.Ok? ==> (r.value == DefUnused <==> forall i: nat, j: nat :: !DOverlaps(ps, o, i, j)) by {
      assert forall i: nat, j: nat :: DOverlaps(ps, o, i, j) == Joined(|ps|, DOverlapTest(ps, o), i, j);
    }
    r
  }

  /* ----------------------------------------------------------------- range */

  /** `AllRangeAnalysis.run` on unions: for every key, one interval per
      maximal clique containing it, enclosing the ranges of all its
      buckets. */
  function DAllRange(pres: seq<DPoly>, buckets: seq<Buckets.Bucket>, target: string, o: Oracle)
    : (r: Result<map<nat, set<(int, int)>>>)
    requires AllDWellFormed(pres)
    ensures var a := DIntersectingAnalysis(pres, target, o);
      r.Err? <==> a.Err? || exists k, v :: k in a.value && v in a.value[k] && Hull(RangesOf(buckets), k, v, |pres|).Err?
    ensures r.Ok? ==> r.value.Keys == DIntersectingAnalysis(pres, target, o).value.Keys
    ensures r.Ok? ==> var m := DIntersectingAnalysis(pres, target, o).value;
      forall k, v :: k in m && v in m[k] ==> Hull(RangesOf(buckets), k, v, |pres|).value in r.value[k]
    ensures r.Ok? ==> forall k, iv :: k in r.value && iv in r.value[k] ==>
      exists v :: v in DIntersectingAnalysis(pres, target, o).value[k] && Hull(RangesOf(buckets), k, v, |pres|) == Ok(iv)
  {
    var ps :- DEliminateAll(pres, target, o);
    AllRangeOf(|ps|, DOverlapTest(ps, o), buckets)
  }

  /** `RangeAnalysis.run` on unions: the widest interval, 0 without any. */
  function DRangeAnalysis(pres: seq<DPoly>, buckets: seq<Buckets.Bucket>, target: string, o: Oracle): (r: Result<int>)
    requires AllDWellFormed(pres)
    ensures r.Err? <==> DAllRange(pres, buckets, target, o).Err?
    ensures r.Ok? ==> WidestOf(DAllRange(pres, buckets, target, o).value, r.value)
  {
    var ps :- DEliminateAll(pres, target, o);
    RangeAnalysisOf(|ps|, DOverlapTest(ps, o), buckets)
  }

  /* ----------------------------------------------------------------- qused */

  /** `QusedAnalysis.run` on unions always raises: `min` of no quantities
      without buckets, otherwise the first projection is a union and not a
      plain polyhedron, unless its elimination raised first. */
  function DQused(pres: seq<DPoly>, target: string, o: Oracle): (r: Result<nat>)
    requires AllDWellFormed(pres)
    ensures r.Err?
    ensures |pres| > 0 && DEliminate(pres[0], target, o).Err? ==> r == Err(DEliminate(pres[0], target, o).msg)
    ensures |pres| > 0 && DEliminate(pres[0], target, o).Ok? ==> r == Err("AssertionError")
  {
    if pres == [] then Err("ValueError: min() arg is an empty sequence")
    else
      var q :- DEliminate(pres[0], target, o);
      Err("AssertionError")
  }
}
