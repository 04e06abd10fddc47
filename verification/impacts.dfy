/** The impact metrics: every bucket's precondition has the target variable
    eliminated, the projections are tested pairwise for overlap, and the
    maximal cliques of the overlap graph are reduced to a number (outcomes,
    unused, range) or measured directly (qused).

    Buckets are named by their index in the list of preconditions. The
    bucket list itself is only read by the range metrics.
 */
module Impacts {
  import opened Results
  import opened Polyhedra
  import opened Overlap
  import Buckets

  /** The overlap test on the projections, by index. */
  function OverlapTest(ps: seq<Poly>, o: Oracle): Test {
    (i: nat, j: nat) => if i < |ps| && j < |ps| then DoesIntersect(ps[i], ps[j], o) else Ok(false)
  }

  /** Two distinct projections overlap when the test says so in either
      order. */
  predicate Overlaps(ps: seq<Poly>, o: Oracle, i: nat, j: nat) {
    Joined(|ps|, OverlapTest(ps, o), i, j)
  }

  /** Two projections overlap when they are distinct and `DoesIntersect`
      answers true in either order. */
  lemma OverlapsMeaning(ps: seq<Poly>, o: Oracle, i: nat, j: nat)
    ensures Overlaps(ps, o, i, j) <==>
      i < |ps| && j < |ps| && i != j
      && (DoesIntersect(ps[i], ps[j], o) == Ok(true) || DoesIntersect(ps[j], ps[i], o) == Ok(true))
  {
  }

  predicate AllWellFormed(pres: seq<Poly>) {
    forall k :: 0 <= k < |pres| ==> WellFormed(pres[k])
  }

  /** The overlap graph of the projections. */
  function Graph(ps: seq<Poly>, o: Oracle): Result<set<Edge>> {
    Pairs(|ps|, OverlapTest(ps, o))
  }

  /** An edge joins two overlapping projections, and every overlapping
      pair is joined. */
  lemma GraphMeaning(ps: seq<Poly>, o: Oracle)
    requires Graph(ps, o).Ok?
    ensures forall e :: e in Graph(ps, o).value ==> Overlaps(ps, o, e.0, e.1)
    ensures forall i: nat, j: nat :: Overlaps(ps, o, i, j) ==> Adjacent(Graph(ps, o).value, i, j)
  {
    JoinedEdges(|ps|, OverlapTest(ps, o));
  }

  /* ------------------------------------------------- over any overlap test */

  // The metrics read the abstract domain only through the overlap test on
  // the projections, by index; `n` is the number of projections.

  /** Two distinct projections overlap when the test says so in either
      order. */
  predicate Joined(n: nat, test: Test, i: nat, j: nat) {
    i < n && j < n && i != j && (test(i, j) == Ok(true) || test(j, i) == Ok(true))
  }

  /** An edge joins two overlapping projections, and every overlapping
      pair is joined. */
  lemma JoinedEdges(n: nat, test: Test)
    requires Pairs(n, test).Ok?
    ensures forall e :: e in Pairs(n, test).value ==> Joined(n, test, e.0, e.1)
    ensures forall i: nat, j: nat :: Joined(n, test, i, j) ==> Adjacent(Pairs(n, test).value, i, j)
  {
    forall e | e in Pairs(n, test).value ensures Joined(n, test, e.0, e.1) {
      PairsShape(n, test, e.0, e.1);
    }
    forall i: nat, j: nat | Joined(n, test, i, j) ensures Adjacent(Pairs(n, test).value, i, j) {
      PairsShape(n, test, i, j);
    }
  }

  /** The overlap graph has no edge exactly when no two projections
      overlap. */
  lemma NoEdgeNoJoin(n: nat, test: Test)
    requires Pairs(n, test).Ok?
    ensures Pairs(n, test).value == {} <==> forall i: nat, j: nat :: !Joined(n, test, i, j)
  {
    JoinedEdges(n, test);
    if exists e :: e in Pairs(n, test).value {
      var e :| e in Pairs(n, test).value;
      assert Joined(n, test, e.0, e.1);
    }
    if exists i: nat, j: nat :: Joined(n, test, i, j) {
      var i: nat, j: nat :| Joined(n, test, i, j);
      assert Adjacent(Pairs(n, test).value, i, j);
    }
  }

  /** `intersecting_cliques` on the projections: the clique map of their
      overlap graph. */
  function CliqueAnalysis(n: nat, test: Test): (r: Result<map<nat, set<set<nat>>>>)
    ensures r.Err? <==> Pairs(n, test).Err?
    ensures r.Ok? ==> IsCliqueMapOf(r.value, Pairs(n, test).value, n)
  {
    var r := Cliques(n, test);
    if r.Ok? then
      CliquesAreCliqueMap(n, test);
      r
    else r
  }

  /** `CountIntersectionsAnalysis.run` on the projections: every key mapped
      to one less than the size of the largest maximal clique holding it. */
  function CountIntersectionsOf(n: nat, test: Test): (r: Result<map<nat, nat>>)
    ensures r.Err? <==> CliqueAnalysis(n, test).Err?
    ensures r.Ok? ==> r.value.Keys == CliqueAnalysis(n, test).value.Keys
    ensures r.Ok? ==> forall k :: k in r.value ==> 1 <= r.value[k] < n
  {
    var m :- CliqueAnalysis(n, test);
    CountsAll(m, Pairs(n, test).value, n);
    Ok(Counts(m, n))
  }

  /** A key's count is one less than the size of the largest maximal
      clique of the overlap graph that contains it. */
  lemma CountIntersectionsOfMeaning(n: nat, test: Test, m: map<nat, set<set<nat>>>, k: nat)
    requires CliqueAnalysis(n, test) == Ok(m) && k in m
    ensures CountIntersectionsOf(n, test) == Ok(Counts(m, n))
    ensures LargestCliqueWith(Pairs(n, test).value, k, Counts(m, n)[k] + 1)
  {
    var edges := Pairs(n, test).value;
    assert IsCliqueMapOf(m, edges, n);
    CountsMeaning(m, edges, n, k);
  }

  /** What the outcomes number says about the projections: it is 0 exactly
      when no two of them overlap, never reaches their number, and is
      otherwise one less than the size of the largest maximal clique of
      the overlap graph. */
  ghost predicate OutcomeFor(n: nat, test: Test, v: nat)
    requires Pairs(n, test).Ok?
  {
    (v == 0 <==> forall i: nat, j: nat :: !Joined(n, test, i, j))
    && (v == 0 || v < n)
    && (v > 0 ==> LargestClique(Pairs(n, test).value, v + 1))
  }

  /** `OutcomesAnalysis.run` on the projections: the greatest count, 0
      without any. */
  function OutcomesOf(n: nat, test: Test): (r: Result<nat>)
    ensures r.Err? <==> Pairs(n, test).Err?
    ensures r.Ok? ==> OutcomeFor(n, test, r.value)
  {
    var m :- CliqueAnalysis(n, test);
    OutcomeOfAnalysis(n, test, m);
    Ok(MaxValue(Counts(m, n), n))
  }

  lemma OutcomeOfAnalysis(n: nat, test: Test, m: map<nat, set<set<nat>>>)
    requires Pairs(n, test).Ok? && IsCliqueMapOf(m, Pairs(n, test).value, n)
    ensures OutcomeFor(n, test, MaxValue(Counts(m, n), n))
  {
    var edges := Pairs(n, test).value;
    var v := MaxValue(Counts(m, n), n);
    assert (v == 0 <==> edges == {}) && (v == 0 || v < n) && (v > 0 ==> LargestClique(edges, v + 1)) by {
      MaxCountMeaning(m, edges, n);
    }
    assert edges == {} <==> forall i: nat, j: nat :: !Joined(n, test, i, j) by {
      NoEdgeNoJoin(n, test);
    }
  }

  /** `UnusedAnalysis.run` on the projections: definitely unused when every
      entry of the clique map is empty, which happens exactly when no two
      projections overlap, in particular with at most one bucket. */
  function UnusedOf(n: nat, test: Test): (r: Result<SoundOutput>)
    ensures r.Err? <==> Pairs(n, test).Err?
    ensures r.Ok? ==> (r.value == DefUnused <==> forall i: nat, j: nat :: !Joined(n, test, i, j))
    ensures r.Ok? && n <= 1 ==> r.value == DefUnused
  {
    var m :- CliqueAnalysis(n, test);
    AllEmptyMeaning(m, Pairs(n, test).value, n);
    NoEdgeNoJoin(n, test);
    Ok(if forall k :: k in m ==> m[k] == {} then DefUnused else MaybeUsed)
  }

  /** `AllRangeAnalysis.run` on the projections: for every key, one
      interval per maximal clique containing it, enclosing the ranges of
      all its buckets. */
  function AllRangeOf(n: nat, test: Test, buckets: seq<Buckets.Bucket>): (r: Result<map<nat, set<(int, int)>>>)
    ensures var a := CliqueAnalysis(n, test);
      r.Err? <==> a.Err? || exists k, v :: k in a.value && v in a.value[k] && Hull(RangesOf(buckets), k, v, n).Err?
    ensures r.Ok? ==> r.value.Keys == CliqueAnalysis(n, test).value.Keys
    ensures r.Ok? ==> var m := CliqueAnalysis(n, test).value;
      forall k, v :: k in m && v in m[k] ==> Hull(RangesOf(buckets), k, v, n).value in r.value[k]
    ensures r.Ok? ==> forall k, iv :: k in r.value && iv in r.value[k] ==>
      exists v :: v in CliqueAnalysis(n, test).value[k] && Hull(RangesOf(buckets), k, v, n) == Ok(iv)
  {
    var m :- CliqueAnalysis(n, test);
    RestsBelow(m, Pairs(n, test).value, n);
    Intervals(m, RangesOf(buckets), n)
  }

  /** The widest interval of a range map, 0 without any. */
  ghost predicate WidestOf(ranges: map<nat, set<(int, int)>>, w: int) {
    (forall k, iv :: k in ranges && iv in ranges[k] ==> iv.1 - iv.0 <= w)
    && ((exists k, iv :: k in ranges && iv in ranges[k]) ==>
          exists k, iv :: k in ranges && iv in ranges[k] && iv.1 - iv.0 == w)
    && ((forall k :: k !in ranges) ==> w == 0)
  }

  /** `RangeAnalysis.run` on the projections: the widest interval. */
  function RangeAnalysisOf(n: nat, test: Test, buckets: seq<Buckets.Bucket>): (r: Result<int>)
    ensures r.Err? <==> AllRangeOf(n, test, buckets).Err?
    ensures r.Ok? ==> WidestOf(AllRangeOf(n, test, buckets).value, r.value)
  {
    var ranges :- AllRangeOf(n, test, buckets);
    WidestInterval(ranges);
    Ok(MaxOr0(Widths(ranges)))
  }

  /* --------------------------------------------------------- intersections */

  /** `intersecting_analysis`: eliminate the target everywhere, in order,
      then build the clique map of the projections' overlap graph. */
  function IntersectingAnalysis(pres: seq<Poly>, target: string, o: Oracle): (r: Result<map<nat, set<set<nat>>>>)
    requires AllWellFormed(pres)
    ensures r.Err? <==> EliminateAll(pres, target, o).Err? || Graph(EliminateAll(pres, target, o).value, o).Err?
    ensures r.Ok? ==> IsCliqueMapOf(r.value, Graph(EliminateAll(pres, target, o).value, o).value, |pres|)
  {
    var ps :- EliminateAll(pres, target, o);
    CliqueAnalysis(|ps|, OverlapTest(ps, o))
  }

  /** The projections the analysis works on. */
  function Projections(pres: seq<Poly>, target: string, o: Oracle): (ps: seq<Poly>)
    requires AllWellFormed(pres) && EliminateAll(pres, target, o).Ok?
    ensures |ps| == |pres|
  {
    EliminateAll(pres, target, o).value
  }

  /** The keys are exactly the buckets whose projection overlaps another
      one. */
  lemma IntersectionsKeys(pres: seq<Poly>, target: string, o: Oracle, v: nat)
    requires AllWellFormed(pres) && IntersectingAnalysis(pres, target, o).Ok?
    ensures v in IntersectingAnalysis(pres, target, o).value <==>
      exists u: nat :: Overlaps(Projections(pres, target, o), o, v, u)
  {
    var ps := Projections(pres, target, o);
    var edges := Graph(ps, o).value;
    assert IsCliqueMapOf(IntersectingAnalysis(pres, target, o).value, edges, |pres|);
    assert v in IntersectingAnalysis(pres, target, o).value <==> v in Nodes(edges);
    GraphMeaning(ps, o);
    if v in Nodes(edges) {
      var e :| e in edges && (e.0 == v || e.1 == v);
      assert Overlaps(ps, o, e.0, e.1);
      var u: nat := if e.0 == v then e.1 else e.0;
      assert Overlaps(ps, o, v, u);
    }
    if exists u: nat :: Overlaps(ps, o, v, u) {
      var u: nat :| Overlaps(ps, o, v, u);
      assert Adjacent(edges, v, u);
      assert v in Nodes(edges);
    }
  }

  /* ---------------------------------------------------------------- counts */

  /** The largest size, at most `b`, of a set in `vs`. */
  function Largest(vs: set<set<nat>>, b: nat): (r: nat)
    ensures r <= b
    ensures forall s :: s in vs && |s| <= b ==> |s| <= r
    ensures r > 0 ==> exists s :: s in vs && |s| == r
  {
    if b == 0 then 0
    else if exists s :: s in vs && |s| == b then b
    else Largest(vs, b - 1)
  }

  /** Every key's largest clique rest. */
  function Counts(m: map<nat, set<set<nat>>>, n: nat): (r: map<nat, nat>)
    ensures r.Keys == m.Keys
  {
    map k | k in m :: Largest(m[k], n)
  }

  /** The largest maximal clique containing `k` has `size` nodes. */
  ghost predicate LargestCliqueWith(edges: set<Edge>, k: nat, size: nat) {
    (exists c :: IsMaximalClique(edges, c) && k in c && |c| == size)
    && forall c :: IsMaximalClique(edges, c) && k in c ==> |c| <= size
  }

  /** A key's count is the size of its largest clique rest, in `[1, n)`. */
  lemma CountsBound(m: map<nat, set<set<nat>>>, edges: set<Edge>, n: nat, k: nat)
    requires IsCliqueMapOf(m, edges, n) && k in m
    ensures 1 <= Counts(m, n)[k] < n
    ensures exists best :: best in m[k] && |best| == Counts(m, n)[k]
    ensures forall rest :: rest in m[k] ==> |rest| <= Counts(m, n)[k]
  {
    var vs := m[k];
    assert Counts(m, n)[k] == Largest(vs, n);
    EntryNonEmpty(m, edges, n, k);
    var some :| some in vs;
    RestShape(m, edges, n, k, some);
    forall rest | rest in vs ensures |rest| < n {
      RestShape(m, edges, n, k, rest);
    }
  }

  /** A key's count is one less than the size of the largest maximal clique
      containing it, and lies in `[1, n)`. */
  lemma CountsMeaning(m: map<nat, set<set<nat>>>, edges: set<Edge>, n: nat, k: nat)
    requires IsCliqueMapOf(m, edges, n) && k in m
    ensures 1 <= Counts(m, n)[k] < n
    ensures LargestCliqueWith(edges, k, Counts(m, n)[k] + 1)
  {
    var count := Counts(m, n)[k];
    CountsBound(m, edges, n, k);
    var best :| best in m[k] && |best| == count;
    BestClique(m, edges, n, k, best);
    forall c | IsMaximalClique(edges, c) && k in c
      ensures |c| <= count + 1
    {
      CliqueRest(m, edges, n, k, c);
    }
  }

  lemma BestClique(m: map<nat, set<set<nat>>>, edges: set<Edge>, n: nat, k: nat, best: set<nat>)
    requires IsCliqueMapOf(m, edges, n) && k in m && best in m[k]
    ensures IsMaximalClique(edges, best + {k}) && k in best + {k} && |best + {k}| == |best| + 1
  {
    assert k !in best;
  }

  lemma CliqueRest(m: map<nat, set<set<nat>>>, edges: set<Edge>, n: nat, k: nat, c: set<nat>)
    requires IsCliqueMapOf(m, edges, n) && k in m && IsMaximalClique(edges, c) && k in c
    ensures c - {k} in m[k] && |c| == |c - {k}| + 1
  {
    assert (c - {k}) + {k} == c;
  }

  /** The overlap graph the analysis builds its clique map from. */
  ghost function OverlapGraph(pres: seq<Poly>, target: string, o: Oracle): set<Edge>
    requires AllWellFormed(pres) && IntersectingAnalysis(pres, target, o).Ok?
  {
    Graph(Projections(pres, target, o), o).value
  }

  /** `CountIntersectionsAnalysis.run`: every key mapped to the size of its
      largest clique rest, a number in `[1, n)` for `n` buckets. */
  function CountIntersections(pres: seq<Poly>, target: string, o: Oracle): (r: Result<map<nat, nat>>)
    requires AllWellFormed(pres)
    ensures r.Err? <==> IntersectingAnalysis(pres, target, o).Err?
    ensures r.Ok? ==> r.value.Keys == IntersectingAnalysis(pres, target, o).value.Keys
    ensures r.Ok? ==> forall k :: k in r.value ==> 1 <= r.value[k] < |pres|
  {
    var ps :- EliminateAll(pres, target, o);
    CountIntersectionsOf(|ps|, OverlapTest(ps, o))
  }

  /** A bucket's count is one less than the size of the largest maximal
      clique of the overlap graph that contains it. */
  lemma CountIntersectionsMeaning(pres: seq<Poly>, target: string, o: Oracle, k: nat)
    requires AllWellFormed(pres) && CountIntersections(pres, target, o).Ok?
    requires k in CountIntersections(pres, target, o).value
    ensures LargestCliqueWith(OverlapGraph(pres, target, o), k, CountIntersections(pres, target, o).value[k] + 1)
  {
    CountsOfAnalysis(pres, target, o);
    AnalysisCountMeaning(pres, target, o, k);
  }

  lemma AnalysisCountMeaning(pres: seq<Poly>, target: string, o: Oracle, k: nat)
    requires AllWellFormed(pres) && IntersectingAnalysis(pres, target, o).Ok?
    requires k in IntersectingAnalysis(pres, target, o).value
    ensures LargestCliqueWith(OverlapGraph(pres, target, o), k, Counts(IntersectingAnalysis(pres, target, o).value, |pres|)[k] + 1)
  {
    AnalysisIsCliqueMap(pres, target, o);
    CountsMeaning(IntersectingAnalysis(pres, target, o).value, OverlapGraph(pres, target, o), |pres|, k);
  }

  lemma AnalysisIsCliqueMap(pres: seq<Poly>, target: string, o: Oracle)
    requires AllWellFormed(pres) && IntersectingAnalysis(pres, target, o).Ok?
    ensures IsCliqueMapOf(IntersectingAnalysis(pres, target, o).value, OverlapGraph(pres, target, o), |pres|)
  {
  }

  lemma CountsOfAnalysis(pres: seq<Poly>, target: string, o: Oracle)
    requires AllWellFormed(pres) && IntersectingAnalysis(pres, target, o).Ok?
    ensures CountIntersections(pres, target, o) == Ok(Counts(IntersectingAnalysis(pres, target, o).value, |pres|))
  {
  }

  lemma CountsAll(m: map<nat, set<set<nat>>>, edges: set<Edge>, n: nat)
    requires IsCliqueMapOf(m, edges, n)
    ensures forall k :: k in m ==> 1 <= Counts(m, n)[k] < n
  {
    forall k | k in m
      ensures 1 <= Counts(m, n)[k] < n
    {
      CountsBound(m, edges, n, k);
    }
  }

  /* -------------------------------------------------------------- outcomes */

  /** The greatest value among the keys below `n`, or 0. */
  function MaxValue(counts: map<nat, nat>, n: nat): (r: nat)
    ensures forall k :: k in counts && k < n ==> counts[k] <= r
    ensures r == 0 || exists k :: k in counts && k < n && counts[k] == r
  {
    if n == 0 then 0
    else
      var rest := MaxValue(counts, n - 1);
      if n - 1 in counts && counts[n - 1] > rest then counts[n - 1] else rest
  }

  /** The largest maximal clique of the graph has `size` nodes. */
  ghost predicate LargestClique(edges: set<Edge>, size: nat) {
    (exists c :: IsMaximalClique(edges, c) && |c| == size)
    && forall c :: IsMaximalClique(edges, c) ==> |c| <= size
  }

  /** The greatest count is 0 exactly for a graph without edges, and is
      otherwise one less than the size of its largest maximal clique. */
  lemma MaxCountMeaning(m: map<nat, set<set<nat>>>, edges: set<Edge>, n: nat)
    requires IsCliqueMapOf(m, edges, n)
    ensures var r := MaxValue(Counts(m, n), n);
      (r == 0 <==> edges == {})
      && (r == 0 || r < n)
      && (r > 0 ==> LargestClique(edges, r + 1))
  {
    MaxZeroIffNoEdge(m, edges, n);
    MaxBelow(m, edges, n);
    var r := MaxValue(Counts(m, n), n);
    if r > 0 {
      MaxIsLargest(m, edges, n);
    }
  }

  lemma MaxZeroIffNoEdge(m: map<nat, set<set<nat>>>, edges: set<Edge>, n: nat)
    requires IsCliqueMapOf(m, edges, n)
    ensures MaxValue(Counts(m, n), n) == 0 <==> edges == {}
  {
    var counts := Counts(m, n);
    CliqueMapEmpty(m, edges, n);
    if exists k :: k in m {
      var k :| k in m;
      CountsBound(m, edges, n, k);
      assert k in Nodes(edges);
      assert counts[k] <= MaxValue(counts, n);
    }
  }

  lemma MaxBelow(m: map<nat, set<set<nat>>>, edges: set<Edge>, n: nat)
    requires IsCliqueMapOf(m, edges, n)
    ensures MaxValue(Counts(m, n), n) == 0 || MaxValue(Counts(m, n), n) < n
  {
    var counts := Counts(m, n);
    var r := MaxValue(counts, n);
    if r != 0 {
      var k :| k in counts && k < n && counts[k] == r;
      CountsBound(m, edges, n, k);
    }
  }

  lemma MaxIsLargest(m: map<nat, set<set<nat>>>, edges: set<Edge>, n: nat)
    requires IsCliqueMapOf(m, edges, n) && MaxValue(Counts(m, n), n) > 0
    ensures LargestClique(edges, MaxValue(Counts(m, n), n) + 1)
  {
    var counts := Counts(m, n);
    var r := MaxValue(counts, n);
    var k :| k in counts && k < n && counts[k] == r;
    CountsMeaning(m, edges, n, k);
    forall c | IsMaximalClique(edges, c)
      ensures |c| <= r + 1
    {
      CliqueNodeBelow(m, edges, n, c, r);
    }
  }

  /** Every maximal clique has at most `r + 1` nodes when `r` bounds every
      count. */
  lemma CliqueNodeBelow(m: map<nat, set<set<nat>>>, edges: set<Edge>, n: nat, c: set<nat>, r: nat)
    requires IsCliqueMapOf(m, edges, n) && IsMaximalClique(edges, c) && r == MaxValue(Counts(m, n), n)
    ensures |c| <= r + 1
  {
    var v :| v in c;
    assert v in Nodes(edges) && v in m;
    CountsBound(m, edges, n, v);
    CountsMeaning(m, edges, n, v);
  }

  /** `OutcomesAnalysis.run`: the greatest count, 0 without any. */
  function Outcomes(pres: seq<Poly>, target: string, o: Oracle): (r: Result<nat>)
    requires AllWellFormed(pres)
    ensures r.Err? <==> IntersectingAnalysis(pres, target, o).Err?
    ensures r.Ok? ==> OutcomeOf(pres, target, o, r.value)
  {
    var ps :- EliminateAll(pres, target, o);
    var r := OutcomesOf(|ps|, OverlapTest(ps, o));
    if r.Ok? then
      OutcomesFacts(pres, target, o);
      r
    else r
  }

  /** What the outcomes number says about the projections: it is 0 exactly
      when no two of them overlap, never reaches the number of buckets, and
      is otherwise one less than the size of the largest maximal clique of
      the overlap graph. */
  ghost predicate OutcomeOf(pres: seq<Poly>, target: string, o: Oracle, v: nat)
    requires AllWellFormed(pres) && IntersectingAnalysis(pres, target, o).Ok?
  {
    OutcomeFor(|pres|, OverlapTest(Projections(pres, target, o), o), v)
  }

  /** The outcomes number of the projections, read against `Overlaps`. */
  lemma OutcomesFacts(pres: seq<Poly>, target: string, o: Oracle)
    requires AllWellFormed(pres) && EliminateAll(pres, target, o).Ok?
    requires OutcomesOf(|pres|, OverlapTest(EliminateAll(pres, target, o).value, o)).Ok?
    ensures IntersectingAnalysis(pres, target, o).Ok?
    ensures OutcomeOf(pres, target, o, OutcomesOf(|pres|, OverlapTest(EliminateAll(pres, target, o).value, o)).value)
  {
  }

  /** The overlap graph has no edge exactly when no two projections
      overlap. */
  lemma NoEdgeNoOverlap(ps: seq<Poly>, o: Oracle)
    requires Graph(ps, o).Ok?
    ensures Graph(ps, o).value == {} <==> forall i: nat, j: nat :: !Overlaps(ps, o, i, j)
  {
    NoEdgeNoJoin(|ps|, OverlapTest(ps, o));
    OverlapsAreJoined(ps, o);
  }

  lemma OverlapsAreJoined(ps: seq<Poly>, o: Oracle)
    ensures (forall i: nat, j: nat :: !Overlaps(ps, o, i, j)) <==> forall i: nat, j: nat :: !Joined(|ps|, OverlapTest(ps, o), i, j)
  {
    assert forall i: nat, j: nat :: Overlaps(ps, o, i, j) == Joined(|ps|, OverlapTest(ps, o), i, j);
  }

  /* ---------------------------------------------------------------- unused */

  /** `SoundOutput`. */
  datatype SoundOutput = DefUnused | MaybeUsed

  /** The enumeration values. */
  function Code(s: SoundOutput): nat {
    match s
    case DefUnused => 0
    case MaybeUsed => 1
  }

  /** `UnusedAnalysis.run`: definitely unused when every entry of the
      clique map is empty, which happens exactly when no two projections
      overlap, in particular with at most one bucket. */
  function Unused(pres: seq<Poly>, target: string, o: Oracle): (r: Result<SoundOutput>)
    requires AllWellFormed(pres)
    ensures r.Err? <==> IntersectingAnalysis(pres, target, o).Err?
    ensures r.Ok? ==> (r.value == DefUnused <==> forall i: nat, j: nat :: !Overlaps(Projections(pres, target, o), o, i, j))
    ensures r.Ok? && |pres| <= 1 ==> r.value == DefUnused
  {
    var ps :- EliminateAll(pres, target, o);
    var r := UnusedOf(|ps|, OverlapTest(ps, o));
    assert Projections(pres, target, o) == ps;
    assert r.Ok? ==> (r.value == DefUnused <==> forall i: nat, j: nat :: !Overlaps(ps, o, i, j)) by {
      OverlapsAreJoined(ps, o);
    }
    r
  }

  /** Every entry is empty exactly when the graph has no edge, which a
      graph over at most one value never has. */
  lemma AllEmptyMeaning(m: map<nat, set<set<nat>>>, edges: set<Edge>, n: nat)
    requires IsCliqueMapOf(m, edges, n)
    ensures (forall k :: k in m ==> m[k] == {}) <==> edges == {}
    ensures n <= 1 ==> edges == {}
  {
    CliqueMapEmpty(m, edges, n);
    if exists k :: k in m {
      var k :| k in m;
      EntryNonEmpty(m, edges, n, k);
      var rest :| rest in m[k];
      assert m[k] != {};
    }
    if exists e :: e in edges {
      var e :| e in edges;
      assert e.0 in Nodes(edges) && e.1 in Nodes(edges) && e.0 != e.1;
    }
  }

  /* ----------------------------------------------------------------- range */

  /** `range()` of every bucket. */
  function RangesOf(buckets: seq<Buckets.Bucket>): (rs: seq<Result<(int, int)>>)
    ensures |rs| == |buckets| && forall i :: 0 <= i < |buckets| ==> rs[i] == Buckets.Range(buckets[i].condition)
  {
    seq(|buckets|, i requires 0 <= i < |buckets| => Buckets.Range(buckets[i].condition))
  }

  /** Bucket `i` cannot report its range: it is missing or `range()`
      raises. */
  predicate Fails(rs: seq<Result<(int, int)>>, i: nat) {
    i >= |rs| || rs[i].Err?
  }

  /** The inner loop of `AllRangeAnalysis.run` over the members of `v`
      from `i` on, widening `acc`. */
  function HullFrom(rs: seq<Result<(int, int)>>, v: set<nat>, i: nat, n: nat, acc: (int, int)): (r: Result<(int, int)>)
    requires i <= n
    ensures r.Err? <==> exists b :: i <= b < n && b in v && Fails(rs, b)
    ensures r.Ok? ==> r.value.0 <= acc.0 && acc.1 <= r.value.1
    ensures r.Ok? ==> forall b :: i <= b < n && b in v ==> r.value.0 <= rs[b].value.0 && rs[b].value.1 <= r.value.1
    ensures r.Ok? ==> r.value.0 == acc.0 || exists b :: i <= b < n && b in v && rs[b].value.0 == r.value.0
    ensures r.Ok? ==> r.value.1 == acc.1 || exists b :: i <= b < n && b in v && rs[b].value.1 == r.value.1
    decreases n - i
  {
    if i == n then Ok(acc)
    else if i !in v then HullFrom(rs, v, i + 1, n, acc)
    else if i >= |rs| then Err("IndexError: list index out of range")
    else if rs[i].Err? then Err(rs[i].msg)
    else
      var lo := if rs[i].value.0 < acc.0 then rs[i].value.0 else acc.0;
      var hi := if rs[i].value.1 > acc.1 then rs[i].value.1 else acc.1;
      HullFrom(rs, v, i + 1, n, (lo, hi))
  }

  /** The interval of bucket `k` with the clique rest `v`, whose members
      are below `n`: the least lower and the greatest upper end of their
      ranges and of `k`'s own. */
  function Hull(rs: seq<Result<(int, int)>>, k: nat, v: set<nat>, n: nat): (r: Result<(int, int)>)
    requires forall b :: b in v ==> b < n
    ensures r.Err? <==> Fails(rs, k) || exists b :: b in v && Fails(rs, b)
    ensures r.Ok? ==> forall b :: b in v + {k} ==> r.value.0 <= rs[b].value.0 && rs[b].value.1 <= r.value.1
    ensures r.Ok? ==> exists b :: b in v + {k} && rs[b].value.0 == r.value.0
    ensures r.Ok? ==> exists b :: b in v + {k} && rs[b].value.1 == r.value.1
  {
    if k >= |rs| || rs[k].Err? then Err("range() failed")
    else
      assert k in v + {k};
      HullFrom(rs, v, 0, n, rs[k].value)
  }

  /** The intervals of every key, given the clique map `m` over `n`
      values; any failing range fails the whole. */
  function Intervals(m: map<nat, set<set<nat>>>, rs: seq<Result<(int, int)>>, n: nat): (r: Result<map<nat, set<(int, int)>>>)
    requires forall k, v, b :: k in m && v in m[k] && b in v ==> b < n
    ensures r.Err? <==> exists k, v :: k in m && v in m[k] && Hull(rs, k, v, n).Err?
    ensures r.Ok? ==> r.value.Keys == m.Keys
    ensures r.Ok? ==> forall k, v :: k in m && v in m[k] ==> Hull(rs, k, v, n).value in r.value[k]
    ensures r.Ok? ==> forall k, iv :: k in r.value && iv in r.value[k] ==>
      exists v :: v in m[k] && Hull(rs, k, v, n) == Ok(iv)
  {
    if exists k, v :: k in m && v in m[k] && Hull(rs, k, v, n).Err? then Err("range() failed")
    else Ok(map k | k in m :: set v | v in m[k] :: Hull(rs, k, v, n).value)
  }

  /** `AllRangeAnalysis.run`: for every key, one interval per maximal clique
      containing it, enclosing the ranges of all its buckets. */
  function AllRange(pres: seq<Poly>, buckets: seq<Buckets.Bucket>, target: string, o: Oracle)
    : (r: Result<map<nat, set<(int, int)>>>)
    requires AllWellFormed(pres)
    ensures var a := IntersectingAnalysis(pres, target, o);
      r.Err? <==> a.Err? || exists k, v :: k in a.value && v in a.value[k] && Hull(RangesOf(buckets), k, v, |pres|).Err?
    ensures r.Ok? ==> r.value.Keys == IntersectingAnalysis(pres, target, o).value.Keys
    ensures r.Ok? ==> var m := IntersectingAnalysis(pres, target, o).value;
      forall k, v :: k in m && v in m[k] ==> Hull(RangesOf(buckets), k, v, |pres|).value in r.value[k]
    ensures r.Ok? ==> forall k, iv :: k in r.value && iv in r.value[k] ==>
      exists v :: v in IntersectingAnalysis(pres, target, o).value[k] && Hull(RangesOf(buckets), k, v, |pres|) == Ok(iv)
  {
    var ps :- EliminateAll(pres, target, o);
    AllRangeOf(|ps|, OverlapTest(ps, o), buckets)
  }

  lemma RestsBelow(m: map<nat, set<set<nat>>>, edges: set<Edge>, n: nat)
    requires IsCliqueMapOf(m, edges, n)
    ensures forall k, v, b :: k in m && v in m[k] && b in v ==> b < n
  {
    forall k, v, b | k in m && v in m[k] && b in v ensures b < n {
      RestShape(m, edges, n, k, v);
    }
  }

  /** The greatest element of a finite set of integers exists. */
  lemma {:induction false} HasMax(w: set<int>)
    requires exists x :: x in w
    ensures exists x :: x in w && forall y :: y in w ==> y <= x
    decreases |w|
  {
    var x :| x in w;
    var w' := w - {x};
    if exists y :: y in w' {
      HasMax(w');
      var m :| m in w' && forall y :: y in w' ==> y <= m;
      var top := if x > m then x else m;
      assert forall y :: y in w ==> y == x || y in w';
      assert top in w && forall y :: y in w ==> y <= top;
    } else {
      assert forall y :: y in w ==> y == x;
    }
  }

  /** `max(..., default=0)` of a set of integers. */
  function MaxOr0(w: set<int>): (r: int)
    ensures forall y :: y in w ==> y <= r
    ensures (exists y :: y in w) ==> r in w
    ensures (forall y :: y !in w) ==> r == 0
  {
    if exists y :: y in w then
      HasMax(w);
      var x :| x in w && forall y :: y in w ==> y <= x;
      x
    else 0
  }

  /** The widths of all intervals. */
  function Widths(ranges: map<nat, set<(int, int)>>): set<int> {
    set k, iv | k in ranges && iv in ranges[k] :: iv.1 - iv.0
  }

  /** `RangeAnalysis.run`: the widest interval, 0 without any. */
  function RangeAnalysis(pres: seq<Poly>, buckets: seq<Buckets.Bucket>, target: string, o: Oracle): (r: Result<int>)
    requires AllWellFormed(pres)
    ensures r.Err? <==> AllRange(pres, buckets, target, o).Err?
    ensures r.Ok? ==> WidestOf(AllRange(pres, buckets, target, o).value, r.value)
  {
    var ps :- EliminateAll(pres, target, o);
    RangeAnalysisOf(|ps|, OverlapTest(ps, o), buckets)
  }

  lemma WidestInterval(ranges: map<nat, set<(int, int)>>)
    ensures WidestOf(ranges, MaxOr0(Widths(ranges)))
  {
    var r := MaxOr0(Widths(ranges));
    forall k, iv | k in ranges && iv in ranges[k] ensures iv.1 - iv.0 <= r {
      assert iv.1 - iv.0 in Widths(ranges);
    }
    if exists k, iv :: k in ranges && iv in ranges[k] {
      var k, iv :| k in ranges && iv in ranges[k];
      assert iv.1 - iv.0 in Widths(ranges);
      var k', iv' :| k' in ranges && iv' in ranges[k'] && iv'.1 - iv'.0 == r;
    }
    if forall k :: k !in ranges {
      assert forall y :: y !in Widths(ranges);
    }
  }

  /* ----------------------------------------------------------------- qused */

  /** One bucket's quantity: the integer points of the projection in the
      default box `[0, 20)` per remaining variable. */
  function Quantity(p: Poly, target: string, o: Oracle): (r: Result<nat>)
    requires WellFormed(p)
    ensures r.Err? <==> Eliminate(p, target, o).Err? || IsTop(Resolve(Eliminate(p, target, o).value, o))
    ensures r.Ok? ==> r.value <= Pow(20, |Eliminate(p, target, o).value.vars|)
  {
    var q :- Eliminate(p, target, o);
    CountIntegersBetween(q, o, 0, 20)
  }

  /** A bucket's quantity is 0 when the projection is found empty, and
      otherwise the number of integer points of `[0, 20)^k` that satisfy
      the projection. */
  lemma QuantityMeaning(p: Poly, target: string, o: Oracle)
    requires WellFormed(p) && Quantity(p, target, o).Ok?
    ensures var q := Eliminate(p, target, o).value;
      Quantity(p, target, o).value == if IsBottom(q, o) then 0 else |BoxSolutions(q.sys, 0, 20, |q.vars|)|
  {
    var q := Eliminate(p, target, o).value;
    if !IsBottom(q, o) {
      CountIntegersBetweenMeaning(q, o, 0, 20);
    }
  }

  function Quantities(pres: seq<Poly>, target: string, o: Oracle): (r: Result<seq<nat>>)
    requires AllWellFormed(pres)
    ensures r.Err? <==> exists k :: 0 <= k < |pres| && Quantity(pres[k], target, o).Err?
    ensures r.Ok? ==> |r.value| == |pres| && forall k :: 0 <= k < |pres| ==> Quantity(pres[k], target, o) == Ok(r.value[k])
  {
    if pres == [] then Ok([])
    else
      var head := Quantity(pres[0], target, o);
      var rest := Quantities(pres[1..], target, o);
      QuantitiesTail(pres, target, o);
      if head.Err? then Err(head.msg)
      else if rest.Err? then rest
      else Ok([head.value] + rest.value)
  }

  /** The tail's quantities are the whole list's from the second bucket
      on. */
  lemma QuantitiesTail(pres: seq<Poly>, target: string, o: Oracle)
    requires AllWellFormed(pres) && |pres| > 0
    ensures AllWellFormed(pres[1..])
    ensures forall j :: 1 <= j < |pres| ==> Quantity(pres[1..][j - 1], target, o) == Quantity(pres[j], target, o)
  {
    assert forall j :: 1 <= j < |pres| ==> pres[1..][j - 1] == pres[j];
  }

  function MinOf(xs: seq<nat>): (r: nat)
    requires |xs| > 0
    ensures r in xs && forall k :: 0 <= k < |xs| ==> r <= xs[k]
  {
    if |xs| == 1 then xs[0]
    else
      var rest := MinOf(xs[1..]);
      assert forall k :: 1 <= k < |xs| ==> xs[1..][k - 1] == xs[k];
      if xs[0] <= rest then xs[0] else rest
  }

  /** `QusedAnalysis.run`: the least quantity; no bucket at all raises, as
      `min` of an empty list does. */
  function Qused(pres: seq<Poly>, target: string, o: Oracle): (r: Result<nat>)
    requires AllWellFormed(pres)
    ensures r.Err? <==> |pres| == 0 || exists k :: 0 <= k < |pres| && Quantity(pres[k], target, o).Err?
    ensures r.Ok? ==> (exists k :: 0 <= k < |pres| && Quantity(pres[k], target, o) == Ok(r.value))
    ensures r.Ok? ==> forall k :: 0 <= k < |pres| ==> r.value <= Quantity(pres[k], target, o).value
  {
    var qs :- Quantities(pres, target, o);
    if qs == [] then Err("ValueError: min() arg is an empty sequence")
    else Ok(MinOf(qs))
  }
}
