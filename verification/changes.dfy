/** The changes metric on two disjunctive preconditions: the target is
    eliminated from both, and the disjuncts of the first are paired with
    the disjuncts of the second. The optimised loop reports the largest
    number of disjuncts of the second that one disjunct of the first
    meets; the legacy loop, which is the default, counts every meeting
    pair.
 */
module Changes {
  import opened Results
  import opened Polyhedra
  import opened Disjunctive

  /** The default of the algorithm switch: the legacy loop. */
  const OlderAlgorithm: bool := true

  /** `not x.intersect(y).is_bottom()`: the stacked system is not known to
      be infeasible. Intersecting values over different variable lists
      raises. */
  function Meets(x: Poly, y: Poly, o: Oracle): (r: Result<bool>)
    ensures r.Err? <==> !IsBottom(x, o) && !IsBottom(y, o) && x.vars != y.vars
    ensures r.Ok? ==> (r.value <==> !IsBottom(x, o) && !IsBottom(y, o) && o(x.sys + y.sys) != Some(false))
  {
    var c :- Intersect(x, y, o);
    Ok(!IsBottom(c, o))
  }

  /** The outcome of testing disjunct `i` of the first side against
      disjunct `j` of the second. The loops below see the pairs only
      through such a table. */
  type Table = (nat, nat) -> Result<bool>

  /** The table of `Meets` on two lists of disjuncts. */
  function MeetsTable(xs: seq<Poly>, ys: seq<Poly>, o: Oracle): Table {
    (i: nat, j: nat) => if i < |xs| && j < |ys| then Meets(xs[i], ys[j], o) else Ok(false)
  }

  /** Every pair of a `p` by `q` table can be decided without raising. */
  predicate AllDecided(t: Table, p: nat, q: nat) {
    forall i: nat, j: nat :: i < p && j < q ==> t(i, j).Ok?
  }

  /** How many of the first `n` pairs of row `i` meet. */
  function CountMeets(t: Table, i: nat, n: nat): (r: nat)
    ensures r <= n
  {
    if n == 0 then 0
    else CountMeets(t, i, n - 1) + (if t(i, n - 1) == Ok(true) then 1 else 0)
  }

  /** The columns below `n` that row `i` meets. */
  ghost function MetBelow(t: Table, i: nat, n: nat): set<nat> {
    set j: nat | j < n && t(i, j) == Ok(true)
  }

  /** The count is the size of the set of met columns. */
  lemma {:induction false} CountMeetsIsSize(t: Table, i: nat, n: nat)
    ensures CountMeets(t, i, n) == |MetBelow(t, i, n)|
  {
    if n > 0 {
      CountMeetsIsSize(t, i, n - 1);
      var before := MetBelow(t, i, n - 1);
      if t(i, n - 1) == Ok(true) {
        assert MetBelow(t, i, n) == before + {n - 1};
      } else {
        assert MetBelow(t, i, n) == before;
      }
    } else {
      assert forall j :: j !in MetBelow(t, i, n);
    }
  }

  /** What the rest of a row can add: at most one per remaining column. */
  lemma {:induction false} CountMeetsGrowth(t: Table, i: nat, j: nat, n: nat)
    requires j <= n
    ensures CountMeets(t, i, j) <= CountMeets(t, i, n) <= CountMeets(t, i, j) + (n - j)
    decreases n - j
  {
    if j < n {
      CountMeetsGrowth(t, i, j, n - 1);
    }
  }

  /** The largest degree, over `q` columns, among the first `n` rows; 0
      without any. */
  function MaxDegree(t: Table, q: nat, n: nat): (r: nat)
    ensures forall i: nat :: i < n ==> CountMeets(t, i, q) <= r
    ensures n == 0 ==> r == 0
    ensures n > 0 ==> exists i: nat :: i < n && CountMeets(t, i, q) == r
    ensures r <= q
  {
    if n == 0 then 0
    else
      var rest := MaxDegree(t, q, n - 1);
      var d := CountMeets(t, n - 1, q);
      if d > rest then d else rest
  }

  /** The number of meeting pairs, over `q` columns, in the first `n`
      rows. */
  function TotalMeets(t: Table, q: nat, n: nat): (r: nat)
    ensures n > 0 ==> CountMeets(t, n - 1, q) <= r
  {
    if n == 0 then 0
    else TotalMeets(t, q, n - 1) + CountMeets(t, n - 1, q)
  }

  /** A partial total never exceeds a longer one. */
  lemma {:induction false} TotalMeetsGrowth(t: Table, q: nat, i: nat, n: nat)
    requires i <= n
    ensures TotalMeets(t, q, i) <= TotalMeets(t, q, n)
    decreases n - i
  {
    if i < n {
      TotalMeetsGrowth(t, q, i, n - 1);
    }
  }

  /** At most every pair meets. */
  lemma {:induction false} TotalMeetsBound(t: Table, q: nat, n: nat)
    ensures TotalMeets(t, q, n) <= n * q
  {
    if n > 0 {
      TotalMeetsBound(t, q, n - 1);
      assert (n - 1) * q + q == n * q;
    }
  }

  /** The largest degree never exceeds the number of meeting pairs. */
  lemma {:induction false} MaxDegreeAtMostTotal(t: Table, q: nat, n: nat)
    ensures MaxDegree(t, q, n) <= TotalMeets(t, q, n)
  {
    if n > 0 {
      MaxDegreeAtMostTotal(t, q, n - 1);
    }
  }

  /** With a single row, the two algorithms agree. */
  lemma SingleRowAgrees(t: Table, q: nat, n: nat)
    requires n <= 1
    ensures MaxDegree(t, q, n) == TotalMeets(t, q, n)
  {
    if n == 1 {
      assert MaxDegree(t, q, 0) == 0 && TotalMeets(t, q, 0) == 0;
    }
  }

  /** The largest degree never decreases as more rows are considered. */
  lemma {:induction false} MaxDegreeGrowth(t: Table, q: nat, i: nat, n: nat)
    requires i <= n
    ensures MaxDegree(t, q, i) <= MaxDegree(t, q, n)
    decreases n - i
  {
    if i < n {
      MaxDegreeGrowth(t, q, i, n - 1);
    }
  }

  /** The optimised loop of `all_intersections` on a `p` by `q` table:
      for every row, count the columns it meets, giving up on a row once
      it cannot beat the best so far, and stopping as soon as the best
      reaches the larger side. When every pair can be decided it returns
      the largest degree; the shortcuts skip only rows and pairs that
      cannot change it. */
  method Optimised(t: Table, p: nat, q: nat) returns (r: Result<nat>)
    ensures AllDecided(t, p, q) ==> r == Ok(MaxDegree(t, q, p))
    ensures r.Err? ==> exists i: nat, j: nat :: i < p && j < q && t(i, j).Err?
    ensures r.Ok? ==> r.value <= q
  {
    var absMaximum := if p > q then p else q;
    var best: nat := 0;
    var i: nat := 0;
    while i < p
      invariant i <= p
      invariant best <= q
      invariant AllDecided(t, p, q) ==> best == MaxDegree(t, q, i)
    {
      var counter, fullRow := Row(t, p, q, i, best);
      if counter.Err? {
        return Err(counter.msg);
      }
      ghost var before := best;
      if counter.value > best {
        best := counter.value;
      }
      if AllDecided(t, p, q) {
        RowStep(t, q, i, before, counter.value, fullRow, best);
      }
      if best >= absMaximum {
        if AllDecided(t, p, q) {
          EarlyStop(t, q, i, p, best);
        }
        return Ok(best);
      }
      i := i + 1;
    }
    return Ok(best);
  }

  /** One row of the optimised loop keeps the best as the largest degree
      so far, whether the row was counted in full or abandoned. */
  lemma RowStep(t: Table, q: nat, i: nat, before: nat, counter: nat, fullRow: bool, best: nat)
    requires before == MaxDegree(t, q, i)
    requires fullRow ==> counter == CountMeets(t, i, q)
    requires !fullRow ==> counter < before && CountMeets(t, i, q) < before
    requires best == if counter > before then counter else before
    ensures best == MaxDegree(t, q, i + 1)
  {
  }

  /** Once the best reaches the number of columns no later row can beat
      it. */
  lemma EarlyStop(t: Table, q: nat, i: nat, p: nat, best: nat)
    requires i < p && best == MaxDegree(t, q, i + 1) && best >= q
    ensures best == MaxDegree(t, q, p)
  {
    MaxDegreeGrowth(t, q, i + 1, p);
  }

  /** The inner loop of the optimised algorithm on row `i`, with `best`
      the largest degree so far: it either counts the whole row or stops
      once the row can no longer beat `best`. */
  method Row(t: Table, p: nat, q: nat, i: nat, best: nat) returns (r: Result<nat>, fullRow: bool)
    requires i < p
    ensures AllDecided(t, p, q) ==> r.Ok?
    ensures r.Err? ==> exists j: nat :: j < q && t(i, j).Err?
    ensures r.Ok? ==> r.value <= q
    ensures AllDecided(t, p, q) && fullRow ==> r.value == CountMeets(t, i, q)
    ensures AllDecided(t, p, q) && !fullRow ==> r.value < best && CountMeets(t, i, q) < best
  {
    var counter: nat := 0;
    var j: nat := 0;
    fullRow := true;
    while j < q
      invariant j <= q
      invariant counter <= j
      invariant AllDecided(t, p, q) ==> counter == CountMeets(t, i, j)
    {
      var m := t(i, j);
      if m.Err? {
        return Err(m.msg), fullRow;
      }
      if m.value {
        counter := counter + 1;
      }
      if q - j + counter < best {
        CountMeetsGrowth(t, i, j + 1, q);
        fullRow := false;
        break;
      }
      j := j + 1;
    }
    return Ok(counter), fullRow;
  }

  /** The legacy loop of `all_intersections` on a `p` by `q` table: one
      counter, never reset between rows, counts every meeting pair; it
      stops early only when every pair has met. When every pair can be
      decided it returns the number of meeting pairs. */
  method Legacy(t: Table, p: nat, q: nat) returns (r: Result<nat>)
    ensures AllDecided(t, p, q) ==> r == Ok(TotalMeets(t, q, p))
    ensures r.Err? ==> exists i: nat, j: nat :: i < p && j < q && t(i, j).Err?
  {
    var absMaximum := p * q;
    var best: nat := 0;
    var counter: nat := 0;
    var i: nat := 0;
    while i < p
      invariant i <= p
      invariant best == counter
      invariant AllDecided(t, p, q) ==> counter == TotalMeets(t, q, i)
    {
      var j: nat := 0;
      while j < q
        invariant j <= q
        invariant AllDecided(t, p, q) ==> counter == TotalMeets(t, q, i) + CountMeets(t, i, j)
      {
        var m := t(i, j);
        if m.Err? {
          return Err(m.msg);
        }
        if m.value {
          counter := counter + 1;
        }
        if counter >= absMaximum {
          PairsSoFar(t, p, q, i, j + 1, counter);
          return Ok(counter);
        }
        j := j + 1;
      }
      best := counter;
      i := i + 1;
    }
    return Ok(best);
  }

  /** A counter that has reached the number of pairs holds the total. */
  lemma PairsSoFar(t: Table, p: nat, q: nat, i: nat, j: nat, counter: nat)
    requires i < p && j <= q && counter >= p * q
    requires AllDecided(t, p, q) ==> counter == TotalMeets(t, q, i) + CountMeets(t, i, j)
    ensures AllDecided(t, p, q) ==> counter == TotalMeets(t, q, p)
  {
    if AllDecided(t, p, q) {
      CountMeetsGrowth(t, i, j, q);
      TotalMeetsGrowth(t, q, i + 1, p);
      TotalMeetsBound(t, q, p);
    }
  }

  /** On a table where every pair meets, the legacy count is the number of
      pairs while the optimised one is the number of columns. */
  lemma EveryPairMeets(p: nat, q: nat)
    ensures MaxDegree((i: nat, j: nat) => Ok(true), q, p) == if p == 0 then 0 else q
    ensures TotalMeets((i: nat, j: nat) => Ok(true), q, p) == p * q
  {
    var t: Table := (i: nat, j: nat) => Ok(true);
    FullRows(t, q, p);
  }

  lemma {:induction false} FullRows(t: Table, q: nat, p: nat)
    requires forall i: nat, j: nat :: t(i, j) == Ok(true)
    ensures MaxDegree(t, q, p) == (if p == 0 then 0 else q) && TotalMeets(t, q, p) == p * q
  {
    if p > 0 {
      FullRows(t, q, p - 1);
      FullRow(t, p - 1, q);
      assert (p - 1) * q + q == p * q;
    }
  }

  lemma {:induction false} FullRow(t: Table, i: nat, n: nat)
    requires forall j: nat :: t(i, j) == Ok(true)
    ensures CountMeets(t, i, n) == n
  {
    if n > 0 {
      FullRow(t, i, n - 1);
    }
  }

  /** `all_intersections` and `ChangesAnalysis.run`: exactly two
      preconditions, the target eliminated from both, in order, then the
      legacy or the optimised loop over their disjuncts. */
  method ChangesRun(states: seq<DPoly>, target: string, o: Oracle, older: bool) returns (r: Result<nat>)
    requires forall k :: 0 <= k < |states| ==> DWellFormed(states[k])
    ensures |states| != 2 ==> r.Err?
    ensures |states| == 2 && (DEliminate(states[0], target, o).Err? || DEliminate(states[1], target, o).Err?) ==> r.Err?
    ensures |states| == 2 && DEliminate(states[0], target, o).Ok? && DEliminate(states[1], target, o).Ok? ==>
      var xs := DEliminate(states[0], target, o).value.polys;
      var ys := DEliminate(states[1], target, o).value.polys;
      AllDecided(MeetsTable(xs, ys, o), |xs|, |ys|) ==>
        r == Ok(if older then TotalMeets(MeetsTable(xs, ys, o), |ys|, |xs|) else MaxDegree(MeetsTable(xs, ys, o), |ys|, |xs|))
  {
    if |states| != 2 {
      return Err("Only 2 buckets supported in changes");
    }
    var first := DEliminate(states[0], target, o);
    if first.Err? {
      return Err(first.msg);
    }
    var second := DEliminate(states[1], target, o);
    if second.Err? {
      return Err(second.msg);
    }
    var xs := first.value.polys;
    var ys := second.value.polys;
    if older {
      r := Legacy(MeetsTable(xs, ys, o), |xs|, |ys|);
    } else {
      r := Optimised(MeetsTable(xs, ys, o), |xs|, |ys|);
    }
  }

  /** The analysis with the default algorithm switch. */
  method ChangesAnalysis(states: seq<DPoly>, target: string, o: Oracle) returns (r: Result<nat>)
    requires forall k :: 0 <= k < |states| ==> DWellFormed(states[k])
    ensures |states| != 2 ==> r.Err?
    ensures |states| == 2 && DEliminate(states[0], target, o).Ok? && DEliminate(states[1], target, o).Ok? ==>
      var xs := DEliminate(states[0], target, o).value.polys;
      var ys := DEliminate(states[1], target, o).value.polys;
      AllDecided(MeetsTable(xs, ys, o), |xs|, |ys|) ==> r == Ok(TotalMeets(MeetsTable(xs, ys, o), |ys|, |xs|))
  {
    r := ChangesRun(states, target, o, OlderAlgorithm);
  }
}
