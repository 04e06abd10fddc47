/** `DisjunctivePoly`: a finite union of `Poly` values, with its own TOP and
    BOTTOM sentinels.

    The union's own status is only ever set by the sentinels. Asking whether
    a live union is empty asks every disjunct (all of them: the answers are
    collected before they are combined), and each disjunct records its
    answer; `DResolve` is that recording.
 */
module Disjunctive {
  import opened Results
  import opened Linear
  import opened Polyhedra
  import opened Filtering
  import Domain

  datatype DPoly = DPoly(polys: seq<Poly>, status: Status)

  function DTop(): (r: DPoly)
    ensures DIsTop(r) && forall o: Oracle :: !DIsBottom(r, o)
  {
    DPoly([], Top)
  }

  function DBottom(): (r: DPoly)
    ensures !DIsTop(r) && forall o: Oracle :: DIsBottom(r, o)
  {
    DPoly([], Bottom)
  }

  /** Every disjunct of a live union records its emptiness. */
  function DResolve(d: DPoly, o: Oracle): (r: DPoly)
    ensures r.status == d.status && |r.polys| == |d.polys|
    ensures d.status != Unknown ==> r == d
    ensures d.status == Unknown ==> forall k :: 0 <= k < |d.polys| ==> r.polys[k] == Resolve(d.polys[k], o)
  {
    if d.status != Unknown then d
    else DPoly(seq(|d.polys|, k requires 0 <= k < |d.polys| => Resolve(d.polys[k], o)), d.status)
  }

  /** What a resolved union reports as empty: recorded BOTTOM, or live with
      every disjunct recorded BOTTOM (so a live union with no disjuncts). */
  predicate BottomRecorded(d: DPoly) {
    d.status == Bottom || (d.status == Unknown && forall k :: 0 <= k < |d.polys| ==> d.polys[k].status == Bottom)
  }

  /** `is_bottom()`. */
  predicate DIsBottom(d: DPoly, o: Oracle): (r: bool)
    ensures r <==> (d.status == Bottom
      || (d.status == Unknown && forall k :: 0 <= k < |d.polys| ==> IsBottom(d.polys[k], o)))
  {
    BottomRecorded(DResolve(d, o))
  }

  /** `is_top()`: recorded TOP, or live with some disjunct recorded TOP. */
  predicate DIsTop(d: DPoly) {
    d.status == Top || (d.status == Unknown && exists k :: 0 <= k < |d.polys| && d.polys[k].status == Top)
  }

  /** One disjunct against every disjunct of the other union, keeping the
      intersections not found empty. The value kept is the one `intersect`
      computes again, which is the one just checked for emptiness before any answer was
      recorded in it. */
  function Against(p: Poly, ys: seq<Poly>, o: Oracle): (r: Result<seq<Poly>>)
    ensures r.Err? <==> RowFails(p, ys, o)
    ensures r.Ok? ==> |r.value| <= |ys|
    ensures r.Ok? ==> forall k :: 0 <= k < |r.value| ==> !IsBottom(r.value[k], o) && FromRow(p, ys, o, r.value[k])
    ensures r.Ok? ==> forall j :: 0 <= j < |ys| ==>
      !IsBottom(Intersect(p, ys[j], o).value, o) ==> Intersect(p, ys[j], o).value in r.value
  {
    if ys == [] then Ok([])
    else
      var c := Intersect(p, ys[0], o);
      var rest := Against(p, ys[1..], o);
      assert forall j :: 1 <= j < |ys| ==> ys[1..][j - 1] == ys[j];
      RowFailsSplit(p, ys, o);
      if c.Err? then Err(c.msg)
      else if rest.Err? then rest
      else
        assert forall k :: 0 <= k < |rest.value| ==> FromRow(p, ys, o, rest.value[k]) by {
          forall k | 0 <= k < |rest.value| ensures FromRow(p, ys, o, rest.value[k]) {
            FromRowShift(p, ys, o, rest.value[k]);
          }
        }
        if IsBottom(c.value, o) then rest
        else
          assert FromRow(p, ys, o, c.value) by { assert Intersect(p, ys[0], o) == Ok(c.value); }
          Ok([c.value] + rest.value)
  }

  /** `p` cannot be intersected with some disjunct of `ys`. */
  predicate RowFails(p: Poly, ys: seq<Poly>, o: Oracle) {
    exists j :: 0 <= j < |ys| && Intersect(p, ys[j], o).Err?
  }

  lemma RowFailsSplit(p: Poly, ys: seq<Poly>, o: Oracle)
    requires ys != []
    ensures RowFails(p, ys, o) <==> Intersect(p, ys[0], o).Err? || RowFails(p, ys[1..], o)
  {
    if RowFails(p, ys[1..], o) {
      var j :| 0 <= j < |ys[1..]| && Intersect(p, ys[1..][j], o).Err?;
      assert ys[1..][j] == ys[j + 1];
    }
  }

  /** `c` is the intersection of `p` with some disjunct of `ys`. */
  predicate FromRow(p: Poly, ys: seq<Poly>, o: Oracle, c: Poly) {
    exists j :: 0 <= j < |ys| && Intersect(p, ys[j], o) == Ok(c)
  }

  lemma FromRowShift(p: Poly, ys: seq<Poly>, o: Oracle, c: Poly)
    requires ys != [] && FromRow(p, ys[1..], o, c)
    ensures FromRow(p, ys, o, c)
  {
    var j :| 0 <= j < |ys[1..]| && Intersect(p, ys[1..][j], o) == Ok(c);
    assert ys[1..][j] == ys[j + 1];
  }

  /** Some pair of disjuncts cannot be intersected. */
  predicate PairFails(xs: seq<Poly>, ys: seq<Poly>, o: Oracle) {
    exists i, j :: 0 <= i < |xs| && 0 <= j < |ys| && Intersect(xs[i], ys[j], o).Err?
  }

  /** A failing pair is one of the first disjunct's or one of the rest's. */
  lemma PairFailsSplit(xs: seq<Poly>, ys: seq<Poly>, o: Oracle)
    requires xs != []
    ensures PairFails(xs, ys, o) <==> RowFails(xs[0], ys, o) || PairFails(xs[1..], ys, o)
  {
    if PairFails(xs, ys, o) {
      var i, j :| 0 <= i < |xs| && 0 <= j < |ys| && Intersect(xs[i], ys[j], o).Err?;
      if i > 0 {
        assert xs[1..][i - 1] == xs[i];
      }
    }
    if PairFails(xs[1..], ys, o) {
      var i, j :| 0 <= i < |xs[1..]| && 0 <= j < |ys| && Intersect(xs[1..][i], ys[j], o).Err?;
      assert xs[1..][i] == xs[i + 1];
    }
  }

  /** Every pair, this union's disjuncts first. */
  function Across(xs: seq<Poly>, ys: seq<Poly>, o: Oracle): (r: Result<seq<Poly>>)
    ensures r.Err? <==> PairFails(xs, ys, o)
  {
    if xs == [] then Ok([])
    else
      var head := Against(xs[0], ys, o);
      var rest := Across(xs[1..], ys, o);
      PairFailsSplit(xs, ys, o);
      if head.Err? then Err(head.msg)
      else if rest.Err? then rest
      else Ok(head.value + rest.value)
  }

  /** At most one disjunct per pair. */
  lemma {:induction false} AcrossSize(xs: seq<Poly>, ys: seq<Poly>, o: Oracle)
    requires Across(xs, ys, o).Ok?
    ensures |Across(xs, ys, o).value| <= |xs| * |ys|
  {
    if xs != [] {
      var head := Against(xs[0], ys, o).value;
      var rest := Across(xs[1..], ys, o).value;
      assert Across(xs, ys, o).value == head + rest;
      AcrossSize(xs[1..], ys, o);
      RowBound(|head|, |rest|, |xs| - 1, |ys|);
    }
  }

  /** One more row of at most `m` on top of `n` rows of at most `m`. */
  lemma RowBound(a: nat, b: nat, n: nat, m: nat)
    requires a <= m && b <= n * m
    ensures a + b <= (n + 1) * m
  {
    assert (n + 1) * m == n * m + m;
  }

  /** `c` is the intersection of some pair of disjuncts. */
  predicate FromPair(xs: seq<Poly>, ys: seq<Poly>, o: Oracle, c: Poly) {
    exists i, j :: 0 <= i < |xs| && 0 <= j < |ys| && Intersect(xs[i], ys[j], o) == Ok(c)
  }

  lemma FromPairShift(xs: seq<Poly>, ys: seq<Poly>, o: Oracle, c: Poly)
    requires xs != [] && FromPair(xs[1..], ys, o, c)
    ensures FromPair(xs, ys, o, c)
  {
    var i, j :| 0 <= i < |xs[1..]| && 0 <= j < |ys| && Intersect(xs[1..][i], ys[j], o) == Ok(c);
    assert xs[1..][i] == xs[i + 1];
  }

  /** Every disjunct kept is the intersection of a pair, not found empty. */
  lemma {:induction false} AcrossSound(xs: seq<Poly>, ys: seq<Poly>, o: Oracle, c: Poly)
    requires Across(xs, ys, o).Ok? && c in Across(xs, ys, o).value
    ensures !IsBottom(c, o) && FromPair(xs, ys, o, c)
  {
    assert xs != [];
    var head := Against(xs[0], ys, o).value;
    var rest := Across(xs[1..], ys, o).value;
    assert Across(xs, ys, o).value == head + rest;
    if c in head {
      var k :| 0 <= k < |head| && head[k] == c;
      assert FromRow(xs[0], ys, o, c);
      var j :| 0 <= j < |ys| && Intersect(xs[0], ys[j], o) == Ok(c);
    } else {
      assert !IsBottom(c, o) && FromPair(xs[1..], ys, o, c) by {
        AcrossSound(xs[1..], ys, o, c);
      }
      FromPairShift(xs, ys, o, c);
    }
  }

  /** Every pair whose intersection is not found empty contributes it. */
  lemma {:induction false} AcrossComplete(xs: seq<Poly>, ys: seq<Poly>, o: Oracle, i: nat, j: nat)
    requires Across(xs, ys, o).Ok? && i < |xs| && j < |ys|
    requires !IsBottom(Intersect(xs[i], ys[j], o).value, o)
    ensures Intersect(xs[i], ys[j], o).value in Across(xs, ys, o).value
  {
    var head := Against(xs[0], ys, o);
    var rest := Across(xs[1..], ys, o);
    assert head.Ok? && rest.Ok?;
    assert Across(xs, ys, o).value == head.value + rest.value;
    var c := Intersect(xs[i], ys[j], o).value;
    if i == 0 {
      assert c in head.value;
    } else {
      assert xs[1..][i - 1] == xs[i];
      assert c in rest.value by {
        AcrossComplete(xs[1..], ys, o, i - 1, j);
      }
    }
  }

  /** `intersect`: either operand empty gives BOTTOM; an operand reporting
      TOP gives the other operand as it stands; otherwise every pair of
      disjuncts is intersected. */
  function DIntersect(a: DPoly, b: DPoly, o: Oracle): (r: Result<DPoly>)
    ensures DIsBottom(a, o) || DIsBottom(b, o) ==> r == Ok(DBottom())
    ensures !DIsBottom(a, o) && !DIsBottom(b, o) && DIsTop(DResolve(a, o)) ==> r == Ok(DResolve(b, o))
    ensures !DIsBottom(a, o) && !DIsBottom(b, o) && !DIsTop(DResolve(a, o)) && DIsTop(DResolve(b, o)) ==>
      r == Ok(DResolve(a, o))
    ensures !DIsBottom(a, o) && !DIsBottom(b, o) && !DIsTop(DResolve(a, o)) && !DIsTop(DResolve(b, o)) ==>
      r.Ok? ==> r.value.status == Unknown && |r.value.polys| <= |a.polys| * |b.polys|
  {
    AcrossSizeFor(a, b, o);
    if DIsBottom(a, o) || DIsBottom(b, o) then Ok(DBottom())
    else
      var a1 := DResolve(a, o);
      var b1 := DResolve(b, o);
      if DIsTop(a1) then Ok(b1)
      else if DIsTop(b1) then Ok(a1)
      else
        var ps := Across(a1.polys, b1.polys, o);
        if ps.Err? then Err(ps.msg) else Ok(DPoly(ps.value, Unknown))
  }

  lemma AcrossSizeFor(a: DPoly, b: DPoly, o: Oracle)
    ensures Across(DResolve(a, o).polys, DResolve(b, o).polys, o).Ok? ==>
      |Across(DResolve(a, o).polys, DResolve(b, o).polys, o).value| <= |a.polys| * |b.polys|
  {
    if Across(DResolve(a, o).polys, DResolve(b, o).polys, o).Ok? {
      AcrossSize(DResolve(a, o).polys, DResolve(b, o).polys, o);
    }
  }

  /** `remove_bottoms`: the disjuncts not found empty, as a live union,
      whatever the union's own status. */
  function DRemoveBottoms(d: DPoly, o: Oracle): (r: DPoly)
    ensures r.status == Unknown && |r.polys| <= |d.polys|
    ensures forall k :: 0 <= k < |r.polys| ==> !IsBottom(r.polys[k], o) && r.polys[k].status != Bottom
    ensures forall k :: 0 <= k < |d.polys| ==> !IsBottom(d.polys[k], o) ==> Resolve(d.polys[k], o) in r.polys
    ensures forall k :: 0 <= k < |r.polys| ==> exists j :: 0 <= j < |d.polys| && r.polys[k] == Resolve(d.polys[j], o)
  {
    DPoly(Kept(d.polys, o), Unknown)
  }

  function Kept(ps: seq<Poly>, o: Oracle): (r: seq<Poly>)
    ensures |r| <= |ps|
    ensures forall k :: 0 <= k < |r| ==> !IsBottom(r[k], o) && r[k].status != Bottom
    ensures forall k :: 0 <= k < |ps| ==> !IsBottom(ps[k], o) ==> Resolve(ps[k], o) in r
    ensures forall k :: 0 <= k < |r| ==> exists j :: 0 <= j < |ps| && r[k] == Resolve(ps[j], o)
  {
    if ps == [] then []
    else
      var rest := Kept(ps[1..], o);
      assert forall j :: 1 <= j < |ps| ==> ps[1..][j - 1] == ps[j];
      if IsBottom(ps[0], o) then rest else [Resolve(ps[0], o)] + rest
  }

  /** Asking for emptiness never takes TOP away: a disjunct recorded TOP
      stays TOP, and one whose solver fails becomes TOP. */
  lemma DResolveKeepsTop(d: DPoly, o: Oracle)
    requires DIsTop(d)
    ensures DIsTop(DResolve(d, o)) && !DIsBottom(d, o)
  {
    if d.status == Unknown {
      var k :| 0 <= k < |d.polys| && d.polys[k].status == Top;
      assert DResolve(d, o).polys[k].status == Top;
    }
  }

  /* ------------------------------------------------------------- order */

  /** Each disjunct as `is_bottom()` leaves it. */
  function Resolved(ps: seq<Poly>, o: Oracle): (r: seq<Poly>)
    ensures |r| == |ps| && forall k :: 0 <= k < |ps| ==> r[k] == Resolve(ps[k], o)
  {
    seq(|ps|, k requires 0 <= k < |ps| => Resolve(ps[k], o))
  }

  /** The test of the comprehensions: not found empty. */
  function NotBottom(o: Oracle): Poly -> bool {
    (q: Poly) => !IsBottom(q, o)
  }

  /** `remove_bottoms` is the comprehension over the disjuncts. */
  lemma {:induction false} KeptIsFilter(ps: seq<Poly>, o: Oracle)
    ensures Kept(ps, o) == Filter(Resolved(ps, o), NotBottom(o))
    decreases |ps|
  {
    if ps != [] {
      KeptIsFilter(ps[1..], o);
      assert Resolved(ps, o)[1..] == Resolved(ps[1..], o);
      ResolveStable(ps[0], o, o);
      assert NotBottom(o)(Resolved(ps, o)[0]) == !IsBottom(ps[0], o);
    }
  }

  /** `remove_bottoms` keeps every disjunct not found empty, once, in the
      order of the union, and nothing else: result `k` is disjunct
      `idx[k]` as recorded, for the increasing positions `idx` of exactly
      the disjuncts not found empty. */
  lemma DRemoveBottomsInOrder(d: DPoly, o: Oracle)
    ensures var idx := Positions(Resolved(d.polys, o), NotBottom(o));
      SelectsInOrder(DRemoveBottoms(d, o).polys, Resolved(d.polys, o), NotBottom(o), idx)
      && forall j :: 0 <= j < |d.polys| ==> (!IsBottom(d.polys[j], o) <==> j in idx)
  {
    var rs := Resolved(d.polys, o);
    KeptIsFilter(d.polys, o);
    FilterInOrder(rs, NotBottom(o));
    forall j | 0 <= j < |d.polys| ensures NotBottom(o)(rs[j]) == !IsBottom(d.polys[j], o) {
      ResolveStable(d.polys[j], o, o);
    }
  }

  /** The intersection of two disjuncts, where it does not raise. */
  function Meet(p: Poly, q: Poly, o: Oracle): Poly {
    var c := Intersect(p, q, o);
    if c.Ok? then c.value else BottomPoly()
  }

  /** The intersections of `p` with every disjunct of `ys`, in order. */
  function RowOf(p: Poly, ys: seq<Poly>, o: Oracle): (r: seq<Poly>)
    ensures |r| == |ys| && forall j :: 0 <= j < |ys| ==> r[j] == Meet(p, ys[j], o)
  {
    seq(|ys|, j requires 0 <= j < |ys| => Meet(p, ys[j], o))
  }

  /** Every pair's intersection, this union's disjuncts first: the order of
      the two nested loops of `intersect`. */
  function PairList(xs: seq<Poly>, ys: seq<Poly>, o: Oracle): seq<Poly> {
    if xs == [] then [] else RowOf(xs[0], ys, o) + PairList(xs[1..], ys, o)
  }

  /** Pair `(i, j)` sits at position `i·|ys| + j`. */
  lemma {:induction false} PairListAt(xs: seq<Poly>, ys: seq<Poly>, o: Oracle, i: nat, j: nat)
    requires i < |xs| && j < |ys|
    ensures |PairList(xs, ys, o)| == |xs| * |ys|
    ensures i * |ys| + j < |PairList(xs, ys, o)|
    ensures PairList(xs, ys, o)[i * |ys| + j] == Meet(xs[i], ys[j], o)
    decreases i
  {
    PairListLength(xs, ys, o);
    var rest := PairList(xs[1..], ys, o);
    assert PairList(xs, ys, o) == RowOf(xs[0], ys, o) + rest;
    if i > 0 {
      PairListAt(xs[1..], ys, o, i - 1, j);
      assert xs[1..][i - 1] == xs[i];
      assert i * |ys| == |ys| + (i - 1) * |ys| by {
        assert i * |ys| == (i - 1 + 1) * |ys|;
      }
      assert PairList(xs, ys, o)[i * |ys| + j] == rest[(i - 1) * |ys| + j];
    }
  }

  lemma {:induction false} PairListLength(xs: seq<Poly>, ys: seq<Poly>, o: Oracle)
    ensures |PairList(xs, ys, o)| == |xs| * |ys|
    decreases |xs|
  {
    if xs != [] {
      PairListLength(xs[1..], ys, o);
      assert |xs| * |ys| == |ys| + (|xs| - 1) * |ys| by {
        assert |xs| * |ys| == (|xs| - 1 + 1) * |ys|;
      }
    }
  }

  /** One disjunct against the other union is the comprehension over its
      row of intersections. */
  lemma {:induction false} AgainstIsFilter(p: Poly, ys: seq<Poly>, o: Oracle)
    requires Against(p, ys, o).Ok?
    ensures Against(p, ys, o).value == Filter(RowOf(p, ys, o), NotBottom(o))
    decreases |ys|
  {
    if ys != [] {
      var row := RowOf(p, ys, o);
      assert row[1..] == RowOf(p, ys[1..], o);
      assert Against(p, ys[1..], o).Ok?;
      AgainstIsFilter(p, ys[1..], o);
      assert row[0] == Intersect(p, ys[0], o).value;
    }
  }

  /** Pairing keeps exactly the intersections not found empty, once each,
      in the order of the nested loops: this union's disjuncts outside, the
      other's inside. */
  lemma {:induction false} AcrossIsFilter(xs: seq<Poly>, ys: seq<Poly>, o: Oracle)
    requires Across(xs, ys, o).Ok?
    ensures Across(xs, ys, o).value == Filter(PairList(xs, ys, o), NotBottom(o))
    ensures SelectsInOrder(Across(xs, ys, o).value, PairList(xs, ys, o), NotBottom(o),
                           Positions(PairList(xs, ys, o), NotBottom(o)))
    decreases |xs|
  {
    if xs != [] {
      assert Against(xs[0], ys, o).Ok? && Across(xs[1..], ys, o).Ok?;
      AgainstIsFilter(xs[0], ys, o);
      assert Across(xs[1..], ys, o).value == Filter(PairList(xs[1..], ys, o), NotBottom(o)) by {
        AcrossIsFilter(xs[1..], ys, o);
      }
      FilterAppend(RowOf(xs[0], ys, o), PairList(xs[1..], ys, o), NotBottom(o));
    }
    FilterInOrder(PairList(xs, ys, o), NotBottom(o));
  }

  /** Where `intersect` pairs two live unions, the result lists the
      non-empty pair intersections in the order of the nested loops. */
  lemma DIntersectInOrder(a: DPoly, b: DPoly, o: Oracle)
    requires !DIsBottom(a, o) && !DIsBottom(b, o) && !DIsTop(DResolve(a, o)) && !DIsTop(DResolve(b, o))
    requires DIntersect(a, b, o).Ok?
    ensures var pairs := PairList(DResolve(a, o).polys, DResolve(b, o).polys, o);
      DIntersect(a, b, o).value.polys == Filter(pairs, NotBottom(o))
      && SelectsInOrder(DIntersect(a, b, o).value.polys, pairs, NotBottom(o), Positions(pairs, NotBottom(o)))
  {
    AcrossIsFilter(DResolve(a, o).polys, DResolve(b, o).polys, o);
  }

  /** Every row of every disjunct has one coefficient per variable. */
  predicate DWellFormed(d: DPoly) {
    forall k :: 0 <= k < |d.polys| ==> WellFormed(d.polys[k])
  }

  /** `eliminate`: an empty or full union is returned as it stands;
      otherwise the variable is eliminated from every disjunct. */
  function DEliminate(d: DPoly, v: string, o: Oracle): (r: Result<DPoly>)
    requires DWellFormed(d)
    ensures DIsBottom(d, o) || DIsTop(DResolve(d, o)) ==> r == Ok(DResolve(d, o))
    ensures !DIsBottom(d, o) && !DIsTop(DResolve(d, o)) ==>
      (r.Err? <==> exists k :: 0 <= k < |d.polys| && Eliminate(Resolve(d.polys[k], o), v, o).Err?)
      && (r.Ok? ==> (r.value.status == Unknown && |r.value.polys| == |d.polys|
                     && forall k :: 0 <= k < |d.polys| ==> Eliminate(Resolve(d.polys[k], o), v, o) == Ok(r.value.polys[k])))
    ensures r.Ok? ==> DWellFormed(r.value)
  {
    var d1 := DResolve(d, o);
    if BottomRecorded(d1) || DIsTop(d1) then Ok(d1)
    else
      var ps := EliminateAll(d1.polys, v, o);
      if ps.Err? then Err(ps.msg) else Ok(DPoly(ps.value, Unknown))
  }

  /* ------------------------------------------------------------ properties */

  /** The points of a union: none when recorded empty, everything when
      recorded full, otherwise the points of its disjuncts. */
  predicate DMember(d: DPoly, x: Row) {
    d.status == Top || (d.status == Unknown && InSome(d.polys, x))
  }

  /** With a consistent oracle, resolving a union never changes its points. */
  lemma DResolveKeepsMembers(d: DPoly, o: Oracle, x: Row)
    requires Consistent(o)
    ensures DMember(DResolve(d, o), x) <==> DMember(d, x)
  {
    if d.status == Unknown {
      var r := DResolve(d, o);
      forall k | 0 <= k < |d.polys|
        ensures Member(r.polys[k], x) <==> Member(d.polys[k], x)
      {
        ResolveKeepsMembers(d.polys[k], o, x);
      }
    }
  }

  /** A union found empty has no points. */
  lemma DIsBottomEmpty(d: DPoly, o: Oracle, x: Row)
    requires Consistent(o) && DIsBottom(d, o)
    ensures !DMember(d, x)
  {
    DResolveKeepsMembers(d, o, x);
  }

  /** Some disjunct holds `x`. */
  predicate InSome(ps: seq<Poly>, x: Row) {
    exists k :: 0 <= k < |ps| && Member(ps[k], x)
  }

  /** A point of some pair's intersection is a point of a disjunct on
      each side. */
  lemma AcrossMembersSound(xs: seq<Poly>, ys: seq<Poly>, o: Oracle, x: Row)
    requires Consistent(o) && Across(xs, ys, o).Ok? && InSome(Across(xs, ys, o).value, x)
    ensures InSome(xs, x) && InSome(ys, x)
  {
    var ps := Across(xs, ys, o).value;
    var k :| 0 <= k < |ps| && Member(ps[k], x);
    AcrossSound(xs, ys, o, ps[k]);
    var i, j :| 0 <= i < |xs| && 0 <= j < |ys| && Intersect(xs[i], ys[j], o) == Ok(ps[k]);
    IntersectMembers(xs[i], ys[j], o, x);
  }

  /** A point of a disjunct on each side is a point of their intersection,
      which is kept. */
  lemma AcrossMembersComplete(xs: seq<Poly>, ys: seq<Poly>, o: Oracle, x: Row)
    requires Consistent(o) && Across(xs, ys, o).Ok? && InSome(xs, x) && InSome(ys, x)
    ensures InSome(Across(xs, ys, o).value, x)
  {
    var ps := Across(xs, ys, o).value;
    var i :| 0 <= i < |xs| && Member(xs[i], x);
    var j :| 0 <= j < |ys| && Member(ys[j], x);
    IntersectMembers(xs[i], ys[j], o, x);
    var c := Intersect(xs[i], ys[j], o).value;
    MemberNotBottom(c, o, x);
    AcrossComplete(xs, ys, o, i, j);
    var k :| 0 <= k < |ps| && ps[k] == c;
    assert Member(ps[k], x);
  }

  /** The points of the pairs' intersections are the common points. */
  lemma AcrossMembers(xs: seq<Poly>, ys: seq<Poly>, o: Oracle, x: Row)
    requires Consistent(o) && Across(xs, ys, o).Ok?
    ensures InSome(Across(xs, ys, o).value, x) <==> InSome(xs, x) && InSome(ys, x)
  {
    if InSome(Across(xs, ys, o).value, x) {
      AcrossMembersSound(xs, ys, o, x);
    }
    if InSome(xs, x) && InSome(ys, x) {
      AcrossMembersComplete(xs, ys, o, x);
    }
  }

  /** Where intersecting two live unions computes the pairs, the points of
      the result are exactly the common points. */
  lemma DIntersectMembers(a: DPoly, b: DPoly, o: Oracle, x: Row)
    requires Consistent(o) && a.status == Unknown && b.status == Unknown
    requires !DIsBottom(a, o) && !DIsBottom(b, o) && !DIsTop(DResolve(a, o)) && !DIsTop(DResolve(b, o))
    requires DIntersect(a, b, o).Ok?
    ensures DMember(DIntersect(a, b, o).value, x) <==> DMember(a, x) && DMember(b, x)
  {
    var a1 := DResolve(a, o);
    var b1 := DResolve(b, o);
    assert DIntersect(a, b, o).value == DPoly(Across(a1.polys, b1.polys, o).value, Unknown);
    DResolveKeepsMembers(a, o, x);
    DResolveKeepsMembers(b, o, x);
    AcrossMembers(a1.polys, b1.polys, o, x);
  }

  /** Removing the empty disjuncts keeps the points of a live union. */
  lemma {:induction false} DRemoveBottomsMembers(d: DPoly, o: Oracle, x: Row)
    requires Consistent(o) && d.status == Unknown
    ensures DMember(DRemoveBottoms(d, o), x) <==> DMember(d, x)
  {
    if DMember(d, x) {
      KeptHasMember(d, o, x);
    }
    if DMember(DRemoveBottoms(d, o), x) {
      KeptOnlyMembers(d, o, x);
    }
  }

  lemma KeptHasMember(d: DPoly, o: Oracle, x: Row)
    requires Consistent(o) && d.status == Unknown && DMember(d, x)
    ensures DMember(DRemoveBottoms(d, o), x)
  {
    var r := DRemoveBottoms(d, o);
    var k :| 0 <= k < |d.polys| && Member(d.polys[k], x);
    MemberNotBottom(d.polys[k], o, x);
    ResolveKeepsMembers(d.polys[k], o, x);
    assert Resolve(d.polys[k], o) in r.polys;
    var j :| 0 <= j < |r.polys| && r.polys[j] == Resolve(d.polys[k], o);
    assert Member(r.polys[j], x);
  }

  lemma KeptOnlyMembers(d: DPoly, o: Oracle, x: Row)
    requires Consistent(o) && d.status == Unknown && DMember(DRemoveBottoms(d, o), x)
    ensures DMember(d, x)
  {
    var r := DRemoveBottoms(d, o);
    var k :| 0 <= k < |r.polys| && Member(r.polys[k], x);
    var j :| 0 <= j < |d.polys| && r.polys[k] == Resolve(d.polys[j], o);
    ResolveKeepsMembers(d.polys[j], o, x);
    assert Member(d.polys[j], x);
  }

  /** Removing the empty disjuncts twice is removing them once. */
  lemma {:induction false} DRemoveBottomsIdempotent(d: DPoly, o: Oracle)
    ensures DRemoveBottoms(DRemoveBottoms(d, o), o) == DRemoveBottoms(d, o)
  {
    KeptIdempotent(d.polys, o);
  }

  lemma {:induction false} KeptIdempotent(ps: seq<Poly>, o: Oracle)
    ensures Kept(Kept(ps, o), o) == Kept(ps, o)
  {
    if ps != [] {
      KeptIdempotent(ps[1..], o);
      if !IsBottom(ps[0], o) {
        var q := Resolve(ps[0], o);
        ResolveStable(ps[0], o, o);
        assert ([q] + Kept(ps[1..], o))[1..] == Kept(ps[1..], o);
      }
    }
  }

  /** The sentinels drop their status: removing the empty disjuncts of TOP
      gives a live union with no disjuncts, which reports empty. */
  lemma RemoveBottomsOfTop(o: Oracle)
    ensures DRemoveBottoms(DTop(), o) == DPoly([], Unknown)
    ensures DIsBottom(DRemoveBottoms(DTop(), o), o) && !DIsBottom(DTop(), o)
  {
  }

  /* ------------------------------------------------------- overlap test */

  function DOps(o: Oracle): Domain.Ops<DPoly> {
    Domain.Ops((d: DPoly) => DResolve(d, o), (d: DPoly) => BottomRecorded(d), (d: DPoly) => DIsTop(d),
               (a: DPoly, b: DPoly) => DIntersect(a, b, o))
  }

  /** `does_intersect` on two unions. */
  function DDoesIntersect(a: DPoly, b: DPoly, o: Oracle): (r: Result<bool>)
    ensures DIsBottom(a, o) || DIsBottom(b, o) ==> r == Ok(false)
    ensures !DIsBottom(a, o) && !DIsBottom(b, o) && (DIsTop(DResolve(a, o)) || DIsTop(DResolve(b, o))) ==> r == Ok(true)
    ensures !DIsBottom(a, o) && !DIsBottom(b, o) && !DIsTop(DResolve(a, o)) && !DIsTop(DResolve(b, o)) ==>
      (r.Err? <==> DIntersect(a, b, o).Err?)
      && (r.Ok? ==> (r.value <==> !DIsBottom(DIntersect(a, b, o).value, o)))
  {
    var ops := DOps(o);
    var a1, b1 := DResolve(a, o), DResolve(b, o);
    assert ops.resolve(a) == a1 && ops.resolve(b) == b1;
    assert Domain.IsBottom(ops, a) == DIsBottom(a, o) && Domain.IsBottom(ops, b) == DIsBottom(b, o);
    assert ops.top(a1) == DIsTop(a1) && ops.top(b1) == DIsTop(b1);
    assert ops.intersect(a1, b1) == DIntersect(a, b, o) by {
      DIntersectResolved(a, b, o);
    }
    var r := Domain.DoesIntersect(ops, a, b);
    assert r.Ok? && ops.intersect(a1, b1).Ok? ==>
      (Domain.IsBottom(ops, ops.intersect(a1, b1).value) == DIsBottom(DIntersect(a, b, o).value, o));
    r
  }

  /** Intersecting resolved operands is intersecting the operands. */
  lemma DIntersectResolved(a: DPoly, b: DPoly, o: Oracle)
    ensures DIntersect(DResolve(a, o), DResolve(b, o), o) == DIntersect(a, b, o)
  {
    DResolveTwice(a, o);
    DResolveTwice(b, o);
  }

  lemma DResolveTwice(d: DPoly, o: Oracle)
    ensures DResolve(DResolve(d, o), o) == DResolve(d, o)
  {
    if d.status == Unknown {
      var r := DResolve(d, o);
      forall k | 0 <= k < |d.polys|
        ensures Resolve(r.polys[k], o) == r.polys[k]
      {
        ResolveStable(d.polys[k], o, o);
      }
    }
  }
}
