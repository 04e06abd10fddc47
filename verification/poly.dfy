/** `Poly`: a convex region `{x | A x <= b}` over an ordered variable list,
    with the sentinels TOP and BOTTOM and a recorded emptiness status.

    Emptiness comes from a feasibility oracle over the system: `Some(true)`
    feasible, `Some(false)` infeasible, `None` when every solver failed
    (`solve` raised `SolverError`). The answer is recorded in the status, so
    a value that has been asked carries its answer from then on; `Resolve`
    is that recording.
 */
module Polyhedra {
  import opened Results
  import opened Linear
  import opened FourierMotzkin
  import opened Constraints
  import opened Text
  import opened Strings
  import Domain

  /** The default tolerance of `eliminate_single`. */
  const Atol: real := 0.0000000001

  datatype Status = Top | Bottom | Unknown

  datatype Poly = Poly(vars: seq<string>, sys: System, status: Status)

  type Oracle = System -> Option<bool>

  /** `Poly.top()` and `Poly.bottom()`: no variables, no rows. */
  function TopPoly(): (r: Poly)
    ensures IsTop(r) && forall o: Oracle :: !IsBottom(r, o)
  {
    Poly([], [], Top)
  }

  function BottomPoly(): (r: Poly)
    ensures !IsTop(r) && forall o: Oracle :: IsBottom(r, o)
    ensures forall x: Row :: !Member(r, x)
  {
    Poly([], [], Bottom)
  }

  /** Every row has one coefficient per variable. */
  predicate WellFormed(p: Poly) {
    Rectangular(p.sys, |p.vars|)
  }

  /** What `is_bottom()` leaves recorded: an infeasible answer records
      BOTTOM, a solver failure records TOP, a feasible answer records
      nothing. */
  function Resolve(p: Poly, o: Oracle): (r: Poly)
    ensures r.vars == p.vars && r.sys == p.sys
    ensures p.status != Unknown ==> r == p
    ensures p.status == Unknown ==>
      (r.status == Bottom <==> o(p.sys) == Some(false))
      && (r.status == Top <==> o(p.sys) == None)
  {
    if p.status != Unknown then p
    else
      var answer := o(p.sys);
      if answer.None? then p.(status := Top)
      else if !answer.value then p.(status := Bottom)
      else p
  }

  /** `is_bottom()`. */
  predicate IsBottom(p: Poly, o: Oracle) {
    Resolve(p, o).status == Bottom
  }

  /** `is_top()`: only a recorded TOP; nothing is computed. */
  predicate IsTop(p: Poly): (r: bool)
    ensures r ==> forall o: Oracle :: !IsBottom(p, o) && Resolve(p, o).status == Top
  {
    p.status == Top
  }

  /** `eliminate`: an empty or full value is returned as it is (with what
      `is_bottom()` recorded); otherwise the variable's column is projected
      away. A variable not in the list makes `list.index` raise. */
  function Eliminate(p: Poly, v: string, o: Oracle): (r: Result<Poly>)
    requires WellFormed(p)
    ensures IsBottom(p, o) || IsTop(Resolve(p, o)) ==> r == Ok(Resolve(p, o))
    ensures !IsBottom(p, o) && !IsTop(Resolve(p, o)) ==> (r.Err? <==> v !in p.vars)
    ensures r.Ok? && !IsBottom(p, o) && !IsTop(Resolve(p, o)) ==>
      r.value.status == Unknown
      && (exists i :: 0 <= i < |p.vars| && p.vars[i] == v && (forall j :: 0 <= j < i ==> p.vars[j] != v)
           && r.value.vars == DropAt(p.vars, i)
           && r.value.sys == EliminateSingle(p.sys, i, |p.vars|, Atol))
    ensures r.Ok? ==> WellFormed(r.value)
  {
    var q := Resolve(p, o);
    if q.status == Bottom || q.status == Top then Ok(q)
    else
      var found := IndexOf(q.vars, v);
      if found.None? then Err("ValueError: " + v + " is not in list")
      else
        var i := found.value;
        Ok(Poly(DropAt(q.vars, i), EliminateSingle(q.sys, i, |q.vars|, Atol), Unknown))
  }

  /** `intersect`: emptiness is checked before the variable lists are
      compared; the rows are this value's followed by the other's. */
  function Intersect(a: Poly, b: Poly, o: Oracle): (r: Result<Poly>)
    ensures IsBottom(a, o) || IsBottom(b, o) ==> r == Ok(BottomPoly())
    ensures !IsBottom(a, o) && !IsBottom(b, o) ==>
      (r.Err? <==> a.vars != b.vars)
      && (r.Ok? ==> r.value == Poly(a.vars, a.sys + b.sys, Unknown))
  {
    if IsBottom(a, o) || IsBottom(b, o) then Ok(BottomPoly())
    else if a.vars != b.vars then Err("AssertionError: variable lists differ")
    else Ok(Poly(a.vars, a.sys + b.sys, Unknown))
  }

  /** `from_string_constraints`: every variable name is replaced through
      the mapping, in variable order, in every constraint; the parser's
      output is then normalised. No constraints at all gives BOTTOM. */
  function FromStringConstraints(vars: seq<string>, mapping: string -> string,
                                 parse: string -> Symbolic, constraints: seq<string>): (r: Result<Poly>)
    ensures constraints == [] ==> r == Ok(BottomPoly())
    ensures r.Ok? ==> WellFormed(r.value)
    ensures constraints != [] ==>
      (r.Ok? <==> Normalise(AlignAll(ParseAll(vars, mapping, parse, constraints), vars), Eps).Ok?)
    ensures constraints != [] && r.Ok? ==>
      r.value.vars == vars && r.value.status == Unknown
  {
    if constraints == [] then Ok(BottomPoly())
    else
      var parsed := AlignAll(ParseAll(vars, mapping, parse, constraints), vars);
      var sys := Normalise(parsed, Eps);
      if sys.Err? then Err(sys.msg)
      else
        NormaliseShape(parsed, Eps, |vars|);
        Ok(Poly(vars, sys.value, Unknown))
  }

  /** One constraint with every variable name replaced, in order. */
  function RenameAll(c: string, vars: seq<string>, mapping: string -> string): string
    decreases |vars|
  {
    if vars == [] then c
    else RenameAll(ReplaceAll(c, vars[0], mapping(vars[0])), vars[1..], mapping)
  }

  function ParseAll(vars: seq<string>, mapping: string -> string, parse: string -> Symbolic,
                    constraints: seq<string>): (r: seq<Symbolic>)
    ensures |r| == |constraints|
    ensures forall k :: 0 <= k < |constraints| ==> r[k] == parse(RenameAll(constraints[k], vars, mapping))
  {
    seq(|constraints|, k requires 0 <= k < |constraints| => parse(RenameAll(constraints[k], vars, mapping)))
  }

  /* --------------------------------------------------- integer counting */

  function Pow(b: nat, k: nat): nat {
    if k == 0 then 1 else b * Pow(b, k - 1)
  }

  /** `[v] + p` for every `p`. */
  function PrefixEach(v: int, ps: seq<seq<int>>): (r: seq<seq<int>>)
    ensures |r| == |ps| && forall j :: 0 <= j < |ps| ==> r[j] == [v] + ps[j]
  {
    seq(|ps|, j requires 0 <= j < |ps| => [v] + ps[j])
  }

  /** `product(*(range(lo, hi) for i in range(k)))`, first coordinate
      slowest, for the first coordinates `from`, `from + 1`, …, `hi - 1`. */
  function BoxFrom(from: int, lo: int, hi: int, k: nat): (r: seq<seq<int>>)
    requires k > 0
    decreases k, 0, hi - from
  {
    if from >= hi then [] else PrefixEach(from, Box(lo, hi, k - 1)) + BoxFrom(from + 1, lo, hi, k)
  }

  function Box(lo: int, hi: int, k: nat): (r: seq<seq<int>>)
    decreases k, 1
  {
    if k == 0 then [[]] else BoxFrom(lo, lo, hi, k)
  }

  function Width(lo: int, hi: int): nat {
    if hi > lo then hi - lo else 0
  }

  function AsReals(p: seq<int>): (r: Row)
    ensures |r| == |p| && forall i :: 0 <= i < |p| ==> r[i] == p[i] as real
  {
    seq(|p|, i requires 0 <= i < |p| => p[i] as real)
  }

  /** How many of the points satisfy every row. */
  function CountSatisfying(points: seq<seq<int>>, sys: System): (n: nat)
    ensures n <= |points|
  {
    if points == [] then 0
    else (if Satisfies(sys, AsReals(points[0])) then 1 else 0) + CountSatisfying(points[1..], sys)
  }

  /** `count_integers_between(lowerbound, upperbound)`; TOP raises because
      `int('inf')` is not a number. */
  function CountIntegersBetween(p: Poly, o: Oracle, lo: int, hi: int): (r: Result<nat>)
    ensures IsBottom(p, o) ==> r == Ok(0)
    ensures r.Err? <==> IsTop(Resolve(p, o))
    ensures r.Ok? ==> r.value <= Pow(Width(lo, hi), |p.vars|)
  {
    var q := Resolve(p, o);
    if q.status == Bottom then Ok(0)
    else if q.status == Top then Err("ValueError: invalid literal for int() with base 10: 'inf'")
    else
      BoxSize(lo, hi, |q.vars|);
      Ok(CountSatisfying(Box(lo, hi, |q.vars|), q.sys))
  }

  /* ------------------------------------------------------------ properties */

  /** The points of a value: none when it is recorded empty, otherwise the
      solutions of its rows. */
  predicate Member(p: Poly, x: Row) {
    p.status != Bottom && |x| == |p.vars| && Satisfies(p.sys, x)
  }

  /** An oracle that answers "infeasible" only for systems with no solution. */
  ghost predicate Consistent(o: Oracle) {
    forall s: System, x: Row :: o(s) == Some(false) ==> !Satisfies(s, x)
  }

  /** With a consistent oracle, recording an answer never changes the
      points. */
  lemma ResolveKeepsMembers(p: Poly, o: Oracle, x: Row)
    requires Consistent(o)
    ensures Member(Resolve(p, o), x) <==> Member(p, x)
  {
    if p.status == Unknown && o(p.sys) == Some(false) {
      assert !Satisfies(p.sys, x);
    }
  }

  /** With a consistent oracle a value with a point is never found empty. */
  lemma MemberNotBottom(p: Poly, o: Oracle, x: Row)
    requires Consistent(o) && Member(p, x)
    ensures !IsBottom(p, o)
  {
    ResolveKeepsMembers(p, o, x);
  }

  /** Where the intersection succeeds, its points are the common points. */
  lemma IntersectMembers(a: Poly, b: Poly, o: Oracle, x: Row)
    requires Consistent(o) && Intersect(a, b, o).Ok?
    ensures Member(Intersect(a, b, o).value, x) <==> Member(a, x) && Member(b, x)
  {
    ResolveKeepsMembers(a, o, x);
    ResolveKeepsMembers(b, o, x);
    if !IsBottom(a, o) && !IsBottom(b, o) {
      SatisfiesAppend(a.sys, b.sys, x);
    }
  }

  lemma {:induction false} BoxFromSize(from: int, lo: int, hi: int, k: nat)
    requires k > 0 && lo <= from
    ensures |BoxFrom(from, lo, hi, k)| == Width(from, hi) * Pow(Width(lo, hi), k - 1)
    decreases k, 0, hi - from
  {
    if from < hi {
      BoxFromSize(from + 1, lo, hi, k);
      BoxSize(lo, hi, k - 1);
    }
  }

  /** The box has `(hi - lo)^k` points; with no variables, one point (the
      empty tuple). */
  lemma {:induction false} BoxSize(lo: int, hi: int, k: nat)
    ensures |Box(lo, hi, k)| == Pow(Width(lo, hi), k)
    decreases k, 1
  {
    if k > 0 {
      BoxFromSize(lo, lo, hi, k);
    }
  }

  /** Recording is stable: once `is_bottom()` has recorded an answer, no
      oracle is consulted again and asking again changes nothing. */
  lemma ResolveStable(p: Poly, o: Oracle, o2: Oracle)
    ensures Resolve(Resolve(p, o), o) == Resolve(p, o)
    ensures Resolve(p, o).status != Unknown ==> Resolve(Resolve(p, o), o2) == Resolve(p, o)
  {
  }

  /** BOTTOM absorbs on either side, and `is_top` holds of the TOP sentinel
      only by its status. */
  lemma SentinelLaws(p: Poly, o: Oracle)
    ensures Intersect(BottomPoly(), p, o) == Ok(BottomPoly())
    ensures Intersect(p, BottomPoly(), o) == Ok(BottomPoly())
    ensures IsBottom(BottomPoly(), o) && !IsBottom(TopPoly(), o)
    ensures IsTop(TopPoly()) && !IsTop(BottomPoly())
  {
  }

  /** A live value over some variables cannot be intersected with the TOP
      sentinel: its variable list is empty, so the assertion fails. */
  lemma IntersectTopSentinelFails(p: Poly, o: Oracle)
    requires !IsBottom(p, o) && p.vars != []
    ensures Intersect(p, TopPoly(), o).Err?
    ensures Intersect(TopPoly(), p, o).Err?
  {
  }

  /** The intersection's points are exactly the common points. */
  lemma IntersectMeaning(a: Poly, b: Poly, o: Oracle, x: Row)
    requires !IsBottom(a, o) && !IsBottom(b, o) && a.vars == b.vars
    ensures Intersect(a, b, o).Ok?
    ensures Satisfies(Intersect(a, b, o).value.sys, x) <==> Satisfies(a.sys, x) && Satisfies(b.sys, x)
  {
    SatisfiesAppend(a.sys, b.sys, x);
  }

  /** Every value's elimination, in order; the first that raises makes the
      whole raise. */
  function EliminateAll(ps: seq<Poly>, v: string, o: Oracle): (r: Result<seq<Poly>>)
    requires forall k :: 0 <= k < |ps| ==> WellFormed(ps[k])
    ensures r.Err? <==> exists k :: 0 <= k < |ps| && Eliminate(ps[k], v, o).Err?
    ensures r.Ok? ==> |r.value| == |ps| && forall k :: 0 <= k < |ps| ==> Eliminate(ps[k], v, o) == Ok(r.value[k])
  {
    if ps == [] then Ok([])
    else
      var head := Eliminate(ps[0], v, o);
      var rest := EliminateAll(ps[1..], v, o);
      assert forall j :: 1 <= j < |ps| ==> ps[1..][j - 1] == ps[j];
      if head.Err? then Err(head.msg)
      else if rest.Err? then rest
      else Ok([head.value] + rest.value)
  }

  /** Asking a value about its emptiness first changes nothing the overlap
      test computes, so the answers recorded by earlier tests on the same
      values do not matter. */
  lemma DoesIntersectResolved(a: Poly, b: Poly, o: Oracle)
    ensures DoesIntersect(Resolve(a, o), b, o) == DoesIntersect(a, b, o)
    ensures DoesIntersect(a, Resolve(b, o), o) == DoesIntersect(a, b, o)
  {
    ResolveStable(a, o, o);
    ResolveStable(b, o, o);
  }

  /** Intersection keeps well-formedness. */
  lemma IntersectWellFormed(a: Poly, b: Poly, o: Oracle)
    requires WellFormed(a) && WellFormed(b)
    ensures Intersect(a, b, o).Ok? ==> WellFormed(Intersect(a, b, o).value)
  {
    if !IsBottom(a, o) && !IsBottom(b, o) && a.vars == b.vars {
      var s := a.sys + b.sys;
      assert forall i :: |a.sys| <= i < |s| ==> s[i] == b.sys[i - |a.sys|];
    }
  }

  /** Eliminating a variable projects every solution onto the remaining
      variables, provided no coefficient of the variable is a nonzero
      value under the tolerance. */
  lemma EliminateSound(p: Poly, v: string, o: Oracle, x: Row)
    requires WellFormed(p) && |x| == |p.vars| && Satisfies(p.sys, x)
    requires !IsBottom(p, o) && !IsTop(Resolve(p, o))
    requires v in p.vars
    requires Separated(p.sys, IndexOf(p.vars, v).value, Atol)
    ensures Eliminate(p, v, o).Ok?
    ensures (exists i :: 0 <= i < |p.vars| && p.vars[i] == v
               && Eliminate(p, v, o).value.vars == DropAt(p.vars, i)
               && Satisfies(Eliminate(p, v, o).value.sys, DropAt(x, i)))
  {
    var i := IndexOf(p.vars, v).value;
    EliminationSound(p.sys, i, |p.vars|, Atol, x);
  }

  /** Eliminating twice: the first call removes the variable from the list,
      so a second elimination of the same (non-repeated) variable raises,
      unless the projection is found empty or unsolvable. */
  lemma EliminateTwiceRaises(p: Poly, v: string, o: Oracle)
    requires WellFormed(p) && !IsBottom(p, o) && !IsTop(Resolve(p, o))
    requires v in p.vars && multiset(p.vars)[v] == 1
    ensures Eliminate(p, v, o).Ok?
    ensures var q := Eliminate(p, v, o).value;
      !IsBottom(q, o) && !IsTop(Resolve(q, o)) ==> Eliminate(q, v, o).Err?
  {
    var i := IndexOf(p.vars, v).value;
    var rest := DropAt(p.vars, i);
    assert p.vars == p.vars[..i] + [v] + p.vars[i + 1..];
    assert rest == p.vars[..i] + p.vars[i + 1..];
    assert multiset(p.vars) == multiset(p.vars[..i]) + multiset{v} + multiset(p.vars[i + 1..]);
    assert multiset(rest)[v] == 0;
  }

  /** Counting sees only box points that satisfy every row: a satisfying
      box point makes the count positive. */
  lemma {:induction false} CountSatisfyingWitness(points: seq<seq<int>>, sys: System, j: nat)
    requires j < |points| && Satisfies(sys, AsReals(points[j]))
    ensures CountSatisfying(points, sys) >= 1
    decreases j
  {
    if j > 0 {
      CountSatisfyingWitness(points[1..], sys, j - 1);
    }
  }

  /** `x` is an integer point of the box `[lo, hi)^k`. */
  predicate InBox(x: seq<int>, lo: int, hi: int, k: nat) {
    |x| == k && forall i :: 0 <= i < k ==> lo <= x[i] < hi
  }

  /** No point is listed twice. */
  predicate Distinct(points: seq<seq<int>>) {
    forall i, j :: 0 <= i < j < |points| ==> points[i] != points[j]
  }

  /** The box lists exactly the integer points of `[lo, hi)^k`. */
  lemma {:induction false} BoxMembers(lo: int, hi: int, k: nat)
    ensures forall x :: x in Box(lo, hi, k) <==> InBox(x, lo, hi, k)
    decreases k, 1
  {
    if k == 0 {
      forall x | InBox(x, lo, hi, 0) ensures x in Box(lo, hi, 0) {
        assert x == [];
      }
    } else {
      BoxFromMembers(lo, lo, hi, k);
    }
  }

  lemma {:induction false} BoxFromMembers(from: int, lo: int, hi: int, k: nat)
    requires k > 0 && lo <= from
    ensures forall x :: x in BoxFrom(from, lo, hi, k) <==> InBox(x, lo, hi, k) && from <= x[0]
    decreases k, 0, hi - from
  {
    if from < hi {
      var inner := Box(lo, hi, k - 1);
      var head := PrefixEach(from, inner);
      BoxMembers(lo, hi, k - 1);
      BoxFromMembers(from + 1, lo, hi, k);
      assert BoxFrom(from, lo, hi, k) == head + BoxFrom(from + 1, lo, hi, k);
      forall x ensures x in head <==> InBox(x, lo, hi, k) && x[0] == from {
        if x in head {
          var j :| 0 <= j < |head| && head[j] == x;
          assert x[1..] == inner[j] && inner[j] in inner;
          assert InBox(inner[j], lo, hi, k - 1);
          forall i | 0 < i < k ensures lo <= x[i] < hi {
            assert x[i] == inner[j][i - 1];
          }
        }
        if InBox(x, lo, hi, k) && x[0] == from {
          assert InBox(x[1..], lo, hi, k - 1) by {
            forall i | 0 <= i < k - 1 ensures lo <= x[1..][i] < hi {
              assert x[1..][i] == x[i + 1];
            }
          }
          var j :| 0 <= j < |inner| && inner[j] == x[1..];
          assert head[j] == x;
        }
      }
    } else {
      forall x | InBox(x, lo, hi, k) ensures x[0] < from {
        assert x[0] < hi;
      }
    }
  }

  /** The box lists no point twice. */
  lemma {:induction false} BoxDistinct(lo: int, hi: int, k: nat)
    ensures Distinct(Box(lo, hi, k))
    decreases k, 1
  {
    if k > 0 {
      BoxFromDistinct(lo, lo, hi, k);
    }
  }

  lemma {:induction false} BoxFromDistinct(from: int, lo: int, hi: int, k: nat)
    requires k > 0 && lo <= from
    ensures Distinct(BoxFrom(from, lo, hi, k))
    decreases k, 0, hi - from
  {
    if from < hi {
      var inner := Box(lo, hi, k - 1);
      var head := PrefixEach(from, inner);
      var tail := BoxFrom(from + 1, lo, hi, k);
      BoxDistinct(lo, hi, k - 1);
      BoxFromDistinct(from + 1, lo, hi, k);
      BoxFromMembers(from + 1, lo, hi, k);
      assert Distinct(head) by {
        forall i, j | 0 <= i < j < |head| ensures head[i] != head[j] {
          assert head[i][1..] == inner[i] && head[j][1..] == inner[j];
        }
      }
      forall a, b | a in head && b in tail ensures a != b {
        assert a[0] == from && b[0] >= from + 1;
      }
      DistinctConcat(head, tail);
    }
  }

  lemma DistinctConcat(a: seq<seq<int>>, b: seq<seq<int>>)
    requires Distinct(a) && Distinct(b)
    requires forall x, y :: x in a && y in b ==> x != y
    ensures Distinct(a + b)
  {
    var c := a + b;
    forall i, j | 0 <= i < j < |c| ensures c[i] != c[j] {
      if j < |a| {
        assert c[i] == a[i] && c[j] == a[j];
      } else if i >= |a| {
        assert c[i] == b[i - |a|] && c[j] == b[j - |a|];
      } else {
        assert c[i] == a[i] && c[j] == b[j - |a|];
        assert a[i] in a && b[j - |a|] in b;
      }
    }
  }

  /** The points of the box that satisfy every row. */
  function BoxSolutions(sys: System, lo: int, hi: int, k: nat): set<seq<int>> {
    set x | x in Box(lo, hi, k) && Satisfies(sys, AsReals(x))
  }

  /** Over a list with no repeats, the count is the number of satisfying
      points. */
  lemma {:induction false} CountSatisfyingSet(points: seq<seq<int>>, sys: System)
    requires Distinct(points)
    ensures CountSatisfying(points, sys) == |set x | x in points && Satisfies(sys, AsReals(x))|
    decreases |points|
  {
    if points != [] {
      var rest := points[1..];
      CountSatisfyingSet(rest, sys);
      var all := set x | x in points && Satisfies(sys, AsReals(x));
      var later := set x | x in rest && Satisfies(sys, AsReals(x));
      assert points[0] !in rest by {
        forall j | 0 <= j < |rest| ensures rest[j] != points[0] {
          assert rest[j] == points[j + 1];
        }
      }
      if Satisfies(sys, AsReals(points[0])) {
        assert all == later + {points[0]};
      } else {
        assert all == later;
      }
    }
  }

  /** `count_integers_between` counts exactly the integer points of
      `[lo, hi)^n` that satisfy every row, each once. */
  lemma CountIntegersBetweenMeaning(p: Poly, o: Oracle, lo: int, hi: int)
    requires !IsBottom(p, o) && !IsTop(Resolve(p, o))
    ensures CountIntegersBetween(p, o, lo, hi) == Ok(|BoxSolutions(p.sys, lo, hi, |p.vars|)|)
    ensures forall x :: x in BoxSolutions(p.sys, lo, hi, |p.vars|) <==>
      InBox(x, lo, hi, |p.vars|) && Satisfies(p.sys, AsReals(x))
  {
    BoxDistinct(lo, hi, |p.vars|);
    BoxMembers(lo, hi, |p.vars|);
    CountSatisfyingSet(Box(lo, hi, |p.vars|), p.sys);
  }

  /** A satisfying integer point in the box makes the count positive. */
  lemma CountWitness(p: Poly, o: Oracle, lo: int, hi: int, x: seq<int>)
    requires !IsBottom(p, o) && !IsTop(Resolve(p, o))
    requires InBox(x, lo, hi, |p.vars|) && Satisfies(p.sys, AsReals(x))
    ensures CountIntegersBetween(p, o, lo, hi).value >= 1
  {
    CountIntegersBetweenMeaning(p, o, lo, hi);
    assert x in BoxSolutions(p.sys, lo, hi, |p.vars|);
  }

  /* ------------------------------------------------------- overlap test */

  /** The operations of `Poly`, for the shared overlap test. */
  function Ops(o: Oracle): Domain.Ops<Poly> {
    Domain.Ops((p: Poly) => Resolve(p, o), (p: Poly) => p.status == Bottom, (p: Poly) => p.status == Top,
               (a: Poly, b: Poly) => Intersect(a, b, o))
  }

  /** `does_intersect` on two values. */
  function DoesIntersect(a: Poly, b: Poly, o: Oracle): (r: Result<bool>)
    ensures IsBottom(a, o) || IsBottom(b, o) ==> r == Ok(false)
    ensures !IsBottom(a, o) && !IsBottom(b, o) && (IsTop(Resolve(a, o)) || IsTop(Resolve(b, o))) ==> r == Ok(true)
    ensures !IsBottom(a, o) && !IsBottom(b, o) && !IsTop(Resolve(a, o)) && !IsTop(Resolve(b, o)) ==>
      (r.Err? <==> a.vars != b.vars)
      && (r.Ok? ==> (r.value <==> o(a.sys + b.sys) != Some(false)))
  {
    Domain.DoesIntersect(Ops(o), a, b)
  }

  /** Oracles that judge a stacked system the same in either stacking order
      (every real solver does: the region is the same). */
  ghost predicate OrderBlind(o: Oracle) {
    forall s: System, t: System :: o(s + t) == o(t + s)
  }

  /** The overlap test is symmetric for an order-blind oracle. */
  lemma DoesIntersectSymmetric(a: Poly, b: Poly, o: Oracle)
    requires OrderBlind(o)
    ensures DoesIntersect(a, b, o) == DoesIntersect(b, a, o)
  {
    Domain.DoesIntersectSymmetric(Ops(o), a, b);
    assert o(a.sys + b.sys) == o(b.sys + a.sys);
  }
}
