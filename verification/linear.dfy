/** Real vectors and linear inequalities `coeffs · x <= bound`.

    The tool stores a system as a matrix `A` and a vector `b` whose rows
    belong together; here each row of `A` travels with its entry of `b` as
    one `Ineq`, so the two always have the same number of rows.
 */
module Linear {

  type Row = seq<real>

  /** One inequality `coeffs · x <= bound`. */
  datatype Ineq = Ineq(coeffs: Row, bound: real)

  /** A conjunction of inequalities, `{x | A x <= b}`. */
  type System = seq<Ineq>

  function Dot(r: Row, x: Row): real
    requires |r| == |x|
  {
    if r == [] then 0.0 else r[0] * x[0] + Dot(r[1..], x[1..])
  }

  function Scale(r: Row, c: real): (s: Row)
    ensures |s| == |r| && forall k :: 0 <= k < |r| ==> s[k] == r[k] * c
  {
    seq(|r|, k requires 0 <= k < |r| => r[k] * c)
  }

  function Minus(r: Row, t: Row): (s: Row)
    requires |r| == |t|
    ensures |s| == |r| && forall k :: 0 <= k < |r| ==> s[k] == r[k] - t[k]
  {
    seq(|r|, k requires 0 <= k < |r| => r[k] - t[k])
  }

  /** The row without column `k` (numpy's `A[:, other]`). */
  function DropAt<T>(r: seq<T>, k: nat): (s: seq<T>)
    requires k < |r|
    ensures |s| == |r| - 1
    ensures forall j :: 0 <= j < k ==> s[j] == r[j]
    ensures forall j :: k <= j < |s| ==> s[j] == r[j + 1]
  {
    r[..k] + r[k + 1..]
  }

  /** Every row has `n` coefficients. */
  predicate Rectangular(sys: System, n: nat) {
    forall i :: 0 <= i < |sys| ==> |sys[i].coeffs| == n
  }

  /** `x` satisfies the inequality. */
  predicate Holds(ineq: Ineq, x: Row) {
    |ineq.coeffs| == |x| && Dot(ineq.coeffs, x) <= ineq.bound
  }

  /** `x` satisfies the inequality turned around, `coeffs · x >= bound`. */
  predicate HoldsReversed(ineq: Ineq, x: Row) {
    |ineq.coeffs| == |x| && Dot(ineq.coeffs, x) >= ineq.bound
  }

  /** `x` satisfies every inequality of the system. */
  predicate Satisfies(sys: System, x: Row) {
    forall i :: 0 <= i < |sys| ==> Holds(sys[i], x)
  }

  /** Both sides of the inequality multiplied by `c`. */
  function ScaleIneq(ineq: Ineq, c: real): Ineq {
    Ineq(Scale(ineq.coeffs, c), ineq.bound * c)
  }

  /** One inequality minus another, side by side. */
  function MinusIneq(a: Ineq, b: Ineq): Ineq
    requires |a.coeffs| == |b.coeffs|
  {
    Ineq(Minus(a.coeffs, b.coeffs), a.bound - b.bound)
  }

  /** The inequality without column `k`. */
  function DropIneq(ineq: Ineq, k: nat): Ineq
    requires k < |ineq.coeffs|
  {
    Ineq(DropAt(ineq.coeffs, k), ineq.bound)
  }

  lemma {:induction false} DotScale(r: Row, c: real, x: Row)
    requires |r| == |x|
    ensures Dot(Scale(r, c), x) == c * Dot(r, x)
    decreases |r|
  {
    if r != [] {
      DotScale(r[1..], c, x[1..]);
      assert forall k :: 0 <= k < |r| - 1 ==> Scale(r, c)[1..][k] == Scale(r[1..], c)[k];
      assert Scale(r, c)[1..] == Scale(r[1..], c);
    }
  }

  lemma {:induction false} DotMinus(r: Row, t: Row, x: Row)
    requires |r| == |t| == |x|
    ensures Dot(Minus(r, t), x) == Dot(r, x) - Dot(t, x)
    decreases |r|
  {
    if r != [] {
      DotMinus(r[1..], t[1..], x[1..]);
      assert forall k :: 0 <= k < |r| - 1 ==> Minus(r, t)[1..][k] == Minus(r[1..], t[1..])[k];
      assert Minus(r, t)[1..] == Minus(r[1..], t[1..]);
    }
  }

  /** Dropping a column from both the row and the point removes exactly
      that column's term. */
  lemma {:induction false} DotDrop(r: Row, x: Row, k: nat)
    requires |r| == |x| && k < |r|
    ensures Dot(DropAt(r, k), DropAt(x, k)) == Dot(r, x) - r[k] * x[k]
    decreases k
  {
    if k == 0 {
      assert DropAt(r, 0) == r[1..];
      assert DropAt(x, 0) == x[1..];
    } else {
      var dr, dx := DropAt(r, k), DropAt(x, k);
      DotDrop(r[1..], x[1..], k - 1);
      assert dr[1..] == DropAt(r[1..], k - 1);
      assert dx[1..] == DropAt(x[1..], k - 1);
      assert dr[0] == r[0] && dx[0] == x[0];
      assert r[1..][k - 1] == r[k] && x[1..][k - 1] == x[k];
      var head := r[0] * x[0];
      var term := r[k] * x[k];
      assert Dot(dr[1..], dx[1..]) == Dot(r[1..], x[1..]) - term;
      assert Dot(dr, dx) == head + Dot(dr[1..], dx[1..]);
      assert Dot(r, x) == head + Dot(r[1..], x[1..]);
    }
  }

  /** A column that is zero contributes nothing. */
  lemma DotDropZero(r: Row, x: Row, k: nat)
    requires |r| == |x| && k < |r| && r[k] == 0.0
    ensures Dot(DropAt(r, k), DropAt(x, k)) == Dot(r, x)
  {
    DotDrop(r, x, k);
  }

  /** Multiplying by a positive factor keeps an inequality. */
  lemma HoldsScale(ineq: Ineq, c: real, x: Row)
    requires c > 0.0 && Holds(ineq, x)
    ensures Holds(ScaleIneq(ineq, c), x)
  {
    DotScale(ineq.coeffs, c, x);
    assert c * (ineq.bound - Dot(ineq.coeffs, x)) >= 0.0;
  }

  /** Multiplying by a negative factor turns an inequality around. */
  lemma HoldsScaleNegative(ineq: Ineq, c: real, x: Row)
    requires c < 0.0 && Holds(ineq, x)
    ensures HoldsReversed(ScaleIneq(ineq, c), x)
  {
    DotScale(ineq.coeffs, c, x);
    assert c * (ineq.bound - Dot(ineq.coeffs, x)) <= 0.0;
  }

  /** An upper bound minus a lower bound bounds the difference. */
  lemma HoldsMinus(a: Ineq, b: Ineq, x: Row)
    requires Holds(a, x) && HoldsReversed(b, x)
    ensures Holds(MinusIneq(a, b), x)
  {
    DotMinus(a.coeffs, b.coeffs, x);
  }

  /** A column whose coefficient is zero can be dropped from the inequality
      and the point alike. */
  lemma HoldsDrop(ineq: Ineq, x: Row, k: nat)
    requires k < |ineq.coeffs| && ineq.coeffs[k] == 0.0 && Holds(ineq, x)
    ensures Holds(DropIneq(ineq, k), DropAt(x, k))
  {
    DotDropZero(ineq.coeffs, x, k);
  }

  /** A point satisfies two stacked systems exactly when it satisfies both. */
  lemma SatisfiesAppend(s: System, t: System, x: Row)
    ensures Satisfies(s + t, x) <==> Satisfies(s, x) && Satisfies(t, x)
  {
    if Satisfies(s, x) && Satisfies(t, x) {
      forall i | 0 <= i < |s + t| ensures Holds((s + t)[i], x) {
        if i >= |s| {
          assert (s + t)[i] == t[i - |s|];
        }
      }
    }
    if Satisfies(s + t, x) {
      forall i | 0 <= i < |s| ensures Holds(s[i], x) {
        assert (s + t)[i] == s[i];
      }
      forall i | 0 <= i < |t| ensures Holds(t[i], x) {
        assert (s + t)[|s| + i] == t[i];
      }
    }
  }
}
