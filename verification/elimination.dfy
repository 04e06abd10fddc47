/** Fourier–Motzkin elimination of one column (`eliminate_single`).

    Rows are sorted by the sign of their coefficient on the eliminated
    column, using the tolerance `atol`: positive (`>= atol`), negative
    (`<= -atol`) and core (`|a| < atol`). Each positive row is divided by its
    coefficient, each negative row likewise (which flips it into a lower
    bound on the variable), and every positive/negative pair is subtracted,
    positive-major. The core rows follow with the column dropped.
 */
module FourierMotzkin {
  import opened Linear

  datatype Side = Pos | Neg | Core

  function Abs(v: real): real {
    if v < 0.0 then -v else v
  }

  /** The three row classes of `eliminate_single`. */
  predicate OnSide(v: real, side: Side, atol: real) {
    match side
    case Pos => v >= atol
    case Neg => v <= -atol
    case Core => Abs(v) < atol
  }

  /** The column `index` of the system. */
  function Column(sys: System, index: nat): (col: seq<real>)
    requires forall i :: 0 <= i < |sys| ==> index < |sys[i].coeffs|
    ensures |col| == |sys| && forall i :: 0 <= i < |sys| ==> col[i] == sys[i].coeffs[index]
  {
    seq(|sys|, i requires 0 <= i < |sys| => sys[i].coeffs[index])
  }

  /** The indices of the entries on `side`, in increasing order (the list
      comprehensions `phi_positive`, `phi_negative`, `phi_core`). */
  function Where(col: seq<real>, side: Side, atol: real): (r: seq<nat>)
    ensures forall k :: 0 <= k < |r| ==> r[k] < |col| && OnSide(col[r[k]], side, atol)
    ensures forall i :: 0 <= i < |col| && OnSide(col[i], side, atol) ==> i in r
    ensures forall k, l :: 0 <= k < l < |r| ==> r[k] < r[l]
    decreases |col|
  {
    if col == [] then []
    else
      var n := |col| - 1;
      var front := Where(col[..n], side, atol);
      if OnSide(col[n], side, atol) then front + [n] else front
  }

  /** Row `p` (positive) combined with row `q` (negative): both divided by
      their coefficient on `index`, subtracted, and the column dropped. */
  function Combine(sys: System, index: nat, p: nat, q: nat): (row: Ineq)
    requires p < |sys| && q < |sys|
    requires index < |sys[p].coeffs| == |sys[q].coeffs|
    requires sys[p].coeffs[index] != 0.0 && sys[q].coeffs[index] != 0.0
    ensures |row.coeffs| == |sys[p].coeffs| - 1
  {
    Subtract(sys[p], sys[q], index, 1.0 / sys[p].coeffs[index], 1.0 / sys[q].coeffs[index])
  }

  /** `ip * p - iq * q` without column `index`. */
  function Subtract(p: Ineq, q: Ineq, index: nat, ip: real, iq: real): (row: Ineq)
    requires index < |p.coeffs| == |q.coeffs|
    ensures |row.coeffs| == |p.coeffs| - 1
  {
    DropIneq(MinusIneq(ScaleIneq(p, ip), ScaleIneq(q, iq)), index)
  }

  /** The well-formed inputs: `index < cols(A)` and every row has `cols`
      coefficients. */
  predicate Shaped(sys: System, index: nat, cols: nat) {
    index < cols && Rectangular(sys, cols)
  }

  /** The positive rows point up and the negative rows down: the premises
      under which every pair can be combined. */
  predicate Signed(sys: System, index: nat, cols: nat, atol: real, pos: seq<nat>, neg: seq<nat>) {
    atol > 0.0 && Shaped(sys, index, cols)
    && (forall k :: 0 <= k < |pos| ==> pos[k] < |sys| && sys[pos[k]].coeffs[index] >= atol)
    && (forall k :: 0 <= k < |neg| ==> neg[k] < |sys| && sys[neg[k]].coeffs[index] <= -atol)
  }

  /** Every positive row combined with every negative row, positive-major. */
  function Cross(sys: System, index: nat, cols: nat, atol: real, pos: seq<nat>, neg: seq<nat>): (r: System)
    requires Signed(sys, index, cols, atol, pos, neg)
    ensures |r| == |pos| * |neg|
    ensures Rectangular(r, cols - 1)
    decreases |pos|
  {
    if pos == [] then []
    else
      var first := seq(|neg|, j requires 0 <= j < |neg| => Combine(sys, index, pos[0], neg[j]));
      var rest := Cross(sys, index, cols, atol, pos[1..], neg);
      assert |first| + |rest| == |pos| * |neg| by {
        assert |pos| * |neg| == |neg| + (|pos| - 1) * |neg|;
      }
      first + rest
  }

  /** `eliminate_single(index, A, b, atol)`. The source asserts
      `index < A.shape[1]` and `A.shape[0] == b.shape[0]`; the second holds
      by construction here. */
  function EliminateSingle(sys: System, index: nat, cols: nat, atol: real): (r: System)
    requires atol > 0.0 && Shaped(sys, index, cols)
    ensures Rectangular(r, cols - 1)
  {
    var col := Column(sys, index);
    var pos := Where(col, Pos, atol);
    var neg := Where(col, Neg, atol);
    var core := Where(col, Core, atol);
    Cross(sys, index, cols, atol, pos, neg) + CoreRows(sys, index, core)
  }

  /** The rows listed in `core`, each with the column dropped. */
  function CoreRows(sys: System, index: nat, core: seq<nat>): (r: System)
    requires forall k :: 0 <= k < |core| ==> core[k] < |sys| && index < |sys[core[k]].coeffs|
    ensures |r| == |core| && forall k :: 0 <= k < |core| ==> r[k] == DropIneq(sys[core[k]], index)
  {
    seq(|core|, k requires 0 <= k < |core| => DropIneq(sys[core[k]], index))
  }

  /* ------------------------------------------------------------ properties */

  /** With a positive tolerance every row lies on exactly one side. */
  lemma SidesPartition(v: real, atol: real)
    requires atol > 0.0
    ensures OnSide(v, Pos, atol) || OnSide(v, Neg, atol) || OnSide(v, Core, atol)
    ensures !(OnSide(v, Pos, atol) && OnSide(v, Neg, atol))
    ensures !(OnSide(v, Pos, atol) && OnSide(v, Core, atol))
    ensures !(OnSide(v, Neg, atol) && OnSide(v, Core, atol))
  {
  }

  /** The three index lists together number the rows of the system. */
  lemma {:induction false} WhereCounts(col: seq<real>, atol: real)
    requires atol > 0.0
    ensures |Where(col, Pos, atol)| + |Where(col, Neg, atol)| + |Where(col, Core, atol)| == |col|
    decreases |col|
  {
    if col != [] {
      WhereCounts(col[..|col| - 1], atol);
      SidesPartition(col[|col| - 1], atol);
    }
  }

  /** `p * n + c` rows never exceed `(p + n + c)^2`. */
  lemma MulLe(a: nat, b: nat, k: nat)
    requires a <= b
    ensures a * k <= b * k
  {
  }

  lemma ProductBound(p: nat, n: nat, c: nat)
    ensures p * n + c <= (p + n + c) * (p + n + c)
  {
    var s := p + n + c;
    MulLe(p, s, n);
    MulLe(n + c, s, s);
    if c > 0 {
      MulLe(1, s, c);
    }
    assert s * n + s * c == s * (n + c);
  }

  /** Row counts of the output: `|pos| * |neg| + |core|`, and never more
      than the square of the input's. */
  lemma EliminateSingleShape(sys: System, index: nat, cols: nat, atol: real)
    requires atol > 0.0 && Shaped(sys, index, cols)
    ensures var col := Column(sys, index);
      |EliminateSingle(sys, index, cols, atol)|
        == |Where(col, Pos, atol)| * |Where(col, Neg, atol)| + |Where(col, Core, atol)|
    ensures |EliminateSingle(sys, index, cols, atol)| <= |sys| * |sys|
  {
    var col := Column(sys, index);
    WhereCounts(col, atol);
    ProductBound(|Where(col, Pos, atol)|, |Where(col, Neg, atol)|, |Where(col, Core, atol)|);
  }

  lemma MulStep(i: nat, n: nat)
    requires i > 0
    ensures i * n == n + (i - 1) * n
  {
  }

  /** Pair `(i, j)` sits at row `i * |neg| + j` of the cross product. */
  lemma {:induction false} CrossAt(sys: System, index: nat, cols: nat, atol: real, pos: seq<nat>, neg: seq<nat>, i: nat, j: nat)
    returns (k: nat)
    requires Signed(sys, index, cols, atol, pos, neg)
    requires i < |pos| && j < |neg|
    ensures k == i * |neg| + j
    ensures k < |Cross(sys, index, cols, atol, pos, neg)|
    ensures Cross(sys, index, cols, atol, pos, neg)[k] == Combine(sys, index, pos[i], neg[j])
    decreases i
  {
    var r := Cross(sys, index, cols, atol, pos, neg);
    var rest := Cross(sys, index, cols, atol, pos[1..], neg);
    assert r[|neg|..] == rest;
    if i == 0 {
      k := j;
    } else {
      var k' := CrossAt(sys, index, cols, atol, pos[1..], neg, i - 1, j);
      k := |neg| + k';
      MulStep(i, |neg|);
      assert r[k] == rest[k'];
    }
  }

  /** The output lists the combined rows first and then every core row,
      unchanged apart from the dropped column, in input order. */
  lemma EliminateSingleCore(sys: System, index: nat, cols: nat, atol: real, k: nat)
    requires atol > 0.0 && Shaped(sys, index, cols)
    requires k < |sys| && Abs(sys[k].coeffs[index]) < atol
    ensures DropIneq(sys[k], index) in EliminateSingle(sys, index, cols, atol)
  {
    var col := Column(sys, index);
    var core := Where(col, Core, atol);
    assert OnSide(col[k], Core, atol);
    var m :| 0 <= m < |core| && core[m] == k;
    var r := EliminateSingle(sys, index, cols, atol);
    var np := |Cross(sys, index, cols, atol, Where(col, Pos, atol), Where(col, Neg, atol))|;
    assert r[np + m] == DropIneq(sys[k], index);
  }

  /** `r` lists every positive/negative pair, positive-major (pair `(i, j)`
      at row `i·|neg| + j`), and then the core rows, each with the column
      dropped, in input order. */
  predicate LaidOut(r: System, sys: System, index: nat, cols: nat, atol: real, pos: seq<nat>, neg: seq<nat>, core: seq<nat>)
    requires Signed(sys, index, cols, atol, pos, neg)
    requires forall k :: 0 <= k < |core| ==> core[k] < |sys|
  {
    |r| == |pos| * |neg| + |core|
    && (forall i, j :: 0 <= i < |pos| && 0 <= j < |neg| ==>
          i * |neg| + j < |pos| * |neg| && r[i * |neg| + j] == Combine(sys, index, pos[i], neg[j]))
    && (forall k :: 0 <= k < |core| ==> r[|pos| * |neg| + k] == DropIneq(sys[core[k]], index))
  }

  /** The whole layout of the output: the combined pairs of the positive
      and negative rows, then the core rows, in input order. */
  lemma EliminateSingleLayout(sys: System, index: nat, cols: nat, atol: real)
    requires atol > 0.0 && Shaped(sys, index, cols)
    ensures var col := Column(sys, index);
      LaidOut(EliminateSingle(sys, index, cols, atol), sys, index, cols, atol,
              Where(col, Pos, atol), Where(col, Neg, atol), Where(col, Core, atol))
  {
    var col := Column(sys, index);
    CrossThenCore(sys, index, cols, atol, Where(col, Pos, atol), Where(col, Neg, atol), Where(col, Core, atol));
  }

  lemma CrossThenCore(sys: System, index: nat, cols: nat, atol: real, pos: seq<nat>, neg: seq<nat>, core: seq<nat>)
    requires Signed(sys, index, cols, atol, pos, neg)
    requires forall k :: 0 <= k < |core| ==> core[k] < |sys|
    ensures LaidOut(Cross(sys, index, cols, atol, pos, neg) + CoreRows(sys, index, core), sys, index, cols, atol, pos, neg, core)
  {
    var cross := Cross(sys, index, cols, atol, pos, neg);
    var r := cross + CoreRows(sys, index, core);
    forall i, j | 0 <= i < |pos| && 0 <= j < |neg|
      ensures i * |neg| + j < |pos| * |neg| && r[i * |neg| + j] == Combine(sys, index, pos[i], neg[j])
    {
      var m := CrossAt(sys, index, cols, atol, pos, neg, i, j);
      assert r[m] == cross[m];
    }
  }

  /** Every positive/negative pair is combined. */
  lemma EliminateSingleCombines(sys: System, index: nat, cols: nat, atol: real, p: nat, q: nat)
    requires atol > 0.0 && Shaped(sys, index, cols)
    requires p < |sys| && sys[p].coeffs[index] >= atol
    requires q < |sys| && sys[q].coeffs[index] <= -atol
    ensures Combine(sys, index, p, q) in EliminateSingle(sys, index, cols, atol)
  {
    var col := Column(sys, index);
    var pos, neg := Where(col, Pos, atol), Where(col, Neg, atol);
    assert OnSide(col[p], Pos, atol) && OnSide(col[q], Neg, atol);
    var i :| 0 <= i < |pos| && pos[i] == p;
    var j :| 0 <= j < |neg| && neg[j] == q;
    var cross := Cross(sys, index, cols, atol, pos, neg);
    var m := CrossAt(sys, index, cols, atol, pos, neg, i, j);
    var r := EliminateSingle(sys, index, cols, atol);
    assert r[..|cross|] == cross;
    assert r[m] == cross[m];
  }

  lemma InversePositive(a: real)
    requires a > 0.0
    ensures 1.0 / a > 0.0 && a * (1.0 / a) == 1.0
  {
  }

  lemma InverseNegative(a: real)
    requires a < 0.0
    ensures 1.0 / a < 0.0 && a * (1.0 / a) == 1.0
  {
  }

  /** Two rows scaled by multipliers of opposite signs that cancel on the
      column, and subtracted: the difference, without the column, holds at
      the projection of a point that satisfies both rows. */
  lemma PairSound(p: Ineq, q: Ineq, index: nat, ip: real, iq: real, x: Row)
    requires index < |p.coeffs| == |q.coeffs| == |x|
    requires ip > 0.0 && iq < 0.0
    requires MinusIneq(ScaleIneq(p, ip), ScaleIneq(q, iq)).coeffs[index] == 0.0
    requires Holds(p, x) && Holds(q, x)
    ensures Holds(Subtract(p, q, index, ip, iq), DropAt(x, index))
  {
    HoldsScale(p, ip, x);
    HoldsScaleNegative(q, iq, x);
    HoldsMinus(ScaleIneq(p, ip), ScaleIneq(q, iq), x);
    HoldsDrop(MinusIneq(ScaleIneq(p, ip), ScaleIneq(q, iq)), x, index);
  }

  /** Dividing by its own coefficient makes both rows' coefficient one. */
  lemma UnitCoefficients(p: Ineq, q: Ineq, index: nat)
    requires index < |p.coeffs| == |q.coeffs|
    requires p.coeffs[index] > 0.0 && q.coeffs[index] < 0.0
    ensures 1.0 / p.coeffs[index] > 0.0 && 1.0 / q.coeffs[index] < 0.0
    ensures MinusIneq(ScaleIneq(p, 1.0 / p.coeffs[index]), ScaleIneq(q, 1.0 / q.coeffs[index])).coeffs[index] == 0.0
  {
    InversePositive(p.coeffs[index]);
    InverseNegative(q.coeffs[index]);
  }

  /** One combined row holds at the projection of any point that satisfies
      both of the rows it comes from. */
  lemma CombineSound(sys: System, index: nat, p: nat, q: nat, x: Row)
    requires p < |sys| && q < |sys|
    requires index < |sys[p].coeffs| == |sys[q].coeffs| == |x|
    requires sys[p].coeffs[index] > 0.0 && sys[q].coeffs[index] < 0.0
    requires Holds(sys[p], x) && Holds(sys[q], x)
    ensures Holds(Combine(sys, index, p, q), DropAt(x, index))
  {
    UnitCoefficients(sys[p], sys[q], index);
    PairSound(sys[p], sys[q], index, 1.0 / sys[p].coeffs[index], 1.0 / sys[q].coeffs[index], x);
  }

  /** The cross product holds at the projection of every solution. */
  lemma {:induction false} CrossSound(sys: System, index: nat, cols: nat, atol: real, pos: seq<nat>, neg: seq<nat>, x: Row)
    requires Signed(sys, index, cols, atol, pos, neg) && |x| == cols
    requires Satisfies(sys, x)
    ensures Satisfies(Cross(sys, index, cols, atol, pos, neg), DropAt(x, index))
    decreases |pos|
  {
    if pos != [] {
      var y := DropAt(x, index);
      var first := seq(|neg|, j requires 0 <= j < |neg| => Combine(sys, index, pos[0], neg[j]));
      forall j | 0 <= j < |neg| ensures Holds(first[j], y) {
        CombineSound(sys, index, pos[0], neg[j], x);
      }
      CrossSound(sys, index, cols, atol, pos[1..], neg, x);
      SatisfiesAppend(first, Cross(sys, index, cols, atol, pos[1..], neg), y);
    }
  }

  /** Coefficients on the eliminated column are either exactly zero or at
      least `atol` in magnitude: then no row is silently rounded away. */
  predicate Separated(sys: System, index: nat, atol: real)
    requires forall i :: 0 <= i < |sys| ==> index < |sys[i].coeffs|
  {
    forall i :: 0 <= i < |sys| ==> sys[i].coeffs[index] == 0.0 || Abs(sys[i].coeffs[index]) >= atol
  }

  /** Soundness of the projection: every solution of the input system,
      with the eliminated coordinate removed, solves the output system. */
  lemma EliminationSound(sys: System, index: nat, cols: nat, atol: real, x: Row)
    requires atol > 0.0 && Shaped(sys, index, cols) && |x| == cols
    requires Separated(sys, index, atol)
    requires Satisfies(sys, x)
    ensures Satisfies(EliminateSingle(sys, index, cols, atol), DropAt(x, index))
  {
    var col := Column(sys, index);
    var pos := Where(col, Pos, atol);
    var neg := Where(col, Neg, atol);
    var core := Where(col, Core, atol);
    var y := DropAt(x, index);
    var kept := CoreRows(sys, index, core);
    CrossSound(sys, index, cols, atol, pos, neg, x);
    forall k | 0 <= k < |kept| ensures Holds(kept[k], y) {
      var c := core[k];
      assert sys[c].coeffs[index] == 0.0;
      HoldsDrop(sys[c], x, index);
    }
    SatisfiesAppend(Cross(sys, index, cols, atol, pos, neg), kept, y);
  }
}
