/** Normalisation of parsed constraints into rows `coeffs · x <= bound`
    (`parse_polyhedra_constraints`, from the parsed relation onward).

    The symbolic parser and simplifier are outside the model: a constraint
    arrives as what they produce, namely the constant `True`, a relation
    `c · x + k  op  0` with its coefficient vector `c` over the variable
    list and the free term `f = -k`, or a failure.
 */
module Constraints {
  import opened Results
  import opened Linear

  /** `eps`, the margin that turns a strict inequality into a closed one. */
  const Eps: real := 0.00001

  datatype RelOp = Le | Ge | Eq | Lt | Gt | OtherOp(name: string)

  datatype Parsed =
    | Trivial                                  // the constraint parsed to `True`
    | Rel(coeffs: Row, op: RelOp, free: real)  // `coeffs · x  op  free`
    | Unparsable(reason: string)               // the parser or simplifier raised

  /** What the symbolic parser and simplifier produce for one constraint:
      `True`, a relation `Σ terms[v]·v + constant  op  0`, or an error. */
  datatype Symbolic =
    | SymTrue
    | SymRel(terms: map<string, real>, op: RelOp, constant: real)
    | SymError(reason: string)

  /** The coefficient of every variable, in variable order, missing ones
      read as zero (`coefficients_dict[variable]`), and the free term
      `-(coefficients_dict[1])`. */
  function Align(s: Symbolic, vars: seq<string>): (p: Parsed)
    ensures p.Rel? ==> |p.coeffs| == |vars|
    ensures p.Rel? <==> s.SymRel?
    ensures s.SymRel? ==> forall k :: 0 <= k < |vars| ==>
      p.coeffs[k] == (if vars[k] in s.terms then s.terms[vars[k]] else 0.0)
  {
    match s
    case SymTrue => Trivial
    case SymError(reason) => Unparsable(reason)
    case SymRel(terms, op, constant) =>
      Rel(seq(|vars|, k requires 0 <= k < |vars| => if vars[k] in terms then terms[vars[k]] else 0.0), op, -constant)
  }

  function AlignAll(ss: seq<Symbolic>, vars: seq<string>): (r: seq<Parsed>)
    ensures |r| == |ss| && Arity(r, |vars|)
    ensures forall k :: 0 <= k < |ss| ==> r[k] == Align(ss[k], vars)
  {
    seq(|ss|, k requires 0 <= k < |ss| => Align(ss[k], vars))
  }

  function Negate(r: Row): (s: Row)
    ensures |s| == |r| && forall k :: 0 <= k < |r| ==> s[k] == -r[k]
  {
    seq(|r|, k requires 0 <= k < |r| => -r[k])
  }

  /** The rows one relation contributes. */
  function RowsOf(coeffs: Row, op: RelOp, free: real, eps: real): (r: Result<System>)
    ensures r.Ok? <==> !op.OtherOp?
    ensures r.Ok? && op.Eq? ==> |r.value| == 2
    ensures r.Ok? && !op.Eq? ==> |r.value| == 1
    ensures r.Ok? ==> Rectangular(r.value, |coeffs|)
  {
    match op
    case Le => Ok([Ineq(coeffs, free)])
    case Ge => Ok([Ineq(Negate(coeffs), -free)])
    case Eq => Ok([Ineq(coeffs, free), Ineq(Negate(coeffs), -free)])
    case Lt => Ok([Ineq(coeffs, free - eps)])
    case Gt => Ok([Ineq(Negate(coeffs), -free - eps)])
    case OtherOp(name) => Err("Unknown operator " + name)
  }

  /** The relation the operator denotes between `v = coeffs · x` and the
      free term. */
  predicate Denotes(op: RelOp, v: real, free: real) {
    match op
    case Le => v <= free
    case Ge => v >= free
    case Eq => v == free
    case Lt => v < free
    case Gt => v > free
    case OtherOp(_) => false
  }

  /** The relation with a margin of `eps` on the strict operators. */
  predicate DenotesWithMargin(op: RelOp, v: real, free: real, eps: real) {
    match op
    case Lt => v <= free - eps
    case Gt => v >= free + eps
    case _ => Denotes(op, v, free)
  }

  /** The loop of `parse_polyhedra_constraints`: every constraint in order,
      `True` skipped, the first failure or unknown operator raising. */
  function Normalise(cs: seq<Parsed>, eps: real): (r: Result<System>)
    ensures r.Ok? <==> forall k :: 0 <= k < |cs| ==> cs[k].Trivial? || (cs[k].Rel? && !cs[k].op.OtherOp?)
  {
    if cs == [] then Ok([])
    else
      var rest := Normalise(cs[1..], eps);
      assert forall k :: 1 <= k < |cs| ==> cs[1..][k - 1] == cs[k];
      match cs[0]
      case Trivial => rest
      case Unparsable(reason) => Err("Error " + reason + " while parsing constraint")
      case Rel(c, op, f) =>
        var rows := RowsOf(c, op, f, eps);
        if rows.Err? then Err(rows.msg)
        else if rest.Err? then rest
        else Ok(rows.value + rest.value)
  }

  /** Every relation has one coefficient per variable. */
  predicate Arity(cs: seq<Parsed>, n: nat) {
    forall k :: 0 <= k < |cs| ==> cs[k].Rel? ==> |cs[k].coeffs| == n
  }

  /* ------------------------------------------------------------ properties */

  lemma DotNegate(r: Row, x: Row)
    requires |r| == |x|
    ensures Dot(Negate(r), x) == -Dot(r, x)
  {
    DotScale(r, -1.0, x);
    assert Negate(r) == Scale(r, -1.0);
  }

  /** A non-strict relation holds exactly when its rows do; a strict one
      holds whenever its rows do, and its rows hold whenever it holds with a
      margin of `eps`. */
  lemma RowsOfMeaning(coeffs: Row, op: RelOp, free: real, eps: real, x: Row)
    requires |coeffs| == |x| && !op.OtherOp? && eps > 0.0
    ensures Satisfies(RowsOf(coeffs, op, free, eps).value, x)
      <==> DenotesWithMargin(op, Dot(coeffs, x), free, eps)
    ensures Satisfies(RowsOf(coeffs, op, free, eps).value, x) ==> Denotes(op, Dot(coeffs, x), free)
    ensures !op.Lt? && !op.Gt? ==>
      (Satisfies(RowsOf(coeffs, op, free, eps).value, x) <==> Denotes(op, Dot(coeffs, x), free))
  {
    DotNegate(coeffs, x);
    match op {
      case Le => SatisfiesOne(Ineq(coeffs, free), x);
      case Ge => SatisfiesOne(Ineq(Negate(coeffs), -free), x);
      case Eq => SatisfiesTwo(Ineq(coeffs, free), Ineq(Negate(coeffs), -free), x);
      case Lt => SatisfiesOne(Ineq(coeffs, free - eps), x);
      case Gt => SatisfiesOne(Ineq(Negate(coeffs), -free - eps), x);
    }
  }

  lemma SatisfiesOne(a: Ineq, x: Row)
    ensures Satisfies([a], x) <==> Holds(a, x)
  {
    assert [a][0] == a;
  }

  lemma SatisfiesTwo(a: Ineq, b: Ineq, x: Row)
    ensures Satisfies([a, b], x) <==> Holds(a, x) && Holds(b, x)
  {
    assert [a, b][0] == a && [a, b][1] == b;
  }

  /** The rows keep every relation's coefficient count. */
  lemma {:induction false} NormaliseShape(cs: seq<Parsed>, eps: real, n: nat)
    requires Arity(cs, n) && Normalise(cs, eps).Ok?
    ensures Rectangular(Normalise(cs, eps).value, n)
    decreases |cs|
  {
    if cs != [] {
      NormaliseShape(cs[1..], eps, n);
    }
  }

  /** A point satisfies the normalised system exactly when it satisfies
      every relation, reading strict relations with their margin. */
  lemma {:induction false} NormaliseMeaning(cs: seq<Parsed>, eps: real, x: Row)
    requires eps > 0.0 && Arity(cs, |x|) && Normalise(cs, eps).Ok?
    ensures Satisfies(Normalise(cs, eps).value, x) <==>
      forall k :: 0 <= k < |cs| && cs[k].Rel? ==> DenotesWithMargin(cs[k].op, Dot(cs[k].coeffs, x), cs[k].free, eps)
    decreases |cs|
  {
    if cs != [] {
      NormaliseMeaning(cs[1..], eps, x);
      assert forall k :: 1 <= k < |cs| ==> cs[1..][k - 1] == cs[k];
      var rest := Normalise(cs[1..], eps).value;
      if cs[0].Rel? {
        var rows := RowsOf(cs[0].coeffs, cs[0].op, cs[0].free, eps).value;
        RowsOfMeaning(cs[0].coeffs, cs[0].op, cs[0].free, eps, x);
        SatisfiesAppend(rows, rest, x);
      }
    }
  }
}
