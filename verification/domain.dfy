/** `AbstractDomain.does_intersect`, written once for any domain.

    A domain supplies its operations as values: `resolve` is what calling
    `is_bottom()` does to a value (the call may record the answer in the
    value's status), `bottom` and `top` read what is recorded, and
    `intersect` may fail (an assertion of the domain).
 */
module Domain {
  import opened Results

  datatype Ops<!D> = Ops(resolve: D -> D, bottom: D -> bool, top: D -> bool, intersect: (D, D) -> Result<D>)

  /** `d.is_bottom()`. */
  predicate IsBottom<D>(ops: Ops<D>, d: D) {
    ops.bottom(ops.resolve(d))
  }

  /** `does_intersect`: the operands' emptiness is asked first, left to
      right and short-circuiting; `is_top` then reads what those calls left
      recorded. */
  function DoesIntersect<D>(ops: Ops<D>, a: D, b: D): (r: Result<bool>)
    ensures IsBottom(ops, a) || IsBottom(ops, b) ==> r == Ok(false)
    ensures (!IsBottom(ops, a) && !IsBottom(ops, b)
      && (ops.top(ops.resolve(a)) || ops.top(ops.resolve(b)))) ==> r == Ok(true)
    ensures (!IsBottom(ops, a) && !IsBottom(ops, b)
      && !ops.top(ops.resolve(a)) && !ops.top(ops.resolve(b))) ==>
        (r.Err? <==> ops.intersect(ops.resolve(a), ops.resolve(b)).Err?)
        && (r.Ok? ==> (r.value <==> !IsBottom(ops, ops.intersect(ops.resolve(a), ops.resolve(b)).value)))
  {
    var a1 := ops.resolve(a);
    if ops.bottom(a1) then Ok(false)
    else
      var b1 := ops.resolve(b);
      if ops.bottom(b1) then Ok(false)
      else if ops.top(a1) || ops.top(b1) then Ok(true)
      else
        var c := ops.intersect(a1, b1);
        if c.Err? then Err(c.msg) else Ok(!IsBottom(ops, c.value))
  }

  /** The overlap test is symmetric as soon as intersecting in either order
      fails alike and is empty alike. */
  lemma DoesIntersectSymmetric<D>(ops: Ops<D>, a: D, b: D)
    requires ops.intersect(ops.resolve(a), ops.resolve(b)).Err?
      <==> ops.intersect(ops.resolve(b), ops.resolve(a)).Err?
    requires ops.intersect(ops.resolve(a), ops.resolve(b)).Ok? ==>
      (IsBottom(ops, ops.intersect(ops.resolve(a), ops.resolve(b)).value) <==>
       IsBottom(ops, ops.intersect(ops.resolve(b), ops.resolve(a)).value))
    ensures DoesIntersect(ops, a, b).Ok? <==> DoesIntersect(ops, b, a).Ok?
    ensures DoesIntersect(ops, a, b).Ok? ==> DoesIntersect(ops, a, b).value == DoesIntersect(ops, b, a).value
  {
  }
}
