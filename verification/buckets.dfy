/** Buckets: output conditions such as `result >= 0 and result < 10`, the
    integer range each one covers, and the bucket lists of the `direct` and
    `iterator` kinds.

    A condition is read textually: split on `and`, every piece stripped of
    whitespace, then two passes over the pieces, one for `<=`/`>=` and one
    for `<`/`>`, and a last one for the `==` pieces.
 */
module Buckets {
  import opened Results
  import opened Text
  import opened Strings
  import Filtering

  datatype Bucket = Bucket(condition: string, id: int)

  /** `to_spl`: the statement that fails when the output falls in the
      bucket. */
  function ToSpl(b: Bucket): (r: string)
    ensures |r| == |b.condition| + 23
    ensures r[..4] == "if (" && r[|r| - 19..] == ") then fail; endif;"
    ensures r[4..|r| - 19] == b.condition
  {
    "if (" + b.condition + ") then fail; endif;"
  }

  /* ------------------------------------------------------ integer literals */

  predicate AllDigits(s: string) {
    forall i :: 0 <= i < |s| ==> IsDigit(s[i])
  }

  /** `represents_integer` on a text without whitespace: an optional sign
      and at least one decimal digit. */
  predicate IsInt(s: string) {
    if |s| > 0 && (s[0] == '+' || s[0] == '-') then |s| > 1 && AllDigits(s[1..])
    else |s| > 0 && AllDigits(s)
  }

  function DigitsValue(s: string): (v: nat)
    requires AllDigits(s)
  {
    if s == [] then 0 else DigitsValue(s[..|s| - 1]) * 10 + (s[|s| - 1] as int - '0' as int)
  }

  /** `represents_integer` holds for an optional sign followed by decimal
      digits exactly when there is at least one digit. */
  lemma IsIntForm(sign: string, digits: string)
    requires sign == "" || sign == "+" || sign == "-"
    requires AllDigits(digits)
    ensures IsInt(sign + digits) <==> |digits| > 0
  {
    if sign != "" {
      assert (sign + digits)[1..] == digits;
    }
  }

  /** `int(s)`: its sign is the text's sign. */
  function IntValue(s: string): (v: int)
    requires IsInt(s)
    ensures s[0] == '-' ==> v <= 0
    ensures s[0] != '-' ==> v >= 0
  {
    if s[0] == '-' then -(DigitsValue(s[1..]) as int)
    else if s[0] == '+' then DigitsValue(s[1..])
    else DigitsValue(s)
  }

  /** The decimal digit of `d`. */
  function Digit(d: int): (c: char)
    requires 0 <= d < 10
    ensures IsDigit(c) && c as int - '0' as int == d
  {
    ('0' as int + d) as char
  }

  /** `str(n)` for a natural: its decimal digits, most significant first. */
  function DigitsText(n: nat): (s: string)
    ensures |s| > 0 && AllDigits(s)
  {
    if n < 10 then [Digit(n)] else DigitsText(n / 10) + [Digit(n % 10)]
  }

  /** `str(n)`. */
  function IntText(n: int): (s: string)
    ensures IsInt(s)
  {
    if n < 0 then "-" + DigitsText(-n) else DigitsText(n)
  }

  lemma {:induction false} DigitsRoundTrip(n: nat)
    ensures DigitsValue(DigitsText(n)) == n
  {
    var s := DigitsText(n);
    if n >= 10 {
      DigitsRoundTrip(n / 10);
      assert s[..|s| - 1] == DigitsText(n / 10);
    }
  }

  /** `int` reads the decimal text of every integer back as that integer. */
  lemma IntTextRoundTrip(n: int)
    ensures IsInt(IntText(n)) && IntValue(IntText(n)) == n
  {
    var s := IntText(n);
    if n < 0 {
      DigitsRoundTrip(-n);
      assert s[1..] == DigitsText(-n);
    } else {
      DigitsRoundTrip(n);
    }
  }

  /* ---------------------------------------------------------------- pieces */

  function CleanAll(ps: seq<string>): (r: seq<string>)
    ensures |r| == |ps| && forall k :: 0 <= k < |ps| ==> r[k] == Clean(ps[k])
  {
    seq(|ps|, k requires 0 <= k < |ps| => Clean(ps[k]))
  }

  /** The conjuncts of a condition, whitespace removed: one per `and`
      separated part, none holding whitespace. */
  function Pieces(condition: string): (r: seq<string>)
    ensures |r| == |SplitOn(condition, "and")|
    ensures forall k, i :: 0 <= k < |r| && 0 <= i < |r[k]| ==> !IsSpace(r[k][i])
  {
    var r := CleanAll(SplitOn(condition, "and"));
    forall k, i | 0 <= k < |r| && 0 <= i < |r[k]| ensures !IsSpace(r[k][i]) {
      assert r[k][i] in r[k];
    }
    r
  }

  /** Joined back with `and`, the pieces are the condition without its
      whitespace. */
  lemma PiecesJoin(condition: string)
    ensures JoinWith(Pieces(condition), "and") == Clean(condition)
  {
    JoinSplit(condition, "and");
    CleanJoin(SplitOn(condition, "and"), "and");
  }

  lemma {:induction false} CleanJoin(ps: seq<string>, sep: string)
    requires Clean(sep) == sep
    ensures JoinWith(CleanAll(ps), sep) == Clean(JoinWith(ps, sep))
    decreases |ps|
  {
    if |ps| > 1 {
      CleanJoin(ps[1..], sep);
      assert CleanAll(ps)[1..] == CleanAll(ps[1..]);
      CleanConcat(ps[0], sep);
      CleanConcat(ps[0] + sep, JoinWith(ps[1..], sep));
    }
  }

  /** What one piece contributes in one pass. */
  datatype Found = Upper(value: int) | Lower(value: int) | Nothing

  /** One piece in the pass for the operators `le` and `ge` (`"<="` and
      `">="`, or `"<"` and `">"`): a literal on the right of `le` or on the
      left of `ge` is an upper bound, the other way round a lower bound; a
      piece with a literal on both sides or on neither is ignored. Splitting
      must give exactly two sides. */
  function Classify(c: string, le: string, ge: string): (r: Result<Found>)
    requires |le| > 0 && |ge| > 0
    ensures !Contains(c, le) && !Contains(c, ge) ==> r == Ok(Nothing)
    ensures r.Ok? && (Contains(c, le) || Contains(c, ge)) ==>
      |Sides(c, le, ge)| == 2 && r.value == Judge(c, le, ge, Sides(c, le, ge)[0], Sides(c, le, ge)[1])
    ensures (Contains(c, le) || Contains(c, ge)) ==> (r.Err? <==> |Sides(c, le, ge)| != 2)
  {
    if !Contains(c, le) && !Contains(c, ge) then Ok(Nothing)
    else
      var parts := Sides(c, le, ge);
      if |parts| != 2 then Err("ValueError: too many values to unpack")
      else Ok(Judge(c, le, ge, parts[0], parts[1]))
  }

  function Sides(c: string, le: string, ge: string): seq<string>
    requires |le| > 0 && |ge| > 0
  {
    if Contains(c, le) then SplitOn(c, le) else SplitOn(c, ge)
  }

  function Judge(c: string, le: string, ge: string, a: string, b: string): (f: Found)
    requires |le| > 0 && |ge| > 0
    ensures f.Upper? ==> (Contains(c, le) && IsInt(b) && !IsInt(a) && f.value == IntValue(b))
                         || (Contains(c, ge) && IsInt(a) && !IsInt(b) && f.value == IntValue(a))
    ensures f.Lower? ==> (Contains(c, le) && IsInt(a) && !IsInt(b) && f.value == IntValue(a))
                         || (Contains(c, ge) && IsInt(b) && !IsInt(a) && f.value == IntValue(b))
    ensures IsInt(a) == IsInt(b) ==> f == Nothing
    ensures Contains(c, le) && IsInt(b) && !IsInt(a) ==> f == Upper(IntValue(b))
    ensures Contains(c, le) && IsInt(a) && !IsInt(b) ==> f == Lower(IntValue(a))
    ensures !Contains(c, le) && Contains(c, ge) && IsInt(a) && !IsInt(b) ==> f == Upper(IntValue(a))
    ensures !Contains(c, le) && Contains(c, ge) && IsInt(b) && !IsInt(a) ==> f == Lower(IntValue(b))
  {
    if Contains(c, le) && IsInt(b) && !IsInt(a) then Upper(IntValue(b))
    else if Contains(c, le) && !IsInt(b) && IsInt(a) then Lower(IntValue(a))
    else if Contains(c, ge) && !IsInt(a) && IsInt(b) then Lower(IntValue(b))
    else if Contains(c, ge) && IsInt(a) && !IsInt(b) then Upper(IntValue(a))
    else Nothing
  }

  /** The bounds one pass collects, in piece order. */
  datatype Collected = Collected(uppers: seq<int>, lowers: seq<int>)

  /** The bounds found in one pass, in piece order; the first piece that
      raises stops the pass. */
  function Gather(fs: seq<Result<Found>>): (r: Result<Collected>)
    ensures r.Err? <==> exists k :: 0 <= k < |fs| && fs[k].Err?
    ensures r.Ok? ==> forall x :: x in r.value.uppers <==> exists k :: 0 <= k < |fs| && fs[k] == Ok(Upper(x))
    ensures r.Ok? ==> forall x :: x in r.value.lowers <==> exists k :: 0 <= k < |fs| && fs[k] == Ok(Lower(x))
  {
    if fs == [] then Ok(Collected([], []))
    else
      var rest := Gather(fs[1..]);
      assert forall k :: 1 <= k < |fs| ==> fs[1..][k - 1] == fs[k];
      if fs[0].Err? then Err(fs[0].msg)
      else if rest.Err? then rest
      else match fs[0].value
        case Upper(x) => Ok(Collected([x] + rest.value.uppers, rest.value.lowers))
        case Lower(x) => Ok(Collected(rest.value.uppers, [x] + rest.value.lowers))
        case Nothing => rest
  }

  function ClassifyAll(cs: seq<string>, le: string, ge: string): (r: seq<Result<Found>>)
    requires |le| > 0 && |ge| > 0
    ensures |r| == |cs| && forall k :: 0 <= k < |cs| ==> r[k] == Classify(cs[k], le, ge)
  {
    seq(|cs|, k requires 0 <= k < |cs| => Classify(cs[k], le, ge))
  }

  /** One pass over the pieces. */
  function Pass(cs: seq<string>, le: string, ge: string): (r: Result<Collected>)
    requires |le| > 0 && |ge| > 0
    ensures r.Err? <==> exists k :: 0 <= k < |cs| && Classify(cs[k], le, ge).Err?
    ensures r.Ok? ==> forall x :: x in r.value.uppers <==> exists k :: 0 <= k < |cs| && Classify(cs[k], le, ge) == Ok(Upper(x))
    ensures r.Ok? ==> forall x :: x in r.value.lowers <==> exists k :: 0 <= k < |cs| && Classify(cs[k], le, ge) == Ok(Lower(x))
  {
    Gather(ClassifyAll(cs, le, ge))
  }

  /** The least element, `float('inf')` standing for none. */
  function Least(xs: seq<int>): (r: Option<int>)
    ensures r.None? <==> xs == []
    ensures r.Some? ==> r.value in xs && forall x :: x in xs ==> r.value <= x
  {
    if xs == [] then None
    else
      var rest := Least(xs[1..]);
      assert forall x :: x in xs ==> x == xs[0] || x in xs[1..];
      if rest.None? || xs[0] <= rest.value then Some(xs[0]) else rest
  }

  /** The greatest element, `float('-inf')` standing for none. */
  function Greatest(xs: seq<int>): (r: Option<int>)
    ensures r.None? <==> xs == []
    ensures r.Some? ==> r.value in xs && forall x :: x in xs ==> x <= r.value
  {
    if xs == [] then None
    else
      var rest := Greatest(xs[1..]);
      assert forall x :: x in xs ==> x == xs[0] || x in xs[1..];
      if rest.None? || xs[0] >= rest.value then Some(xs[0]) else rest
  }

  /** The upper end: the least non-strict bound if it is below the least
      strict one, otherwise the least strict one minus one. */
  function UpperEnd(u: Option<int>, su: Option<int>): int
    requires u.Some? || su.Some?
  {
    if u.Some? && (su.None? || u.value < su.value) then u.value else su.value - 1
  }

  function LowerEnd(l: Option<int>, sl: Option<int>): int
    requires l.Some? || sl.Some?
  {
    if l.Some? && (sl.None? || l.value > sl.value) then l.value else sl.value + 1
  }

  /** One `==` piece: the literal side (the left one first), if any. */
  function PointOf(e: string): (r: Result<Option<int>>)
    ensures r.Err? <==> |SplitOn(e, "==")| != 2
  {
    var parts := SplitOn(e, "==");
    if |parts| != 2 then Err("ValueError: too many values to unpack")
    else if IsInt(parts[0]) then Ok(Some(IntValue(parts[0])))
    else if IsInt(parts[1]) then Ok(Some(IntValue(parts[1])))
    else Ok(None)
  }

  /** A piece's result that is a point. */
  predicate IsPoint(x: Result<Option<int>>) {
    x.Ok? && x.value.Some?
  }

  /** The equality points, in piece order and with repeats: the `k`-th is
      the payload of the `k`-th result that is a point. The first piece that
      raises stops the scan. */
  function Collect(rs: seq<Result<Option<int>>>): (r: Result<seq<int>>)
    ensures r.Err? <==> exists k :: 0 <= k < |rs| && rs[k].Err?
    ensures r.Ok? ==> forall x :: x in r.value <==> exists k :: 0 <= k < |rs| && rs[k] == Ok(Some(x))
    ensures r.Ok? ==> |r.value| == |Filtering.Filter(rs, IsPoint)|
    ensures r.Ok? ==> forall k :: 0 <= k < |r.value| ==> Filtering.Filter(rs, IsPoint)[k] == Ok(Some(r.value[k]))
  {
    if rs == [] then Ok([])
    else
      var rest := Collect(rs[1..]);
      assert forall k :: 1 <= k < |rs| ==> rs[1..][k - 1] == rs[k];
      if rs[0].Err? then Err(rs[0].msg)
      else if rest.Err? then rest
      else if rs[0].value.Some? then Ok([rs[0].value.value] + rest.value)
      else rest
  }

  function PointOfAll(es: seq<string>): (r: seq<Result<Option<int>>>)
    ensures |r| == |es| && forall k :: 0 <= k < |es| ==> r[k] == PointOf(es[k])
  {
    seq(|es|, k requires 0 <= k < |es| => PointOf(es[k]))
  }

  /** An equality piece with an integer literal on one side. */
  predicate GivesPoint(e: string) {
    IsPoint(PointOf(e))
  }

  /** The points of the equality pieces, in order and with repeats: the
      `k`-th is the literal of the `k`-th piece that gives one. */
  function Points(es: seq<string>): (r: Result<seq<int>>)
    ensures r.Err? <==> exists k :: 0 <= k < |es| && PointOf(es[k]).Err?
    ensures r.Ok? ==> forall x :: x in r.value <==> exists k :: 0 <= k < |es| && PointOf(es[k]) == Ok(Some(x))
    ensures r.Ok? ==> |r.value| == |Filtering.Filter(es, GivesPoint)|
    ensures r.Ok? ==> forall k :: 0 <= k < |r.value| ==> PointOf(Filtering.Filter(es, GivesPoint)[k]) == Ok(Some(r.value[k]))
  {
    FilterPointOfAll(es);
    Collect(PointOfAll(es))
  }

  lemma {:induction false} FilterPointOfAll(es: seq<string>)
    ensures Filtering.Filter(PointOfAll(es), IsPoint) == PointOfAll(Filtering.Filter(es, GivesPoint))
    decreases |es|
  {
    if es != [] {
      FilterPointOfAll(es[1..]);
      assert PointOfAll(es)[1..] == PointOfAll(es[1..]);
      var head: seq<string> := if GivesPoint(es[0]) then [es[0]] else [];
      var tail := Filtering.Filter(es[1..], GivesPoint);
      assert PointOfAll(head + tail) == PointOfAll(head) + PointOfAll(tail);
    }
  }

  /** A piece that holds `==`. */
  predicate IsEquality(c: string) {
    Contains(c, "==")
  }

  /** The pieces holding `==`, in order and with repeats. */
  function Equalities(cs: seq<string>): (r: seq<string>)
    ensures forall e :: e in r <==> e in cs && Contains(e, "==")
    ensures r == Filtering.Filter(cs, IsEquality)
  {
    if cs == [] then []
    else
      assert forall e :: e in cs <==> e == cs[0] || e in cs[1..];
      (if Contains(cs[0], "==") then [cs[0]] else []) + Equalities(cs[1..])
  }

  /** Whether a point lies outside `[lower, upper]`. */
  function OutsideOf(lower: int, upper: int): int -> bool {
    p => !(lower <= p <= upper)
  }

  /** The number of points, with repeats, outside `[lower, upper]`. */
  function CountOutside(points: seq<int>, lower: int, upper: int): (n: nat)
    ensures n <= |points|
    ensures n == |Filtering.Filter(points, OutsideOf(lower, upper))|
  {
    if points == [] then 0
    else (if lower <= points[0] <= upper then 0 else 1) + CountOutside(points[1..], lower, upper)
  }

  datatype Bounds = Bounds(lower: int, upper: int, outsiders: nat, points: seq<int>)

  /** `range_and_outsiders`, with the strict pass reading only the pieces
      without a non-strict operator. */
  function RangeAndOutsiders(condition: string): (r: Result<Bounds>)
    ensures Contains(condition, "or") ==> r.Err?
    ensures !Contains(condition, "or") ==> r == FromPieces(Pieces(condition))
  {
    if Contains(condition, "or") then Err("Cannot count integers in bucket with or")
    else FromPieces(Pieces(condition))
  }

  /** `range_and_outsiders` as written: the strict pass also reads the
      non-strict pieces, where a literal on the left of `<=` or `>=` reads
      as a strict bound as well. */
  function RangeAndOutsidersAsWritten(condition: string): (r: Result<Bounds>)
    ensures Contains(condition, "or") ==> r.Err?
    ensures !Contains(condition, "or") ==> r == FromPiecesAsWritten(Pieces(condition))
  {
    if Contains(condition, "or") then Err("Cannot count integers in bucket with or")
    else FromPiecesAsWritten(Pieces(condition))
  }

  function FromPiecesAsWritten(cs: seq<string>): Result<Bounds> {
    var plain :- Pass(cs, "<=", ">=");
    var strict :- Pass(cs, "<", ">");
    var points :- Points(Equalities(cs));
    Assemble(plain, strict, points)
  }

  function FromPieces(cs: seq<string>): Result<Bounds> {
    var plain :- Pass(cs, "<=", ">=");
    var strict :- Pass(StrictOnly(cs), "<", ">");
    var points :- Points(Equalities(cs));
    Assemble(plain, strict, points)
  }

  /** The pieces with neither `<=` nor `>=`. */
  function StrictOnly(cs: seq<string>): (r: seq<string>)
    ensures forall e :: e in r <==> e in cs && !Contains(e, "<=") && !Contains(e, ">=")
  {
    if cs == [] then []
    else
      assert forall e :: e in cs <==> e == cs[0] || e in cs[1..];
      (if !Contains(cs[0], "<=") && !Contains(cs[0], ">=") then [cs[0]] else []) + StrictOnly(cs[1..])
  }

  /** What a piece's non-strict bound says about the output `x`. */
  predicate PlainAllows(c: string, x: int) {
    match Classify(c, "<=", ">=")
    case Ok(Upper(u)) => x <= u
    case Ok(Lower(l)) => x >= l
    case _ => true
  }

  /** What a piece's strict bound says about the output `x`. */
  predicate StrictAllows(c: string, x: int) {
    match Classify(c, "<", ">")
    case Ok(Upper(u)) => x < u
    case Ok(Lower(l)) => x > l
    case _ => true
  }

  /** What one piece says about the output `x`: its non-strict bound if it
      has a non-strict operator, otherwise its strict bound. */
  predicate PieceAllows(c: string, x: int) {
    if Contains(c, "<=") || Contains(c, ">=") then PlainAllows(c, x) else StrictAllows(c, x)
  }

  /** The bounds from the collected lists and equality points. Without an
      upper or a lower side the equality points give the range, and no
      points at all raise. */
  function Assemble(plain: Collected, strict: Collected, points: seq<int>): (r: Result<Bounds>)
    ensures r.Ok? ==> r.value.points == points
    ensures NoBounds(plain, strict) ==> (r.Err? <==> points == [])
    ensures NoBounds(plain, strict) && r.Ok? ==>
      r.value.outsiders == 0 && r.value.lower in points && r.value.upper in points
      && forall p :: p in points ==> r.value.lower <= p <= r.value.upper
    ensures !NoBounds(plain, strict) ==> (r.Ok?
      && (forall x: int :: BelowAll(x, plain.uppers, strict.uppers) <==> x <= r.value.upper)
      && (forall x: int :: AboveAll(x, plain.lowers, strict.lowers) <==> x >= r.value.lower)
      && r.value.outsiders == CountOutside(points, r.value.lower, r.value.upper))
  {
    if NoBounds(plain, strict) then
      if points == [] then Err("Cannot count integers in bucket with unlimited bounds")
      else Ok(Bounds(Least(points).value, Greatest(points).value, 0, points))
    else
      var upper := UpperEnd(Least(plain.uppers), Least(strict.uppers));
      var lower := LowerEnd(Greatest(plain.lowers), Greatest(strict.lowers));
      UpperEndMeaning(plain.uppers, strict.uppers);
      LowerEndMeaning(plain.lowers, strict.lowers);
      Ok(Bounds(lower, upper, CountOutside(points, lower, upper), points))
  }

  /** `x` meets every non-strict and every strict upper bound. */
  predicate BelowAll(x: int, us: seq<int>, sus: seq<int>) {
    (forall u :: u in us ==> x <= u) && (forall s :: s in sus ==> x < s)
  }

  predicate AboveAll(x: int, ls: seq<int>, sls: seq<int>) {
    (forall l :: l in ls ==> x >= l) && (forall s :: s in sls ==> x > s)
  }

  predicate NoBounds(plain: Collected, strict: Collected) {
    (plain.uppers == [] && strict.uppers == []) || (plain.lowers == [] && strict.lowers == [])
  }

  /** `r` is the interval `[b.lower, b.upper]` widened just enough to hold
      every equality point: each end is a bound or a point. */
  predicate Widens(r: (int, int), b: Bounds) {
    r.0 <= b.lower && b.upper <= r.1
    && (forall p :: p in b.points ==> r.0 <= p <= r.1)
    && (r.0 == b.lower || r.0 in b.points)
    && (r.1 == b.upper || r.1 in b.points)
  }

  function Widen(b: Bounds): (r: (int, int))
    ensures Widens(r, b)
  {
    var lo := Least(b.points);
    var hi := Greatest(b.points);
    (if lo.Some? && lo.value < b.lower then lo.value else b.lower,
     if hi.Some? && hi.value > b.upper then hi.value else b.upper)
  }

  /** `range`, on the bounds `range_and_outsiders` computes as written. */
  function Range(condition: string): (r: Result<(int, int)>)
    ensures r.Err? <==> RangeAndOutsidersAsWritten(condition).Err?
    ensures r.Ok? ==> Widens(r.value, RangeAndOutsidersAsWritten(condition).value)
  {
    var b :- RangeAndOutsidersAsWritten(condition);
    Ok(Widen(b))
  }

  /** `range` on the corrected bounds. */
  function RangeCorrected(condition: string): (r: Result<(int, int)>)
    ensures r.Err? <==> RangeAndOutsiders(condition).Err?
    ensures r.Ok? ==> Widens(r.value, RangeAndOutsiders(condition).value)
  {
    var b :- RangeAndOutsiders(condition);
    Ok(Widen(b))
  }

  /** `n` is the number of integers in `[b.lower, b.upper]` less the
      number of equality points outside it; an empty interval counts none. */
  ghost predicate CountsInside(n: int, b: Bounds) {
    (b.upper < b.lower ==> n == 0)
    && (b.upper >= b.lower ==> n + b.outsiders == |IntsBetween(b.lower, b.upper)|)
  }

  function CountFrom(b: Bounds): (n: int)
    ensures CountsInside(n, b)
  {
    if b.upper >= b.lower then
      IntsBetweenSize(b.lower, b.upper);
      b.upper - b.lower + 1 - b.outsiders
    else 0
  }

  /** `count_integers`, on the bounds computed as written. */
  function CountIntegers(condition: string): (r: Result<int>)
    ensures r.Err? <==> RangeAndOutsidersAsWritten(condition).Err?
    ensures r.Ok? ==> CountsInside(r.value, RangeAndOutsidersAsWritten(condition).value)
  {
    var b :- RangeAndOutsidersAsWritten(condition);
    Ok(CountFrom(b))
  }

  /** `count_integers` on the corrected bounds. */
  function CountIntegersCorrected(condition: string): (r: Result<int>)
    ensures r.Err? <==> RangeAndOutsiders(condition).Err?
    ensures r.Ok? ==> CountsInside(r.value, RangeAndOutsiders(condition).value)
  {
    var b :- RangeAndOutsiders(condition);
    Ok(CountFrom(b))
  }

  predicate Between(x: int, lower: int, upper: int) {
    lower <= x <= upper
  }

  /** The integers of `[lower, upper]`. */
  ghost function IntsBetween(lower: int, upper: int): set<int> {
    set x | lower <= x <= upper && Between(x, lower, upper)
  }

  /* ------------------------------------------------------------ properties */

  lemma {:induction false} IntsBetweenSize(lower: int, upper: int)
    requires lower <= upper + 1
    ensures |IntsBetween(lower, upper)| == upper - lower + 1
    decreases upper - lower
  {
    if lower <= upper {
      IntsBetweenSize(lower, upper - 1);
      assert IntsBetween(lower, upper) == IntsBetween(lower, upper - 1) + {upper};
    } else {
      assert forall x :: x !in IntsBetween(lower, upper);
      assert IntsBetween(lower, upper) == {};
    }
  }

  /** With the strict pass on the strict pieces only, the range is exactly
      the integers every piece allows. */
  lemma FromPiecesMeaning(cs: seq<string>, x: int)
    requires Pass(cs, "<=", ">=").Ok? && Pass(StrictOnly(cs), "<", ">").Ok?
    requires !NoBounds(Pass(cs, "<=", ">=").value, Pass(StrictOnly(cs), "<", ">").value)
    requires Points(Equalities(cs)).Ok?
    ensures FromPieces(cs).Ok?
    ensures FromPieces(cs).value.lower <= x <= FromPieces(cs).value.upper
      <==> forall k :: 0 <= k < |cs| ==> PieceAllows(cs[k], x)
  {
    var plain := Pass(cs, "<=", ">=").value;
    var strict := Pass(StrictOnly(cs), "<", ">").value;
    var points := Points(Equalities(cs)).value;
    assert FromPieces(cs) == Assemble(plain, strict, points);
    if forall k :: 0 <= k < |cs| ==> PieceAllows(cs[k], x) {
      AllowedWithinBounds(cs, x);
    }
    if BelowAll(x, plain.uppers, strict.uppers) && AboveAll(x, plain.lowers, strict.lowers) {
      forall k | 0 <= k < |cs| ensures PieceAllows(cs[k], x) {
        BoundsAllow(cs, x, k);
      }
    }
  }

  /** As written, the range is the integers that every piece allows under
      BOTH readings, its non-strict one and its strict one: a piece
      `5 >= x` also reads as `5 > x`. */
  lemma FromPiecesAsWrittenMeaning(cs: seq<string>, x: int)
    requires Pass(cs, "<=", ">=").Ok? && Pass(cs, "<", ">").Ok?
    requires !NoBounds(Pass(cs, "<=", ">=").value, Pass(cs, "<", ">").value)
    requires Points(Equalities(cs)).Ok?
    ensures FromPiecesAsWritten(cs).Ok?
    ensures FromPiecesAsWritten(cs).value.lower <= x <= FromPiecesAsWritten(cs).value.upper
      <==> forall k :: 0 <= k < |cs| ==> PlainAllows(cs[k], x) && StrictAllows(cs[k], x)
  {
    var plain := Pass(cs, "<=", ">=").value;
    var strict := Pass(cs, "<", ">").value;
    var points := Points(Equalities(cs)).value;
    assert FromPiecesAsWritten(cs) == Assemble(plain, strict, points);
    if forall k :: 0 <= k < |cs| ==> PlainAllows(cs[k], x) && StrictAllows(cs[k], x) {
      BothReadingsWithinBounds(cs, x);
    }
    if BelowAll(x, plain.uppers, strict.uppers) && AboveAll(x, plain.lowers, strict.lowers) {
      forall k | 0 <= k < |cs| ensures PlainAllows(cs[k], x) && StrictAllows(cs[k], x) {
        PlainBoundAllows(cs, x, k);
        StrictBoundAllows(cs, x, k);
      }
    }
  }

  lemma BothReadingsWithinBounds(cs: seq<string>, x: int)
    requires Pass(cs, "<=", ">=").Ok? && Pass(cs, "<", ">").Ok?
    requires forall k :: 0 <= k < |cs| ==> PlainAllows(cs[k], x) && StrictAllows(cs[k], x)
    ensures BelowAll(x, Pass(cs, "<=", ">=").value.uppers, Pass(cs, "<", ">").value.uppers)
    ensures AboveAll(x, Pass(cs, "<=", ">=").value.lowers, Pass(cs, "<", ">").value.lowers)
  {
    var plain := Pass(cs, "<=", ">=").value;
    var strict := Pass(cs, "<", ">").value;
    forall u | u in plain.uppers ensures x <= u {
      var k :| 0 <= k < |cs| && Classify(cs[k], "<=", ">=") == Ok(Upper(u));
      assert PlainAllows(cs[k], x);
    }
    forall l | l in plain.lowers ensures x >= l {
      var k :| 0 <= k < |cs| && Classify(cs[k], "<=", ">=") == Ok(Lower(l));
      assert PlainAllows(cs[k], x);
    }
    forall u | u in strict.uppers ensures x < u {
      var k :| 0 <= k < |cs| && Classify(cs[k], "<", ">") == Ok(Upper(u));
      assert StrictAllows(cs[k], x);
    }
    forall l | l in strict.lowers ensures x > l {
      var k :| 0 <= k < |cs| && Classify(cs[k], "<", ">") == Ok(Lower(l));
      assert StrictAllows(cs[k], x);
    }
  }

  lemma AllowedWithinBounds(cs: seq<string>, x: int)
    requires Pass(cs, "<=", ">=").Ok? && Pass(StrictOnly(cs), "<", ">").Ok?
    requires forall k :: 0 <= k < |cs| ==> PieceAllows(cs[k], x)
    ensures BelowAll(x, Pass(cs, "<=", ">=").value.uppers, Pass(StrictOnly(cs), "<", ">").value.uppers)
    ensures AboveAll(x, Pass(cs, "<=", ">=").value.lowers, Pass(StrictOnly(cs), "<", ">").value.lowers)
  {
    var plain := Pass(cs, "<=", ">=").value;
    var strict := Pass(StrictOnly(cs), "<", ">").value;
    var so := StrictOnly(cs);
    forall u | u in plain.uppers ensures x <= u {
      var k :| 0 <= k < |cs| && Classify(cs[k], "<=", ">=") == Ok(Upper(u));
      PlainPieceAllows(cs[k], x);
    }
    forall l | l in plain.lowers ensures x >= l {
      var k :| 0 <= k < |cs| && Classify(cs[k], "<=", ">=") == Ok(Lower(l));
      PlainPieceAllows(cs[k], x);
    }
    forall u | u in strict.uppers ensures x < u {
      var k :| 0 <= k < |so| && Classify(so[k], "<", ">") == Ok(Upper(u));
      StrictPieceAllows(cs, so[k], x);
    }
    forall l | l in strict.lowers ensures x > l {
      var k :| 0 <= k < |so| && Classify(so[k], "<", ">") == Ok(Lower(l));
      StrictPieceAllows(cs, so[k], x);
    }
  }

  /** A piece with a non-strict bound allows what that bound allows. */
  lemma PlainPieceAllows(c: string, x: int)
    requires PieceAllows(c, x)
    ensures Classify(c, "<=", ">=").Ok? && Classify(c, "<=", ">=").value.Upper? ==> x <= Classify(c, "<=", ">=").value.value
    ensures Classify(c, "<=", ">=").Ok? && Classify(c, "<=", ">=").value.Lower? ==> x >= Classify(c, "<=", ">=").value.value
  {
  }

  /** A piece the strict pass reads allows what its strict bound allows. */
  lemma StrictPieceAllows(cs: seq<string>, c: string, x: int)
    requires c in StrictOnly(cs)
    requires forall k :: 0 <= k < |cs| ==> PieceAllows(cs[k], x)
    ensures Classify(c, "<", ">").Ok? && Classify(c, "<", ">").value.Upper? ==> x < Classify(c, "<", ">").value.value
    ensures Classify(c, "<", ">").Ok? && Classify(c, "<", ">").value.Lower? ==> x > Classify(c, "<", ">").value.value
  {
    var j :| 0 <= j < |cs| && cs[j] == c;
    assert PieceAllows(c, x);
  }

  lemma BoundsAllow(cs: seq<string>, x: int, k: nat)
    requires k < |cs|
    requires Pass(cs, "<=", ">=").Ok? && Pass(StrictOnly(cs), "<", ">").Ok?
    requires BelowAll(x, Pass(cs, "<=", ">=").value.uppers, Pass(StrictOnly(cs), "<", ">").value.uppers)
    requires AboveAll(x, Pass(cs, "<=", ">=").value.lowers, Pass(StrictOnly(cs), "<", ">").value.lowers)
    ensures PieceAllows(cs[k], x)
  {
    var c := cs[k];
    if Contains(c, "<=") || Contains(c, ">=") {
      PlainBoundAllows(cs, x, k);
    } else {
      var so := StrictOnly(cs);
      assert c in so;
      var j :| 0 <= j < |so| && so[j] == c;
      StrictBoundAllows(so, x, j);
    }
  }

  lemma PlainBoundAllows(cs: seq<string>, x: int, k: nat)
    requires k < |cs| && Pass(cs, "<=", ">=").Ok?
    requires forall u :: u in Pass(cs, "<=", ">=").value.uppers ==> x <= u
    requires forall l :: l in Pass(cs, "<=", ">=").value.lowers ==> x >= l
    ensures Classify(cs[k], "<=", ">=").Ok?
    ensures Classify(cs[k], "<=", ">=").value.Upper? ==> x <= Classify(cs[k], "<=", ">=").value.value
    ensures Classify(cs[k], "<=", ">=").value.Lower? ==> x >= Classify(cs[k], "<=", ">=").value.value
  {
    var f := Classify(cs[k], "<=", ">=");
    assert f.Ok?;
    if f.value.Upper? {
      assert f.value.value in Pass(cs, "<=", ">=").value.uppers;
    } else if f.value.Lower? {
      assert f.value.value in Pass(cs, "<=", ">=").value.lowers;
    }
  }

  lemma StrictBoundAllows(so: seq<string>, x: int, k: nat)
    requires k < |so| && Pass(so, "<", ">").Ok?
    requires forall u :: u in Pass(so, "<", ">").value.uppers ==> x < u
    requires forall l :: l in Pass(so, "<", ">").value.lowers ==> x > l
    ensures Classify(so[k], "<", ">").Ok?
    ensures Classify(so[k], "<", ">").value.Upper? ==> x < Classify(so[k], "<", ">").value.value
    ensures Classify(so[k], "<", ">").value.Lower? ==> x > Classify(so[k], "<", ">").value.value
  {
    var f := Classify(so[k], "<", ">");
    assert f.Ok?;
    if f.value.Upper? {
      assert f.value.value in Pass(so, "<", ">").value.uppers;
    } else if f.value.Lower? {
      assert f.value.value in Pass(so, "<", ">").value.lowers;
    }
  }

  /** The upper end is the greatest integer meeting every upper bound. */
  lemma UpperEndMeaning(us: seq<int>, sus: seq<int>)
    requires us != [] || sus != []
    ensures forall x: int :: BelowAll(x, us, sus) <==> x <= UpperEnd(Least(us), Least(sus))
  {
  }

  /** The lower end is the least integer meeting every lower bound. */
  lemma LowerEndMeaning(ls: seq<int>, sls: seq<int>)
    requires ls != [] || sls != []
    ensures forall x: int :: AboveAll(x, ls, sls) <==> x >= LowerEnd(Greatest(ls), Greatest(sls))
  {
  }

  /* ------------------------------------------------------- bucket lists */

  /** The `direct` kind: one bucket per condition, numbered in order. */
  function DirectBuckets(conditions: seq<string>): (r: seq<Bucket>)
    ensures |r| == |conditions|
    ensures forall i :: 0 <= i < |r| ==> r[i].id == i && r[i].condition == conditions[i]
  {
    seq(|conditions|, i requires 0 <= i < |conditions| => Bucket(conditions[i], i))
  }

  /** `len(range(start, end, step))`; a zero step raises before. */
  function RangeLength(start: int, end: int, step: int): (n: nat)
    requires step != 0
    decreases if step > 0 then end - start else start - end
  {
    if (step > 0 && start >= end) || (step < 0 && start <= end) then 0
    else 1 + RangeLength(start + step, end, step)
  }

  /** The elements of `range(start, end, step)` are `start + i·step` for
      exactly the `i` below its length. */
  lemma {:induction false} RangeLengthMeaning(start: int, end: int, step: int, i: nat)
    requires step != 0
    ensures step > 0 ==> (i < RangeLength(start, end, step) <==> start + i * step < end)
    ensures step < 0 ==> (i < RangeLength(start, end, step) <==> start + i * step > end)
    decreases if step > 0 then end - start else start - end
  {
    if (step > 0 && start >= end) || (step < 0 && start <= end) {
      if step > 0 {
        assert i * step >= 0;
      } else {
        assert i * step <= 0;
      }
    } else if i > 0 {
      RangeLengthMeaning(start + step, end, step, i - 1);
      assert start + step + (i - 1) * step == start + i * step;
    }
  }

  /** The bounds of the `iterator` kind: bucket `i` covers
      `[start + i·step, min(start + (i+1)·step, end))`, for every element
      of `range(start, end, step)`. */
  function IteratorBounds(start: int, end: int, step: int): (r: Result<seq<(int, int)>>)
    ensures r.Err? <==> step == 0
    ensures r.Ok? ==> |r.value| == RangeLength(start, end, step)
    ensures r.Ok? ==> forall i :: 0 <= i < |r.value| ==>
      r.value[i].0 == start + i * step
      && r.value[i].1 == (if start + (i + 1) * step < end then start + (i + 1) * step else end)
  {
    if step == 0 then Err("ValueError: range() arg 3 must not be zero")
    else
      var n := RangeLength(start, end, step);
      Ok(seq(n, i requires 0 <= i < n =>
        (start + i * step, if start + (i + 1) * step < end then start + (i + 1) * step else end)))
  }

  /** The `iterator` kind: each pair of bounds rendered through the rule,
      numbered in order. */
  function IteratorBuckets(start: int, end: int, step: int, rule: (int, int) -> string): (r: Result<seq<Bucket>>)
    ensures r.Err? <==> step == 0
    ensures r.Ok? ==> |r.value| == RangeLength(start, end, step)
    ensures r.Ok? ==> forall i :: 0 <= i < |r.value| ==>
      r.value[i] == Bucket(rule(IteratorBounds(start, end, step).value[i].0, IteratorBounds(start, end, step).value[i].1), i)
  {
    var bounds :- IteratorBounds(start, end, step);
    Ok(seq(|bounds|, i requires 0 <= i < |bounds| => Bucket(rule(bounds[i].0, bounds[i].1), i)))
  }

  /** With a positive step the iterator buckets tile `[start, end)`: each
      starts where the previous one ends, the first at `start`, and the last
      one ends at `end`. */
  lemma IteratorTiles(start: int, end: int, step: int)
    requires step > 0 && start < end
    ensures var b := IteratorBounds(start, end, step).value;
      |b| > 0 && b[0].0 == start && b[|b| - 1].1 == end
      && forall i :: 0 <= i < |b| - 1 ==> b[i].1 == b[i + 1].0
  {
    var b := IteratorBounds(start, end, step).value;
    var n := |b|;
    RangeLengthMeaning(start, end, step, 0);
    RangeLengthMeaning(start, end, step, n);
    RangeLengthMeaning(start, end, step, n - 1);
    forall i | 0 <= i < n - 1
      ensures b[i].1 == b[i + 1].0
    {
      RangeLengthMeaning(start, end, step, i + 1);
    }
  }

  /* ------------------------------------------------------ as-written finding */

  /** `a + op + b` splits into `a` and `b` when `a` has no character of
      `op` and `b` lacks its first one. */
  lemma SplitTwo(a: string, op: string, b: string)
    requires |op| > 0 && op[0] !in b
    requires forall k :: 0 <= k < |a| ==> a[k] !in op
    ensures SplitOn(a + op + b, op) == [a, b]
  {
    var s := a + op + b;
    assert s[..|a|] == a && s[|a| + |op|..] == b;
    assert s[|a|..|a| + |op|] == op;
    forall j | 0 <= j < |a| ensures !OccursAt(s, op, j) {
      assert s[j] == a[j];
      if j + |op| <= |s| {
        assert s[j..j + |op|][0] == s[j];
      }
    }
    FirstIndexIs(s, op, |a|);
    SplitOnStep(s, op, |a|);
    NoHeadNoOccurrence(b, op);
  }

  /** The text of a piece `a>=b` whose sides are single characters that
      are not operators. */
  lemma PieceText(a: char, b: char)
    requires a !in "<>=" && b !in "<>="
    ensures var c := [a, '>', '=', b];
      Contains(c, ">=") && !Contains(c, "<=") && Contains(c, ">") && !Contains(c, "<")
      && SplitOn(c, ">=") == [[a], [b]] && SplitOn(c, ">") == [[a], ['=', b]]
  {
    var c := [a, '>', '=', b];
    assert OccursAt(c, ">=", 1) && OccursAt(c, ">", 1);
    NoHeadNoOccurrence(c, "<=");
    NoHeadNoOccurrence(c, "<");
    assert c == [a] + ">=" + [b] == [a] + ">" + ['=', b];
    SplitTwo([a], ">=", [b]);
    SplitTwo([a], ">", ['=', b]);
  }

  /** Which sides of the example pieces are integer literals. */
  lemma Literals()
    ensures IsInt("0") && IntValue("0") == 0 && IsInt("5") && IntValue("5") == 5
    ensures !IsInt("x") && !IsInt("=0") && !IsInt("=x")
  {
    assert DigitsValue("0") == DigitsValue("") * 10 + ('0' as int - '0' as int);
    assert DigitsValue("5") == DigitsValue("") * 10 + ('5' as int - '0' as int);
    assert !IsDigit('x') && !IsDigit('=');
  }

  /** `x>=0` is a non-strict lower bound, and the strict pass ignores it. */
  lemma LowerPiece()
    ensures Contains("x>=0", ">=") && !Contains("x>=0", "<=")
    ensures Classify("x>=0", "<=", ">=") == Ok(Lower(0))
    ensures Classify("x>=0", "<", ">") == Ok(Nothing)
  {
    PieceText('x', '0');
    Literals();
    assert "x>=0" == ['x', '>', '=', '0'];
    assert Sides("x>=0", "<=", ">=") == ["x", "0"];
    assert Judge("x>=0", "<=", ">=", "x", "0") == Lower(0);
    assert Sides("x>=0", "<", ">") == ["x", "=0"];
    assert Judge("x>=0", "<", ">", "x", "=0") == Nothing;
  }

  /** `5>=x` is a non-strict upper bound, and the strict pass reads it as
      the strict upper bound 5 as well. */
  lemma UpperPiece()
    ensures Contains("5>=x", ">=") && !Contains("5>=x", "<=")
    ensures Classify("5>=x", "<=", ">=") == Ok(Upper(5))
    ensures Classify("5>=x", "<", ">") == Ok(Upper(5))
  {
    PieceText('5', 'x');
    Literals();
    assert "5>=x" == ['5', '>', '=', 'x'];
    assert Sides("5>=x", "<=", ">=") == ["5", "x"];
    assert Judge("5>=x", "<=", ">=", "5", "x") == Upper(5);
    assert Sides("5>=x", "<", ">") == ["5", "=x"];
    assert Judge("5>=x", "<", ">", "5", "=x") == Upper(5);
  }

  lemma NoEquality(c: string)
    requires c == "x>=0" || c == "5>=x"
    ensures !Contains(c, "==")
  {
    forall i | 0 <= i <= |c| ensures !OccursAt(c, "==", i) {
      if i + 2 <= |c| {
        assert c[i..i + 2][0] == c[i] && c[i..i + 2][1] == c[i + 1];
      }
    }
  }

  /** The pass over the second example piece alone. */
  lemma LastPiecePass(fs: seq<Result<Found>>)
    requires fs == [Ok(Upper(5))]
    ensures Gather(fs) == Ok(Collected([5], []))
  {
    assert fs[1..] == [];
    var rest := Gather(fs[1..]);
    assert rest == Ok(Collected([], []));
    assert fs[0].value == Upper(5);
    assert Gather(fs) == Ok(Collected([5] + rest.value.uppers, rest.value.lowers));
    assert [5] + rest.value.uppers == [5];
  }

  /** Classifying two pieces is classifying each. */
  lemma ClassifyTwo(a: string, b: string, le: string, ge: string)
    requires |le| > 0 && |ge| > 0
    ensures ClassifyAll([a, b], le, ge) == [Classify(a, le, ge), Classify(b, le, ge)]
  {
    var r := ClassifyAll([a, b], le, ge);
    assert r[0] == Classify(a, le, ge) && r[1] == Classify(b, le, ge);
  }

  lemma PlainClassified()
    ensures ClassifyAll(["x>=0", "5>=x"], "<=", ">=") == [Ok(Lower(0)), Ok(Upper(5))]
  {
    ClassifyTwo("x>=0", "5>=x", "<=", ">=");
    LowerPiece();
    UpperPiece();
  }

  lemma StrictClassified()
    ensures ClassifyAll(["x>=0", "5>=x"], "<", ">") == [Ok(Nothing), Ok(Upper(5))]
  {
    ClassifyTwo("x>=0", "5>=x", "<", ">");
    LowerPiece();
    UpperPiece();
  }

  /** The passes over the example pieces. */
  lemma ExamplePlainPass()
    ensures Pass(["x>=0", "5>=x"], "<=", ">=") == Ok(Collected([5], [0]))
  {
    PlainClassified();
    var fs := ClassifyAll(["x>=0", "5>=x"], "<=", ">=");
    assert fs[0] == Ok(Lower(0)) && fs[1..] == [Ok(Upper(5))];
    LastPiecePass(fs[1..]);
    var rest := Gather(fs[1..]);
    assert Gather(fs) == Ok(Collected(rest.value.uppers, [0] + rest.value.lowers));
    assert [0] + rest.value.lowers == [0];
  }

  lemma ExampleStrictPass()
    ensures Pass(["x>=0", "5>=x"], "<", ">") == Ok(Collected([5], []))
  {
    StrictClassified();
    var fs := ClassifyAll(["x>=0", "5>=x"], "<", ">");
    assert fs[0] == Ok(Nothing) && fs[1..] == [Ok(Upper(5))];
    LastPiecePass(fs[1..]);
    assert Gather(fs) == Gather(fs[1..]);
  }

  /** Neither example piece is strict-only or an equality. */
  lemma ExampleFilters()
    ensures StrictOnly(["x>=0", "5>=x"]) == []
    ensures Equalities(["x>=0", "5>=x"]) == []
  {
    ExampleNotStrict();
    ExampleNoEquality();
  }

  lemma ExampleNotStrict()
    ensures StrictOnly(["x>=0", "5>=x"]) == []
  {
    var cs := ["x>=0", "5>=x"];
    assert OccursAt(cs[0], ">=", 1) && OccursAt(cs[1], ">=", 1);
    NoneStrictOnly(cs);
  }

  lemma ExampleNoEquality()
    ensures Equalities(["x>=0", "5>=x"]) == []
  {
    var cs := ["x>=0", "5>=x"];
    NoEquality(cs[0]);
    NoEquality(cs[1]);
    NoneEqualities(cs);
  }

  lemma {:induction false} NoneStrictOnly(cs: seq<string>)
    requires forall k :: 0 <= k < |cs| ==> Contains(cs[k], ">=")
    ensures StrictOnly(cs) == []
  {
    if cs != [] {
      assert forall k :: 0 <= k < |cs[1..]| ==> cs[1..][k] == cs[k + 1];
      NoneStrictOnly(cs[1..]);
    }
  }

  lemma {:induction false} NoneEqualities(cs: seq<string>)
    requires forall k :: 0 <= k < |cs| ==> !Contains(cs[k], "==")
    ensures Equalities(cs) == []
  {
    if cs != [] {
      assert forall k :: 0 <= k < |cs[1..]| ==> cs[1..][k] == cs[k + 1];
      NoneEqualities(cs[1..]);
    }
  }

  lemma ExampleAssembles()
    ensures Assemble(Collected([5], [0]), Collected([5], []), []) == Ok(Bounds(0, 4, 0, []))
    ensures Assemble(Collected([5], [0]), Collected([], []), []) == Ok(Bounds(0, 5, 0, []))
  {
    assert !NoBounds(Collected([5], [0]), Collected([5], []));
    assert !NoBounds(Collected([5], [0]), Collected([], []));
    assert Least([5]) == Some(5) && Greatest([0]) == Some(0);
    assert Least([]) == None && Greatest([]) == None;
  }

  lemma ExampleAllows()
    ensures PieceAllows("x>=0", 5) && PieceAllows("5>=x", 5)
  {
    LowerPiece();
    UpperPiece();
  }

  /** The pieces of `x >= 0 and 5 >= x`: as written the range is `[0, 4]`
      although 5 satisfies both pieces; with the strict pass on the strict
      pieces only it is `[0, 5]`. */
  lemma StrictPassNarrows()
    ensures PieceAllows("x>=0", 5) && PieceAllows("5>=x", 5)
    ensures FromPiecesAsWritten(["x>=0", "5>=x"]) == Ok(Bounds(0, 4, 0, []))
    ensures FromPieces(["x>=0", "5>=x"]) == Ok(Bounds(0, 5, 0, []))
  {
    ExampleAllows();
    ExamplePlainPass();
    ExampleStrictPass();
    ExampleFilters();
    ExampleAssembles();
    assert Pass([], "<", ">") == Ok(Collected([], []));
    assert Points([]) == Ok([]);
  }
}
