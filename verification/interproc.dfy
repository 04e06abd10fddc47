/** Reading the invariants out of the abstract interpreter's textual
    output. Each comment of the last analysis holds a location `(Lx Cy)`
    and either `bottom`, `top` or a block `[| c1; c2; … |]` of linear
    constraints; the necessary precondition is the comment with the
    smallest line number.
 */
module Interproc {
  import opened Results
  import opened Text
  import opened Strings
  import opened Patterns
  import opened Constraints
  import opened Polyhedra
  import Buckets

  /** `get_variables`: every variable of any precondition, once; the
      order of `list(set(...))` is unspecified, so the result is a set. */
  function GetVariables(pres: seq<Poly>): (r: set<string>)
    ensures forall v :: v in r <==> exists k :: 0 <= k < |pres| && v in pres[k].vars
  {
    if pres == [] then {}
    else
      var rest := GetVariables(pres[1..]);
      assert forall k :: 1 <= k < |pres| ==> pres[1..][k - 1] == pres[k];
      (set v | v in pres[0].vars) + rest
  }

  /* ------------------------------------------------------------ numbers */

  /** The run of decimal digits at the start of `s`. */
  function LeadingDigits(s: string): (r: string)
    ensures |r| <= |s| && r == s[..|r|] && Buckets.AllDigits(r)
    ensures |r| == |s| || !IsDigit(s[|r|])
  {
    if s != [] && IsDigit(s[0]) then
      var rest := LeadingDigits(s[1..]);
      assert s[1..][..|rest|] == s[1..|rest| + 1];
      [s[0]] + rest
    else []
  }

  /** `marker(\d+)` matches at position `i`. */
  predicate NumberAt(s: string, marker: char, i: int) {
    0 <= i && i + 1 < |s| && s[i] == marker && IsDigit(s[i + 1])
  }

  /** The value of the first `marker(\d+)` match at or after `i`. */
  function FirstNumberFrom(s: string, marker: char, i: nat): (r: Result<nat>)
    ensures r.Err? <==> forall j :: i <= j < |s| ==> !NumberAt(s, marker, j)
    ensures r.Ok? ==> exists j :: (i <= j && NumberAt(s, marker, j)
      && (forall m :: i <= m < j ==> !NumberAt(s, marker, m))
      && r.value == Buckets.DigitsValue(LeadingDigits(s[j + 1..])))
    decreases |s| - i
  {
    if i + 1 >= |s| then Err("IndexError: list index out of range")
    else if NumberAt(s, marker, i) then Ok(Buckets.DigitsValue(LeadingDigits(s[i + 1..])))
    else FirstNumberFrom(s, marker, i + 1)
  }

  /** `int(re.findall(marker + r'(\d+)', s)[0])`: the number after the
      leftmost marker that a digit follows; none raises. */
  function FirstNumber(s: string, marker: char): (r: Result<nat>)
    ensures r.Err? <==> forall j :: 0 <= j < |s| ==> !NumberAt(s, marker, j)
    ensures r.Ok? ==> exists j :: (NumberAt(s, marker, j)
      && (forall m :: 0 <= m < j ==> !NumberAt(s, marker, m))
      && r.value == Buckets.DigitsValue(LeadingDigits(s[j + 1..])))
  {
    FirstNumberFrom(s, marker, 0)
  }

  /* ---------------------------------------------------- constraint block */

  /** The first `|` at or after `from`, or the end of the text. */
  function BarFreeEnd(s: string, from: nat): (e: nat)
    requires from <= |s|
    ensures from <= e <= |s| && (e == |s| || s[e] == '|')
    ensures forall k :: from <= k < e ==> s[k] != '|'
    decreases |s| - from
  {
    if from == |s| || s[from] == '|' then from else BarFreeEnd(s, from + 1)
  }

  /** `\[\|([^|]+)\|\]` matches at position `i`. */
  predicate BlockAt(s: string, i: int) {
    OccursAt(s, "[|", i) && BarFreeEnd(s, i + 2) > i + 2 && OccursAt(s, "|]", BarFreeEnd(s, i + 2))
  }

  /** The body of the leftmost block at or after `i`. */
  function BlockFrom(s: string, i: nat): (r: Option<string>)
    ensures r.None? <==> forall j :: i <= j <= |s| ==> !BlockAt(s, j)
    ensures r.Some? ==> |r.value| > 0 && '|' !in r.value
    ensures r.Some? ==> exists j :: (i <= j && BlockAt(s, j)
      && (forall m :: i <= m < j ==> !BlockAt(s, m))
      && r.value == s[j + 2..BarFreeEnd(s, j + 2)])
    decreases |s| - i
  {
    if i > |s| then None
    else if BlockAt(s, i) then
      var body := s[i + 2..BarFreeEnd(s, i + 2)];
      assert forall k :: 0 <= k < |body| ==> body[k] == s[i + 2 + k];
      Some(body)
    else BlockFrom(s, i + 1)
  }

  /** `raw_poly`: the first block's body, stripped, split on `;`, each
      piece with its whitespace removed; no block gives no constraints. */
  function RawPoly(ctx: string): (r: seq<string>)
    ensures BlockFrom(ctx, 0).None? ==> r == []
    ensures BlockFrom(ctx, 0).Some? ==> |r| == |SplitOn(Strip(BlockFrom(ctx, 0).value), ";")| >= 1
    ensures forall k :: 0 <= k < |r| ==> (forall c :: c in r[k] ==> !IsSpace(c) && c != '|')
  {
    match BlockFrom(ctx, 0)
    case None => []
    case Some(body) => RawPieces(body)
  }

  /** The pieces of one block body. */
  function RawPieces(body: string): (r: seq<string>)
    requires '|' !in body
    ensures |r| == |SplitOn(Strip(body), ";")|
    ensures forall k :: 0 <= k < |r| ==> (forall c :: c in r[k] ==> !IsSpace(c) && c != '|')
  {
    var pieces := SplitOn(Strip(body), ";");
    PiecesFromBody(body, pieces);
    CleanPieces(pieces);
    Buckets.CleanAll(pieces)
  }

  /** Cleaning keeps only characters of the text. */
  lemma {:induction false} CleanInside(x: string)
    ensures forall c :: c in Clean(x) ==> c in x
  {
    if x != [] {
      CleanInside(x[1..]);
    }
  }

  lemma CleanPieces(pieces: seq<string>)
    requires forall k :: 0 <= k < |pieces| ==> '|' !in pieces[k]
    ensures forall k :: 0 <= k < |pieces| ==> (forall c :: c in Buckets.CleanAll(pieces)[k] ==> !IsSpace(c) && c != '|')
  {
    forall k | 0 <= k < |pieces| ensures forall c :: c in Buckets.CleanAll(pieces)[k] ==> !IsSpace(c) && c != '|' {
      CleanInside(pieces[k]);
    }
  }

  /** Every piece of the stripped body is free of `|`. */
  lemma PiecesFromBody(body: string, pieces: seq<string>)
    requires '|' !in body && pieces == SplitOn(Strip(body), ";")
    ensures forall k :: 0 <= k < |pieces| ==> '|' !in pieces[k]
  {
    StripInside(body);
    JoinSplit(Strip(body), ";");
    forall k | 0 <= k < |pieces| ensures '|' !in pieces[k] {
      JoinedPart(pieces, ";", k);
    }
  }

  /** Every character of a stripped text comes from the text. */
  lemma StripInside(s: string)
    ensures forall c :: c in Strip(s) ==> c in s
  {
  }

  /* ---------------------------------------------------------- invariants */

  /** `InterprocInv`: one comment of the analyser's output. */
  datatype Inv = Inv(ctx: string, l: nat, c: nat, isBottom: bool, isTop: bool,
                     variables: seq<string>, rawPoly: seq<string>)

  /** The constructor: the location numbers are read from the raw comment
      and a missing one raises, line before column; the flags are plain
      substring tests on the raw comment; the stored text has its
      whitespace runs collapsed. */
  function MakeInv(variables: seq<string>, ctx: string): Result<Inv> {
    var l :- FirstNumber(ctx, 'L');
    var c :- FirstNumber(ctx, 'C');
    Ok(Inv(CollapseSpaces(ctx), l, c, Contains(ctx, "bottom"), Contains(ctx, "top"), variables, RawPoly(ctx)))
  }

  /** What the constructor records, stated once. */
  lemma MakeInvFields(variables: seq<string>, ctx: string)
    ensures MakeInv(variables, ctx).Err? <==> FirstNumber(ctx, 'L').Err? || FirstNumber(ctx, 'C').Err?
    ensures MakeInv(variables, ctx).Ok? ==>
      var inv := MakeInv(variables, ctx).value;
      inv.l == FirstNumber(ctx, 'L').value && inv.c == FirstNumber(ctx, 'C').value
      && (inv.isBottom <==> Contains(ctx, "bottom")) && (inv.isTop <==> Contains(ctx, "top"))
      && Clean(inv.ctx) == Clean(ctx) && inv.rawPoly == RawPoly(ctx) && inv.variables == variables
  {
    CollapseKeepsText(ctx);
  }

  /** `poly()`: the bottom flag wins over the top flag; otherwise the
      constraints are parsed, and no constraints at all give BOTTOM. */
  function InvPoly(inv: Inv, mapping: string -> string, parse: string -> Symbolic): (r: Result<Poly>)
    ensures inv.isBottom ==> r == Ok(BottomPoly())
    ensures !inv.isBottom && inv.isTop ==> r == Ok(TopPoly())
    ensures !inv.isBottom && !inv.isTop && inv.rawPoly == [] ==> r == Ok(BottomPoly())
    ensures !inv.isBottom && !inv.isTop && inv.rawPoly != [] && r.Ok? ==>
      r.value.vars == inv.variables && r.value.status == Unknown
    ensures r.Ok? ==> WellFormed(r.value)
  {
    if inv.isBottom then Ok(BottomPoly())
    else if inv.isTop then Ok(TopPoly())
    else FromStringConstraints(inv.variables, mapping, parse, inv.rawPoly)
  }

  /** `satisfiable()`: not flagged bottom, and the polyhedron is not
      empty; building the polyhedron may raise, but only when the flag is
      off. */
  function Satisfiable(inv: Inv, o: Oracle, mapping: string -> string, parse: string -> Symbolic): (r: Result<bool>)
    ensures inv.isBottom ==> r == Ok(false)
    ensures r.Err? <==> InvPoly(inv, mapping, parse).Err?
    ensures r.Ok? ==> (r.value <==> !inv.isBottom && !IsBottom(InvPoly(inv, mapping, parse).value, o))
  {
    if inv.isBottom then Ok(false)
    else
      var p :- InvPoly(inv, mapping, parse);
      Ok(!IsBottom(p, o))
  }

  /** A comment that is neither flagged nor carries a constraint block is
      not satisfiable. */
  lemma NoConstraintsUnsatisfiable(inv: Inv, o: Oracle, mapping: string -> string, parse: string -> Symbolic)
    requires !inv.isBottom && !inv.isTop && inv.rawPoly == []
    ensures Satisfiable(inv, o, mapping, parse) == Ok(false)
  {
    assert InvPoly(inv, mapping, parse) == Ok(BottomPoly());
    assert IsBottom(BottomPoly(), o);
  }

  /* -------------------------------------------------------------- output */

  /** The text after the last occurrence of `pat`, or all of it. */
  function LastSection(s: string, pat: string): string
    requires |pat| > 0
    decreases |s|
  {
    match FirstIndex(s, pat)
    case None => s
    case Some(i) => LastSection(s[i + |pat|..], pat)
  }

  lemma {:induction false} LastSectionStep(s: string, pat: string, i: nat)
    requires |pat| > 0 && FirstIndex(s, pat) == Some(i)
    ensures LastSection(s, pat) == LastSection(s[i + |pat|..], pat)
  {
  }

  /** The last element, `xs[-1]`. */
  function Last<T>(xs: seq<T>): T
    requires |xs| > 0
  {
    xs[|xs| - 1]
  }

  lemma LastOfCons(a: string, rest: seq<string>)
    requires |rest| >= 1
    ensures Last([a] + rest) == Last(rest)
  {
  }

  lemma LastPieceStep(s: string, pat: string, i: nat)
    requires |pat| > 0 && FirstIndex(s, pat) == Some(i)
    requires LastSection(s[i + |pat|..], pat) == Last(SplitOn(s[i + |pat|..], pat))
    ensures LastSection(s, pat) == Last(SplitOn(s, pat))
  {
    var rest := SplitOn(s[i + |pat|..], pat);
    LastSectionStep(s, pat, i);
    SplitOnStep(s, pat, i);
    LastOfCons(s[..i], rest);
  }

  /** It is the last piece of `split(pat)`. */
  lemma {:induction false} LastSectionIsLastPiece(s: string, pat: string)
    requires |pat| > 0
    ensures LastSection(s, pat) == Last(SplitOn(s, pat))
    decreases |s|
  {
    var fi := FirstIndex(s, pat);
    if fi.None? {
      assert SplitOn(s, pat) == [s];
    } else {
      var tail := s[fi.value + |pat|..];
      assert LastSection(tail, pat) == Last(SplitOn(tail, pat)) by {
        LastSectionIsLastPiece(tail, pat);
      }
      LastPieceStep(s, pat, fi.value);
    }
  }

  /** `[f(x) for x in xs]` where `f` may raise: the first failure
      raises. */
  function MapAll<T>(f: string -> Result<T>, xs: seq<string>): (r: Result<seq<T>>)
    ensures r.Err? <==> exists k :: 0 <= k < |xs| && f(xs[k]).Err?
    ensures r.Ok? ==> |r.value| == |xs| && forall k :: 0 <= k < |xs| ==> f(xs[k]) == Ok(r.value[k])
  {
    if xs == [] then Ok([])
    else
      var head := f(xs[0]);
      var rest := MapAll(f, xs[1..]);
      assert forall k :: 1 <= k < |xs| ==> xs[1..][k - 1] == xs[k];
      if head.Err? then Err(head.msg)
      else if rest.Err? then rest
      else Ok([head.value] + rest.value)
  }

  /** `min(invs, key=l)`: the first invariant with the least line. */
  function FirstLeast(invs: seq<Inv>): (k: nat)
    requires |invs| > 0
    ensures k < |invs|
    ensures forall j :: 0 <= j < |invs| ==> invs[k].l <= invs[j].l
    ensures forall j :: 0 <= j < k ==> invs[j].l > invs[k].l
  {
    if |invs| == 1 then 0
    else
      var rest := FirstLeast(invs[1..]) + 1;
      assert forall j :: 1 <= j < |invs| ==> invs[1..][j - 1] == invs[j];
      if invs[0].l <= invs[rest].l then 0 else rest
  }

  const AnalysisMarker: string := "Annotated program after "

  /** The comment bodies of the last analysis. */
  function Comments(output: string): (r: seq<string>)
    ensures forall k :: 0 <= k < |r| ==> !Contains(r[k], "*/")
  {
    FindAllLazy(LastSection(output, AnalysisMarker), "/*", "*/", 0)
  }

  /** Every comment of the last analysis made into an invariant. */
  function Invariants(variables: seq<string>, output: string): (r: Result<seq<Inv>>)
    ensures r.Ok? ==> |r.value| == |Comments(output)|
  {
    MapAll((c: string) => MakeInv(variables, c), Comments(output))
  }

  /** Making the invariants fails exactly when some comment fails. */
  lemma InvariantsFail(variables: seq<string>, output: string)
    ensures Invariants(variables, output).Err? <==>
      exists k :: 0 <= k < |Comments(output)| && MakeInv(variables, Comments(output)[k]).Err?
  {
    var comments := Comments(output);
    var f := (c: string) => MakeInv(variables, c);
    assert forall k :: 0 <= k < |comments| ==> f(comments[k]) == MakeInv(variables, comments[k]);
  }

  /** The `k`-th invariant is the `k`-th comment's. */
  lemma InvariantAt(variables: seq<string>, output: string, k: nat)
    requires Invariants(variables, output).Ok? && k < |Comments(output)|
    ensures MakeInv(variables, Comments(output)[k]) == Ok(Invariants(variables, output).value[k])
  {
    var f := (c: string) => MakeInv(variables, c);
    assert f(Comments(output)[k]) == MakeInv(variables, Comments(output)[k]);
  }

  /** `x` is the first invariant of `invs` with the least line. */
  predicate FirstWithLeastLine(invs: seq<Inv>, x: Inv) {
    exists k :: (0 <= k < |invs| && x == invs[k]
      && (forall j :: 0 <= j < |invs| ==> x.l <= invs[j].l)
      && (forall j :: 0 <= j < k ==> invs[j].l > x.l))
  }

  /** `min(invs, key=lambda x: x.l)`, raising on an empty list. */
  function Necessary(invs: seq<Inv>): (r: Result<Inv>)
    ensures r.Err? <==> invs == []
    ensures r.Ok? ==> FirstWithLeastLine(invs, r.value)
  {
    if invs == [] then Err("ValueError: min() arg is an empty sequence")
    else Ok(invs[FirstLeast(invs)])
  }

  /** `parse_interproc_output`: the comment of the last analysis with the
      least line, the first of them on a tie. No comment, or a comment
      without a location, raises. */
  function ParseOutput(variables: seq<string>, output: string): (r: Result<Inv>)
    ensures r.Err? <==> Invariants(variables, output).Err? || Comments(output) == []
    ensures r.Ok? ==> FirstWithLeastLine(Invariants(variables, output).value, r.value)
  {
    var invs :- Invariants(variables, output);
    Necessary(invs)
  }
}
