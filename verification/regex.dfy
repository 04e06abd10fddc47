/** The few regular-expression shapes the tool applies to program text and
    to the analyser's output, written out as scans:

    - `pre(.+)suf`, greedy and confined to one line;
    - `open(.*?)close` with `re.DOTALL`, lazy and free to cross lines;
    - `\s+` replaced by a single space.

    Every literal here is a plain string, so "occurs at" is the only
    matching primitive needed.
 */
module Patterns {
  import opened Results
  import opened Text
  import opened Strings

  /* ------------------------------------------------------- greedy `(.+)` */

  /** The end of the line holding position `from`: the first newline at or
      after it, or the end of the text. */
  function LineEnd(s: string, from: nat): (e: nat)
    requires from <= |s|
    ensures from <= e <= |s|
    ensures forall k :: from <= k < e ==> s[k] != '\n'
    ensures e == |s| || s[e] == '\n'
    decreases |s| - from
  {
    if from == |s| || s[from] == '\n' then from else LineEnd(s, from + 1)
  }

  /** The last occurrence of `pat` that starts at or after `lo` and ends by
      `hi`. */
  function LastOccurrence(s: string, pat: string, lo: nat, hi: nat): (r: Option<nat>)
    requires hi <= |s|
    ensures r.Some? ==> lo <= r.value && r.value + |pat| <= hi && OccursAt(s, pat, r.value)
    ensures r.Some? ==> forall k :: r.value < k && k + |pat| <= hi ==> !OccursAt(s, pat, k)
    ensures r.None? <==> forall k :: lo <= k && k + |pat| <= hi ==> !OccursAt(s, pat, k)
    decreases hi
  {
    if hi < lo + |pat| then None
    else if OccursAt(s, pat, hi - |pat|) then Some(hi - |pat|)
    else LastOccurrence(s, pat, lo, hi - 1)
  }

  /** Where the group of a greedy `pre(.+)suf` match starting at `i` ends:
      the last `suf` on the line that leaves at least one character for
      the group. `suf` never holds a newline in the callers. */
  function GreedyEnd(s: string, pre: string, suf: string, i: nat): (r: Option<nat>)
    ensures r.Some? ==> OccursAt(s, pre, i) && i + |pre| < r.value && OccursAt(s, suf, r.value)
    ensures r.Some? ==> forall k :: i + |pre| <= k < r.value ==> s[k] != '\n'
    ensures r.Some? ==> forall k :: r.value < k && k + |suf| <= LineEnd(s, i + |pre|) ==> !OccursAt(s, suf, k)
    ensures !OccursAt(s, pre, i) ==> r.None?
  {
    if !OccursAt(s, pre, i) then None
    else LastOccurrence(s, suf, i + |pre| + 1, LineEnd(s, i + |pre|))
  }

  /** `GreedyEnd` tabulated over every starting position of the text. */
  function GreedyEnds(s: string, pre: string, suf: string): (ends: seq<Option<nat>>)
    ensures |ends| == |s| + 1
    ensures forall j :: 0 <= j < |ends| ==> ends[j] == GreedyEnd(s, pre, suf, j)
  {
    seq(|s| + 1, j requires 0 <= j <= |s| => GreedyEnd(s, pre, suf, j))
  }

  /** Every tabulated end leaves a non-empty, single-line group after `pre`. */
  predicate EndsFit(s: string, pre: string, ends: seq<Option<nat>>) {
    |ends| == |s| + 1
    && forall j :: 0 <= j < |ends| && ends[j].Some? ==>
         j + |pre| < ends[j].value <= |s|
         && forall k :: j + |pre| <= k < ends[j].value ==> s[k] != '\n'
  }

  lemma GreedyEndsFit(s: string, pre: string, suf: string)
    ensures EndsFit(s, pre, GreedyEnds(s, pre, suf))
  {
    var ends := GreedyEnds(s, pre, suf);
    forall j | 0 <= j < |ends| && ends[j].Some?
      ensures j + |pre| < ends[j].value <= |s|
    {
      assert ends[j] == GreedyEnd(s, pre, suf, j);
    }
  }

  /** The scan behind `findall`, over tabulated ends: take the group of
      the match at `i` and resume after its `suf`, or move on by one. */
  function GreedyGroups(s: string, pre: string, sufLen: nat, ends: seq<Option<nat>>, i: nat): (r: seq<string>)
    requires EndsFit(s, pre, ends)
    ensures forall k :: 0 <= k < |r| ==> |r[k]| > 0 && '\n' !in r[k]
    decreases |s| - i
  {
    if i > |s| then []
    else
      match ends[i]
      case Some(k) =>
        var g := s[i + |pre|..k];
        assert forall c :: c in g ==> c != '\n' by {
          forall c | c in g ensures c != '\n' {
            var m :| 0 <= m < |g| && g[m] == c;
            assert g[m] == s[i + |pre| + m];
          }
        }
        [g] + GreedyGroups(s, pre, sufLen, ends, k + sufLen)
      case None => GreedyGroups(s, pre, sufLen, ends, i + 1)
  }

  /** `re.findall(pre + "(.+)" + suf, s)` from position `i` on: the groups
      of successive greedy matches, each scan resuming after the previous
      match. */
  function FindAllGreedy(s: string, pre: string, suf: string, i: nat): (r: seq<string>)
    ensures forall k :: 0 <= k < |r| ==> |r[k]| > 0 && '\n' !in r[k]
  {
    GreedyEndsFit(s, pre, suf);
    GreedyGroups(s, pre, |suf|, GreedyEnds(s, pre, suf), i)
  }

  /** The leftmost tabulated match at or after `i`. */
  function FirstSome(ends: seq<Option<nat>>, i: nat): (r: Option<nat>)
    ensures r.Some? ==> i <= r.value < |ends| && ends[r.value].Some?
    ensures r.Some? ==> forall m :: i <= m < r.value ==> ends[m].None?
    ensures r.None? <==> forall j :: i <= j < |ends| ==> ends[j].None?
    decreases |ends| - i
  {
    if i >= |ends| then None
    else if ends[i].Some? then Some(i)
    else FirstSome(ends, i + 1)
  }

  /** The leftmost position at or after `i` where a greedy match starts. */
  function FirstMatch(s: string, pre: string, suf: string, i: nat): (r: Option<nat>)
    ensures r.Some? ==> i <= r.value <= |s| && GreedyEnd(s, pre, suf, r.value).Some?
    ensures r.Some? ==> forall m :: i <= m < r.value ==> GreedyEnd(s, pre, suf, m).None?
    ensures r.None? <==> forall j :: i <= j <= |s| ==> GreedyEnd(s, pre, suf, j).None?
  {
    var ends := GreedyEnds(s, pre, suf);
    var r := FirstSome(ends, i);
    assert r.None? ==> forall j :: i <= j <= |s| ==> GreedyEnd(s, pre, suf, j).None? by {
      if r.None? {
        forall j | i <= j <= |s| ensures GreedyEnd(s, pre, suf, j).None? {
          assert ends[j].None?;
        }
      }
    }
    r
  }

  /** The scan yields nothing exactly when no match is left. */
  lemma {:induction false} GroupsNone(s: string, pre: string, sufLen: nat, ends: seq<Option<nat>>, i: nat)
    requires EndsFit(s, pre, ends)
    ensures GreedyGroups(s, pre, sufLen, ends, i) == [] <==> FirstSome(ends, i).None?
    decreases |s| - i
  {
    if i <= |s| && ends[i].None? {
      GroupsNone(s, pre, sufLen, ends, i + 1);
    }
  }

  /** The scan's first group is the one of the leftmost match. */
  lemma {:induction false} GroupsFirst(s: string, pre: string, sufLen: nat, ends: seq<Option<nat>>, j: nat, i: nat)
    requires EndsFit(s, pre, ends) && FirstSome(ends, i) == Some(j)
    ensures GreedyGroups(s, pre, sufLen, ends, i) != []
    ensures GreedyGroups(s, pre, sufLen, ends, i)[0] == s[j + |pre|..ends[j].value]
    decreases |s| - i
  {
    if ends[i].None? {
      GroupsFirst(s, pre, sufLen, ends, j, i + 1);
    }
  }

  /** There is a group exactly when some position starts a match. */
  lemma FindAllGreedyNone(s: string, pre: string, suf: string, i: nat)
    ensures FindAllGreedy(s, pre, suf, i) == [] <==> FirstMatch(s, pre, suf, i).None?
  {
    GreedyEndsFit(s, pre, suf);
    GroupsNone(s, pre, |suf|, GreedyEnds(s, pre, suf), i);
  }

  /** The first group is the one of the leftmost match. */
  lemma FindAllGreedyFirst(s: string, pre: string, suf: string, j: nat, i: nat)
    requires FirstMatch(s, pre, suf, i) == Some(j)
    ensures FindAllGreedy(s, pre, suf, i) != []
    ensures FindAllGreedy(s, pre, suf, i)[0] == s[j + |pre|..GreedyEnd(s, pre, suf, j).value]
  {
    var ends := GreedyEnds(s, pre, suf);
    GreedyEndsFit(s, pre, suf);
    GroupsFirst(s, pre, |suf|, ends, j, i);
    assert ends[j] == GreedyEnd(s, pre, suf, j);
  }

  /* --------------------------------------------------------- lazy `(.*?)` */

  /** `re.findall(open + "(.*?)" + close, s, re.DOTALL)` from position `i`
      on: each group runs from an `open` to the first `close` after it.
      No group holds `close`. */
  function FindAllLazy(s: string, open: string, close: string, i: nat): (r: seq<string>)
    requires |close| > 0
    ensures forall k :: 0 <= k < |r| ==> !Contains(r[k], close)
    ensures r != [] ==> exists j :: i <= j && OccursAt(s, open, j)
    decreases |s| - i
  {
    if i > |s| then []
    else if !OccursAt(s, open, i) then FindAllLazy(s, open, close, i + 1)
    else
      var t := s[i + |open|..];
      match FirstIndex(t, close)
      case None => FindAllLazy(s, open, close, i + 1)
      case Some(j) =>
        PrefixBeforeFirst(t, close, j);
        assert s[i + |open|..i + |open| + j] == t[..j];
        [t[..j]] + FindAllLazy(s, open, close, i + |open| + j + |close|)
  }

  /* --------------------------------------------------------- `\s+` -> " " */

  /** `re.sub(r'\s+', ' ', s)`: every run of whitespace becomes one
      space. The result has no whitespace but single spaces, never two in
      a row, and starts with whitespace exactly when the text does. */
  function CollapseSpaces(s: string): (r: string)
    ensures forall k :: 0 <= k < |r| && IsSpace(r[k]) ==> r[k] == ' '
    ensures forall k :: 0 <= k < |r| - 1 ==> !(IsSpace(r[k]) && IsSpace(r[k + 1]))
    ensures r == [] <==> s == []
    ensures r != [] ==> (IsSpace(r[0]) <==> IsSpace(s[0]))
    decreases |s|
  {
    if s == [] then []
    else if IsSpace(s[0]) then
      var rest := CollapseSpaces(StripLeft(s));
      assert forall k :: 1 <= k < |rest| + 1 ==> ([' '] + rest)[k] == rest[k - 1];
      [' '] + rest
    else
      var rest := CollapseSpaces(s[1..]);
      assert forall k :: 1 <= k < |rest| + 1 ==> ([s[0]] + rest)[k] == rest[k - 1];
      [s[0]] + rest
  }

  /** `lstrip` removes only what cleaning removes anyway. */
  lemma {:induction false} StripLeftClean(s: string)
    ensures Clean(StripLeft(s)) == Clean(s)
    decreases |s|
  {
    if s != [] && IsSpace(s[0]) {
      StripLeftClean(s[1..]);
    }
  }

  /** A leading run of whitespace cleans away on both sides. */
  lemma CollapseSpaceStep(s: string)
    requires s != [] && IsSpace(s[0])
    requires Clean(CollapseSpaces(StripLeft(s))) == Clean(StripLeft(s))
    ensures Clean(CollapseSpaces(s)) == Clean(s)
  {
    var ct := CollapseSpaces(StripLeft(s));
    assert CollapseSpaces(s) == [' '] + ct;
    StripLeftClean(s);
    CleanConcat([' '], ct);
    CleanChar(' ');
  }

  /** A leading non-whitespace character is kept on both sides. */
  lemma CollapseCharStep(s: string)
    requires s != [] && !IsSpace(s[0])
    requires Clean(CollapseSpaces(s[1..])) == Clean(s[1..])
    ensures Clean(CollapseSpaces(s)) == Clean(s)
  {
    var cr := CollapseSpaces(s[1..]);
    assert CollapseSpaces(s) == [s[0]] + cr;
    assert s == [s[0]] + s[1..];
    CleanConcat([s[0]], s[1..]);
    CleanConcat([s[0]], cr);
  }

  /** Collapsing keeps every non-whitespace character, in order. */
  lemma {:induction false} CollapseKeepsText(s: string)
    ensures Clean(CollapseSpaces(s)) == Clean(s)
    decreases |s|
  {
    if s != [] {
      if IsSpace(s[0]) {
        CollapseKeepsText(StripLeft(s));
        CollapseSpaceStep(s);
      } else {
        CollapseKeepsText(s[1..]);
        CollapseCharStep(s);
      }
    }
  }
}
