/** Python's `str` primitives that the modelled code leans on: whitespace,
    substring search, `split`, `join`, `count`, `replace` and `strip`.
    The callers always pass a non-empty literal pattern, so every search
    helper asks for one. The exception is `replace`, whose empty-pattern
    case is modelled as well.
 */
module Text {
  import opened Results

  /** `str.isspace()` for one character: the characters Python's `split()`,
      `strip()` and the regular expression class `\s` treat as whitespace. */
  predicate IsSpace(c: char) {
    var code := c as int;
    code == 0x20 || 0x09 <= code <= 0x0d || 0x1c <= code <= 0x1f
    || code == 0x85 || code == 0xa0 || code == 0x1680
    || 0x2000 <= code <= 0x200a || code == 0x2028 || code == 0x2029
    || code == 0x202f || code == 0x205f || code == 0x3000
  }

  predicate IsDigit(c: char) {
    '0' <= c <= '9'
  }

  predicate IsUpper(c: char) {
    'A' <= c <= 'Z'
  }

  predicate IsLower(c: char) {
    'a' <= c <= 'z'
  }

  /** `str.upper()` / `str.lower()` restricted to ASCII letters. */
  function ToUpper(c: char): char {
    if IsLower(c) then (c as int - 32) as char else c
  }

  function ToLower(c: char): char {
    if IsUpper(c) then (c as int + 32) as char else c
  }

  function LowerAll(s: string): (r: string)
    ensures |r| == |s|
    ensures forall i :: 0 <= i < |s| ==> r[i] == ToLower(s[i])
  {
    if s == [] then [] else [ToLower(s[0])] + LowerAll(s[1..])
  }

  /** `pat` occurs in `s` at position `i`. */
  predicate OccursAt(s: string, pat: string, i: int) {
    0 <= i && i + |pat| <= |s| && s[i..i + |pat|] == pat
  }

  predicate Contains(s: string, pat: string) {
    exists i :: 0 <= i <= |s| && OccursAt(s, pat, i)
  }

  /** Moving past the first character shifts every occurrence by one. */
  lemma OccursShift(s: string, pat: string, j: int)
    requires 1 <= j && |s| >= 1
    ensures OccursAt(s, pat, j) <==> OccursAt(s[1..], pat, j - 1)
  {
    if j + |pat| <= |s| {
      var u, v := s[j..j + |pat|], s[1..][j - 1..j - 1 + |pat|];
      forall k | 0 <= k < |pat| ensures u[k] == v[k] {
        assert u[k] == s[j + k];
      }
      assert u == v;
    }
  }

  /** `str.find`: the leftmost occurrence of `pat`, if any. */
  function FirstIndex(s: string, pat: string): (r: Option<nat>)
    ensures r.Some? ==> OccursAt(s, pat, r.value)
    ensures r.Some? ==> forall j :: 0 <= j < r.value ==> !OccursAt(s, pat, j)
    ensures r.None? ==> forall j :: 0 <= j <= |s| ==> !OccursAt(s, pat, j)
    decreases |s|
  {
    if |s| < |pat| then None
    else if s[..|pat|] == pat then Some(0)
    else
      var rest := FirstIndex(s[1..], pat);
      assert forall j :: 1 <= j <= |s| ==> (OccursAt(s, pat, j) <==> OccursAt(s[1..], pat, j - 1)) by {
        forall j | 1 <= j <= |s| { OccursShift(s, pat, j); }
      }
      if rest.None? then None else Some(rest.value + 1)
  }

  /** `find` fails exactly when the pattern does not occur. */
  lemma FirstIndexNone(s: string, pat: string)
    ensures FirstIndex(s, pat).None? <==> !Contains(s, pat)
  {
  }

  /** `str.split(pat)`: the pieces between non-overlapping occurrences of
      `pat`, scanned from the left. */
  function SplitOn(s: string, pat: string): (r: seq<string>)
    requires |pat| > 0
    ensures |r| >= 1
    decreases |s|
  {
    var fi := FirstIndex(s, pat);
    if fi.None? then [s] else [s[..fi.value]] + SplitOn(s[fi.value + |pat|..], pat)
  }

  /** Without an occurrence, `split` gives the text back whole. */
  lemma SplitOnNone(s: string, pat: string)
    requires |pat| > 0 && !Contains(s, pat)
    ensures SplitOn(s, pat) == [s]
  {
    FirstIndexNone(s, pat);
  }

  /** `sep.join(parts)`. */
  function JoinWith(parts: seq<string>, sep: string): string {
    if parts == [] then ""
    else if |parts| == 1 then parts[0]
    else parts[0] + sep + JoinWith(parts[1..], sep)
  }

  /** `str.count(pat)`: the number of non-overlapping occurrences. */
  function CountOf(s: string, pat: string): nat
    requires |pat| > 0
    decreases |s|
  {
    var fi := FirstIndex(s, pat);
    if fi.None? then 0 else 1 + CountOf(s[fi.value + |pat|..], pat)
  }

  /** `count` is zero exactly when the pattern does not occur. */
  lemma CountOfZero(s: string, pat: string)
    requires |pat| > 0
    ensures CountOf(s, pat) == 0 <==> !Contains(s, pat)
  {
    FirstIndexNone(s, pat);
  }

  /** `str.replace(pat, rep)`: every non-overlapping occurrence, from the
      left. The empty pattern occurs before every character and at the end,
      so `rep` is inserted at each of those places. */
  function ReplaceAll(s: string, pat: string, rep: string): string {
    if pat == [] then InsertEverywhere(s, rep) else ReplaceFrom(s, pat, rep)
  }

  /** `replace` with a non-empty pattern: the first occurrence, then the
      rest after it. */
  function ReplaceFrom(s: string, pat: string, rep: string): string
    requires |pat| > 0
    decreases |s|
  {
    var fi := FirstIndex(s, pat);
    if fi.None? then s else s[..fi.value] + rep + ReplaceFrom(s[fi.value + |pat|..], pat, rep)
  }

  /** `rep` before every character of `s` and after the last. */
  function InsertEverywhere(s: string, rep: string): string {
    if s == [] then rep else rep + [s[0]] + InsertEverywhere(s[1..], rep)
  }

  /** Replacing the empty pattern puts `rep` at each of the `|s| + 1`
      places between characters: with `w = |rep| + 1`, copy `i` of `rep`
      starts at `i·w` and character `i` of `s` follows it. */
  lemma ReplaceEmpty(s: string, rep: string, i: nat)
    requires i < |s|
    ensures |ReplaceAll(s, "", rep)| == |s| + (|s| + 1) * |rep|
    ensures i * (|rep| + 1) + |rep| < |ReplaceAll(s, "", rep)|
    ensures ReplaceAll(s, "", rep)[i * (|rep| + 1)..i * (|rep| + 1) + |rep|] == rep
    ensures ReplaceAll(s, "", rep)[i * (|rep| + 1) + |rep|] == s[i]
  {
    assert ReplaceAll(s, "", rep) == InsertEverywhere(s, rep);
    InsertEverywhereLength(s, rep);
    InsertEverywhereAt(s, rep, i, i * (|rep| + 1));
  }

  lemma {:induction false} InsertEverywhereAt(s: string, rep: string, i: nat, m: nat)
    requires i < |s| && m == i * (|rep| + 1)
    ensures m + |rep| < |InsertEverywhere(s, rep)|
    ensures InsertEverywhere(s, rep)[m..m + |rep|] == rep
    ensures InsertEverywhere(s, rep)[m + |rep|] == s[i]
    decreases i
  {
    var t := InsertEverywhere(s, rep);
    var rest := InsertEverywhere(s[1..], rep);
    var w := |rep| + 1;
    assert t == rep + [s[0]] + rest;
    if i > 0 {
      assert m == w + (i - 1) * w by {
        assert i * w == (i - 1) * w + w;
      }
      InsertEverywhereAt(s[1..], rep, i - 1, m - w);
      assert t[w..] == rest;
      assert t[m..m + |rep|] == rest[m - w..m - w + |rep|];
    }
  }

  lemma {:induction false} InsertEverywhereLength(s: string, rep: string)
    ensures |InsertEverywhere(s, rep)| == |s| + (|s| + 1) * |rep|
  {
    if s != [] {
      InsertEverywhereLength(s[1..], rep);
      assert (|s| + 1) * |rep| == |rep| + |s| * |rep|;
      assert |s| * |rep| == (|s[1..]| + 1) * |rep|;
    }
  }

  function StripLeft(s: string): (r: string)
    ensures |r| <= |s| && r == s[|s| - |r|..]
    ensures r == [] || !IsSpace(r[0])
    ensures forall k :: 0 <= k < |s| - |r| ==> IsSpace(s[k])
  {
    if s != [] && IsSpace(s[0]) then StripLeft(s[1..]) else s
  }

  function StripRight(s: string): (r: string)
    ensures |r| <= |s| && r == s[..|r|]
    ensures r == [] || !IsSpace(r[|r| - 1])
    ensures forall k :: |r| <= k < |s| ==> IsSpace(s[k])
  {
    if s != [] && IsSpace(s[|s| - 1]) then StripRight(s[..|s| - 1]) else s
  }

  /** `str.strip()`: `s[i..i + |r|]` for the `i` leading whitespace
      characters, the rest of `s` being whitespace too. */
  function Strip(s: string): (r: string)
    ensures Stripped(r)
    ensures exists i :: StripsAt(s, r, i)
  {
    var l := StripLeft(s);
    var r := StripRight(l);
    assert StripsAt(s, r, |s| - |l|);
    r
  }

  /** `r` is `s` with its first `i` characters and everything after
      `r` removed, all of them whitespace. */
  ghost predicate StripsAt(s: string, r: string, i: int) {
    0 <= i <= |s| - |r| && r == s[i..i + |r|]
    && (forall k :: 0 <= k < i ==> IsSpace(s[k]))
    && (forall k :: i + |r| <= k < |s| ==> IsSpace(s[k]))
  }

  /** A string Python's `strip()` leaves alone. */
  predicate Stripped(s: string) {
    s == [] || (!IsSpace(s[0]) && !IsSpace(s[|s| - 1]))
  }

  lemma StripStripped(s: string)
    requires Stripped(s)
    ensures Strip(s) == s
  {
  }

  /** Splitting a single-character separator out of a join gives the parts
      back, provided no part contains the separator. */
  lemma {:induction false} SplitJoin(parts: seq<string>, c: char)
    requires |parts| >= 1
    requires forall k :: 0 <= k < |parts| ==> c !in parts[k]
    ensures SplitOn(JoinWith(parts, [c]), [c]) == parts
    decreases |parts|
  {
    var s := JoinWith(parts, [c]);
    if |parts| == 1 {
      NoCharNoOccurrence(parts[0], c);
    } else {
      var w := parts[0];
      var rest := JoinWith(parts[1..], [c]);
      assert s == w + [c] + rest;
      assert OccursAt(s, [c], |w|) by {
        assert s[|w|..|w| + 1] == [c];
      }
      forall j | 0 <= j < |w| ensures !OccursAt(s, [c], j) {
        assert s[j..j + 1] == [w[j]];
      }
      var fi := FirstIndex(s, [c]);
      assert fi == Some(|w|);
      assert s[..|w|] == w;
      assert s[|w| + 1..] == rest;
      SplitJoin(parts[1..], c);
    }
  }

  /** A string without the character has no occurrence of it. */
  lemma NoCharNoOccurrence(s: string, c: char)
    requires c !in s
    ensures !Contains(s, [c])
  {
    forall i | 0 <= i <= |s| ensures !OccursAt(s, [c], i) {
      if i + 1 <= |s| {
        assert s[i..i + 1] == [s[i]];
      }
    }
  }

  /** A string without the first character of a pattern has no
      occurrence of it. */
  lemma NoHeadNoOccurrence(s: string, pat: string)
    requires |pat| > 0 && pat[0] !in s
    ensures !Contains(s, pat)
  {
    forall i | 0 <= i <= |s| ensures !OccursAt(s, pat, i) {
      if i + |pat| <= |s| {
        assert s[i..i + |pat|][0] == s[i];
      }
    }
  }

  /** The first occurrence is the one with no occurrence before it. */
  lemma FirstIndexIs(s: string, pat: string, i: nat)
    requires OccursAt(s, pat, i) && forall j :: 0 <= j < i ==> !OccursAt(s, pat, j)
    ensures FirstIndex(s, pat) == Some(i)
  {
    assert Contains(s, pat);
  }

  lemma Slices3(s: string, i: int, j: int)
    requires 0 <= i <= j <= |s|
    ensures s == s[..i] + s[i..j] + s[j..]
  {
  }

  lemma JoinCons(a: string, rest: seq<string>, sep: string)
    requires |rest| >= 1
    ensures JoinWith([a] + rest, sep) == a + sep + JoinWith(rest, sep)
  {
    assert ([a] + rest)[1..] == rest;
  }

  lemma {:induction false} SplitOnStep(s: string, pat: string, i: nat)
    requires |pat| > 0
    requires FirstIndex(s, pat) == Some(i)
    ensures SplitOn(s, pat) == [s[..i]] + SplitOn(s[i + |pat|..], pat)
  {
  }

  /** One step of `JoinSplit`: the first piece, the pattern and the rest. */
  lemma JoinSplitStep(s: string, pat: string, i: nat)
    requires |pat| > 0 && FirstIndex(s, pat) == Some(i)
    requires JoinWith(SplitOn(s[i + |pat|..], pat), pat) == s[i + |pat|..]
    ensures JoinWith(SplitOn(s, pat), pat) == s
  {
    var tail := s[i + |pat|..];
    var rest := SplitOn(tail, pat);
    var pre := s[..i];
    SplitOnStep(s, pat, i);
    JoinCons(pre, rest, pat);
    assert JoinWith(SplitOn(s, pat), pat) == pre + pat + tail;
    assert s[i..i + |pat|] == pat;
    Slices3(s, i, i + |pat|);
  }

  /** Joining the pieces of a split gives the string back. */
  lemma {:induction false} JoinSplit(s: string, pat: string)
    requires |pat| > 0
    ensures JoinWith(SplitOn(s, pat), pat) == s
    decreases |s|
  {
    var fi := FirstIndex(s, pat);
    if fi.Some? {
      var i := fi.value;
      var tail := s[i + |pat|..];
      assert JoinWith(SplitOn(tail, pat), pat) == tail by { JoinSplit(tail, pat); }
      JoinSplitStep(s, pat, i);
    }
  }

  /** Nothing before the first occurrence can hold the pattern. */
  lemma PrefixBeforeFirst(t: string, pat: string, j: nat)
    requires |pat| > 0 && j <= |t| && forall m :: 0 <= m < j ==> !OccursAt(t, pat, m)
    ensures !Contains(t[..j], pat)
  {
    forall m | 0 <= m <= j ensures !OccursAt(t[..j], pat, m) {
      if m + |pat| <= j {
        assert t[..j][m..m + |pat|] == t[m..m + |pat|];
        assert !OccursAt(t, pat, m);
      }
    }
  }

  /** `replace` swaps the first occurrence and carries on after it. */
  lemma {:induction false} ReplaceStep(s: string, pat: string, rep: string, i: nat)
    requires |pat| > 0 && FirstIndex(s, pat) == Some(i)
    ensures ReplaceFrom(s, pat, rep) == s[..i] + rep + ReplaceFrom(s[i + |pat|..], pat, rep)
  {
  }

  lemma {:induction false} CountStep(s: string, pat: string, i: nat)
    requires |pat| > 0 && FirstIndex(s, pat) == Some(i)
    ensures CountOf(s, pat) == 1 + CountOf(s[i + |pat|..], pat)
  {
  }

  /** With exactly one occurrence, `replace` swaps that occurrence and
      leaves the text around it as it was. */
  lemma ReplaceUnique(s: string, pat: string, rep: string)
    requires |pat| > 0
    requires CountOf(s, pat) == 1
    ensures exists i :: (OccursAt(s, pat, i)
      && !Contains(s[..i], pat) && !Contains(s[i + |pat|..], pat)
      && ReplaceAll(s, pat, rep) == s[..i] + rep + s[i + |pat|..])
  {
    var fi := FirstIndex(s, pat);
    var i := fi.value;
    var tail := s[i + |pat|..];
    ReplaceStep(s, pat, rep, i);
    CountStep(s, pat, i);
    assert CountOf(tail, pat) == 0;
    CountOfZero(tail, pat);
    assert ReplaceAll(tail, pat, rep) == tail;
    PrefixBeforeFirst(s, pat, i);
    assert OccursAt(s, pat, i);
  }

  /** Every character of a part occurs in the joined text. */
  lemma {:induction false} JoinedPart(parts: seq<string>, sep: string, k: nat)
    requires k < |parts|
    ensures forall c :: c in parts[k] ==> c in JoinWith(parts, sep)
  {
    if |parts| > 1 {
      if k > 0 {
        JoinedPart(parts[1..], sep, k - 1);
        assert parts[1..][k - 1] == parts[k];
      }
    }
  }
}
